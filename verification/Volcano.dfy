/** The query operators as they run: each is opened, then asked for one row after the other. An operator and its state
    are one value, which every step replaces. */
module Volcano {
  import opened Common
  import opened Relations

  datatype Plan =
    | SeqScan(rows: seq<Row>, cursor: nat)
    | Filter(child: Plan, col: nat, target: string)
    | Aggregate(child: Plan, func: AggregateFunc, executed: bool)
    | HashJoin(left: Plan, right: Plan, lk: nat, rk: nat, kind: JoinType, width: nat, result: seq<Row>, cursor: nat)
    | HashGroup(child: Plan, col: nat, func: AggregateFunc, having: Option<(string, string)>, result: seq<Row>, cursor: nat)
    | LimitOffset(child: Plan, limit: Option<nat>, offset: nat, result: seq<Row>, cursor: nat)

  function Height(p: Plan): nat {
    match p
    case SeqScan(_, _) => 0
    case HashJoin(l, r, _, _, _, _, _, _) => Height(l) + Height(r) + 1
    case _ => Height(p.child) + 1
  }

  /** The rows a plan stands for, whatever state it is in. */
  ghost function Denoted(a: Arith, p: Plan): seq<Row> {
    match p
    case SeqScan(rows, _) => rows
    case Filter(child, col, target) => Filtered(Denoted(a, child), col, target)
    case Aggregate(child, func, _) => [[AggregateOf(a, func, Denoted(a, child))]]
    case HashJoin(left, right, lk, rk, kind, width, _, _) =>
      NestedLoop(Denoted(a, left), Denoted(a, right), lk, rk, kind, width)
    case HashGroup(child, col, func, having, _, _) => Grouped(a, func, having, Denoted(a, child), col)
    case LimitOffset(child, limit, offset, _, _) => Limited(Denoted(a, child), limit, offset)
  }

  ghost function From(rows: seq<Row>, cursor: nat): seq<Row> {
    if cursor < |rows| then rows[cursor..] else []
  }

  /** The rows an opened plan will still give. */
  ghost function Remaining(a: Arith, p: Plan): seq<Row> {
    match p
    case SeqScan(rows, cursor) => From(rows, cursor)
    case Filter(child, col, target) => Filtered(Remaining(a, child), col, target)
    case Aggregate(child, func, executed) =>
      if executed then [] else [[AggregateOf(a, func, Remaining(a, child))]]
    case _ => From(p.result, p.cursor)
  }

  /** The same plan in another state. */
  ghost predicate SamePlan(a: Arith, p: Plan, p': Plan) {
    Height(p') == Height(p) && Denoted(a, p') == Denoted(a, p)
  }

  /** A plan gave its next row, if it had one. */
  ghost predicate Advanced(a: Arith, p: Plan, p': Plan, row: Option<Row>) {
    && SamePlan(a, p, p')
    && Remaining(a, p) == (if row.Some? then [row.value] else []) + Remaining(a, p')
    && (row.None? ==> Remaining(a, p) == [])
  }

  // ---- next ----

  method Next(a: Arith, p: Plan) returns (p': Plan, row: Option<Row>)
    ensures Advanced(a, p, p', row)
    decreases Height(p), 0
  {
    match p
    case SeqScan(rows, cursor) =>
      if cursor < |rows| {
        return SeqScan(rows, cursor + 1), Some(rows[cursor]);
      } else {
        return p, None;
      }
    case Filter(child, col, target) =>
      var c;
      c, row := NextMatch(a, child, col, target);
      return Filter(c, col, target), row;
    case Aggregate(child, func, executed) =>
      if executed { return p, None; }
      var c, count, sum := DrainSum(a, child, func);
      var text := Text(a, func, count, sum, Remaining(a, child));
      return Aggregate(c, func, true), Some([text]);
    case _ =>
      if p.cursor < |p.result| {
        MovedAdvances(a, p);
        return Moved(p), Some(p.result[p.cursor]);
      } else {
        return p, None;
      }
  }

  function Moved(p: Plan): Plan
    requires !p.SeqScan? && !p.Filter? && !p.Aggregate?
  {
    match p
    case HashJoin(l, r, lk, rk, kind, width, result, cursor) => HashJoin(l, r, lk, rk, kind, width, result, cursor + 1)
    case HashGroup(c, col, func, having, result, cursor) => HashGroup(c, col, func, having, result, cursor + 1)
    case LimitOffset(c, limit, offset, result, cursor) => LimitOffset(c, limit, offset, result, cursor + 1)
  }

  lemma MovedAdvances(a: Arith, p: Plan)
    requires !p.SeqScan? && !p.Filter? && !p.Aggregate? && p.cursor < |p.result|
    ensures Advanced(a, p, Moved(p), Some(p.result[p.cursor]))
  {
    assert From(p.result, p.cursor) == [p.result[p.cursor]] + From(p.result, p.cursor + 1);
  }

  /** The text of an aggregate. */
  method Text(a: Arith, func: AggregateFunc, count: nat, sum: Float, ghost rows: seq<Row>) returns (text: string)
    requires count == |rows| && sum == SumOf(a, func, rows)
    ensures text == AggregateOf(a, func, rows)
  {
    match func
    case Count =>
      text := a.showCount(count);
    case Sum(_) =>
      text := a.show(sum);
    case Avg(_) =>
      text := if count > 0 then a.show(a.ratio(sum, count)) else "0";
  }

  /** The sum with the value of one more row. */
  method Add(a: Arith, func: AggregateFunc, sum: Float, row: Row, ghost rows: seq<Row>) returns (more: Float)
    requires sum == SumOf(a, func, rows)
    ensures more == SumOf(a, func, rows + [row])
  {
    SumSnoc(a, func, rows, row);
    more := sum;
    match func
    case Count =>
    case _ =>
      if func.col < |row| {
        var val := a.parse(row[func.col]);
        if val.Some? { more := a.add(sum, val.value); }
      }
  }

  /** The loop of the filter: draws rows from the child until one matches. */
  method NextMatch(a: Arith, child: Plan, col: nat, target: string) returns (c: Plan, row: Option<Row>)
    ensures SamePlan(a, child, c)
    ensures Filtered(Remaining(a, child), col, target) ==
            (if row.Some? then [row.value] else []) + Filtered(Remaining(a, c), col, target)
    ensures row.None? ==> Remaining(a, c) == []
    decreases Height(child), 1
  {
    c := child;
    while true
      invariant SamePlan(a, child, c)
      invariant Filtered(Remaining(a, child), col, target) == Filtered(Remaining(a, c), col, target)
      decreases |Remaining(a, c)|
    {
      var c', r := Next(a, c);
      c := c';
      if r.None? { return c, None; }
      FilteredCons(r.value, Remaining(a, c), col, target);
      if col < |r.value| && r.value[col] == target { return c, r; }
    }
  }

  /** The loop of the plain aggregate: counts and adds up all rows of the child. */
  method DrainSum(a: Arith, child: Plan, func: AggregateFunc) returns (c: Plan, count: nat, sum: Float)
    ensures SamePlan(a, child, c)
    ensures count == |Remaining(a, child)| && sum == SumOf(a, func, Remaining(a, child))
    decreases Height(child), 1
  {
    c, count, sum := child, 0, a.zero;
    ghost var seen: seq<Row> := [];
    assert Numbers(a, [], if func.Count? then 0 else func.col) == [];
    while true
      invariant SamePlan(a, child, c) && seen + Remaining(a, c) == Remaining(a, child)
      invariant count == |seen| && sum == SumOf(a, func, seen)
      decreases |Remaining(a, c)|
    {
      var c', r := Next(a, c);
      if r.None? { c := c'; break; }
      NextSeen(seen, r.value, Remaining(a, c'));
      sum := Add(a, func, sum, r.value, seen);
      c, count, seen := c', count + 1, seen + [r.value];
    }
    assert seen + [] == seen;
  }

  lemma NextSeen(seen: seq<Row>, row: Row, rest: seq<Row>)
    ensures seen + ([row] + rest) == (seen + [row]) + rest
  {
  }

  // ---- open ----

  method Open(a: Arith, p: Plan) returns (p': Plan)
    ensures SamePlan(a, p, p') && Remaining(a, p') == Denoted(a, p)
    decreases Height(p), 3
  {
    match p
    case SeqScan(rows, _) =>
      assert From(rows, 0) == rows;
      return SeqScan(rows, 0);
    case Filter(child, col, target) =>
      var c := Open(a, child);
      return Filter(c, col, target);
    case Aggregate(child, func, _) =>
      var c := Open(a, child);
      return Aggregate(c, func, false);
    case HashJoin(left, right, lk, rk, kind, width, _, _) =>
      var l := Open(a, left);
      var r := Open(a, right);
      var table;
      r, table := BuildTable(a, r, rk);
      var result;
      l, result := Probe(a, l, table, lk, rk, kind, width, Denoted(a, right));
      assert From(result, 0) == result;
      return HashJoin(l, r, lk, rk, kind, width, result, 0);
    case HashGroup(child, col, func, having, _, _) =>
      var c := Open(a, child);
      var groups, keys;
      c, groups, keys := BuildGroups(a, c, col, func);
      var result := EmitGroups(a, groups, keys, col, func, having, Denoted(a, child));
      assert From(result, 0) == result;
      return HashGroup(c, col, func, having, result, 0);
    case LimitOffset(child, limit, offset, _, _) =>
      var c := Open(a, child);
      var result;
      c, result := Window(a, c, limit, offset);
      assert From(result, 0) == result;
      return LimitOffset(c, limit, offset, result, 0);
  }

  /** The hash table has the rows by key, in order. */
  ghost predicate TableOf(table: map<string, seq<Row>>, rows: seq<Row>, rk: nat) {
    forall k {:trigger Filtered(rows, rk, k)} ::
      (k in table <==> Filtered(rows, rk, k) != []) && (k in table ==> table[k] == Filtered(rows, rk, k))
  }

  /** The build loop of the hash join. */
  method BuildTable(a: Arith, right: Plan, rk: nat) returns (r: Plan, table: map<string, seq<Row>>)
    ensures SamePlan(a, right, r) && TableOf(table, Remaining(a, right), rk)
    decreases Height(right), 1
  {
    r, table := right, map[];
    ghost var seen: seq<Row> := [];
    while true
      invariant SamePlan(a, right, r) && seen + Remaining(a, r) == Remaining(a, right) && TableOf(table, seen, rk)
      decreases |Remaining(a, r)|
    {
      var r', row := Next(a, r);
      r := r';
      if row.None? { break; }
      NextSeen(seen, row.value, Remaining(a, r));
      TableStep(table, seen, row.value, rk);
      if rk < |row.value| {
        var key := row.value[rk];
        table := table[key := (if key in table then table[key] else []) + [row.value]];
      }
      seen := seen + [row.value];
    }
    assert seen + [] == seen;
  }

  lemma TableStep(table: map<string, seq<Row>>, rows: seq<Row>, row: Row, rk: nat)
    requires TableOf(table, rows, rk)
    ensures TableOf(if rk < |row| then table[row[rk] := (if row[rk] in table then table[row[rk]] else []) + [row]] else table,
                    rows + [row], rk)
  {
    forall k ensures Filtered(rows + [row], rk, k) == Filtered(rows, rk, k) + (if HasValue(row, rk, k) then [row] else []) {
      FilteredSnoc(rows, row, rk, k);
    }
  }

  /** The probe loop of the hash join. */
  method Probe(a: Arith, left: Plan, table: map<string, seq<Row>>, lk: nat, ghost rk: nat, kind: JoinType, width: nat,
               ghost right: seq<Row>)
    returns (l: Plan, result: seq<Row>)
    requires TableOf(table, right, rk)
    ensures SamePlan(a, left, l) && result == NestedLoop(Remaining(a, left), right, lk, rk, kind, width)
    decreases Height(left), 1
  {
    l, result := left, [];
    ghost var seen: seq<Row> := [];
    while true
      invariant SamePlan(a, left, l) && seen + Remaining(a, l) == Remaining(a, left)
      invariant result == NestedLoop(seen, right, lk, rk, kind, width)
      decreases |Remaining(a, l)|
    {
      var l', row := Next(a, l);
      l := l';
      if row.None? { break; }
      NextSeen(seen, row.value, Remaining(a, l));
      var joined := ProbeRow(row.value, table, lk, rk, kind, width, right);
      assert (seen + [row.value])[..|seen|] == seen;
      result, seen := result + joined, seen + [row.value];
    }
    assert seen + [] == seen;
  }

  /** The rows one left row is joined with. */
  method ProbeRow(l: Row, table: map<string, seq<Row>>, lk: nat, ghost rk: nat, kind: JoinType, width: nat,
                  ghost right: seq<Row>)
    returns (rows: seq<Row>)
    requires TableOf(table, right, rk)
    ensures rows == JoinRow(l, right, lk, rk, kind, width)
  {
    rows := [];
    if lk < |l| {
      var key := l[lk];
      ghost var matches := Filtered(right, rk, key);
      if key in table {
        var i: nat := 0;
        while i < |table[key]|
          invariant i <= |matches| && rows == Pairs(l, matches)[..i]
        {
          rows, i := rows + [l + table[key][i]], i + 1;
        }
      } else if kind == Left {
        rows := [l + seq(width, _ => "NULL")];
      }
    }
  }

  /** The accumulator of a group holds its count and sum, as if it were aggregated on its own. */
  ghost predicate GroupAt(a: Arith, groups: map<string, (nat, Float)>, rows: seq<Row>, col: nat, func: AggregateFunc,
                          g: string) {
    && (g in groups <==> Filtered(rows, col, g) != [])
    && (g in groups ==> groups[g] == (|Filtered(rows, col, g)|, SumOf(a, func, Filtered(rows, col, g))))
  }

  ghost predicate GroupsOf(a: Arith, groups: map<string, (nat, Float)>, keys: seq<string>, rows: seq<Row>, col: nat,
                           func: AggregateFunc) {
    keys == Groups(rows, col) && forall g {:trigger GroupAt(a, groups, rows, col, func, g)} :: GroupAt(a, groups, rows, col, func, g)
  }

  /** The loop of the grouped aggregate. */
  method BuildGroups(a: Arith, child: Plan, col: nat, func: AggregateFunc)
    returns (c: Plan, groups: map<string, (nat, Float)>, keys: seq<string>)
    ensures SamePlan(a, child, c) && GroupsOf(a, groups, keys, Remaining(a, child), col, func)
    decreases Height(child), 1
  {
    c, groups, keys := child, map[], [];
    ghost var seen: seq<Row> := [];
    while true
      invariant SamePlan(a, child, c) && seen + Remaining(a, c) == Remaining(a, child)
      invariant GroupsOf(a, groups, keys, seen, col, func)
      decreases |Remaining(a, c)|
    {
      var c', row := Next(a, c);
      c := c';
      if row.None? { break; }
      NextSeen(seen, row.value, Remaining(a, c));
      groups, keys := GroupRow(a, groups, keys, row.value, col, func, seen);
      seen := seen + [row.value];
    }
    assert seen + [] == seen;
  }

  /** One round of it. */
  method GroupRow(a: Arith, groups: map<string, (nat, Float)>, keys: seq<string>, row: Row, col: nat, func: AggregateFunc,
                  ghost seen: seq<Row>)
    returns (groups': map<string, (nat, Float)>, keys': seq<string>)
    requires GroupsOf(a, groups, keys, seen, col, func)
    ensures GroupsOf(a, groups', keys', seen + [row], col, func)
  {
    groups', keys' := groups, keys;
    if col < |row| {
      GroupNext(a, groups, keys, seen, row, col, func);
      groups', keys' := AddToGroup(a, groups, keys, row, row[col], func, Filtered(seen, col, row[col]));
    } else {
      GroupSkip(a, groups, keys, seen, row, col, func);
    }
  }

  /** One more row of group `g`; a new group starts from zero. */
  method AddToGroup(a: Arith, groups: map<string, (nat, Float)>, keys: seq<string>, row: Row, g: string,
                    func: AggregateFunc, ghost rows: seq<Row>)
    returns (groups': map<string, (nat, Float)>, keys': seq<string>)
    requires if g in groups then groups[g] == (|rows|, SumOf(a, func, rows)) else rows == []
    ensures groups' == groups[g := (|rows + [row]|, SumOf(a, func, rows + [row]))]
    ensures keys' == if g in groups then keys else keys + [g]
  {
    keys' := keys;
    var count, sum := 0, a.zero;
    if g in groups {
      count, sum := groups[g].0, groups[g].1;
    } else {
      keys' := keys + [g];
      assert Numbers(a, [], if func.Count? then 0 else func.col) == [];
    }
    sum := Add(a, func, sum, row, rows);
    groups' := groups[g := (count + 1, sum)];
  }

  lemma GroupSkip(a: Arith, groups: map<string, (nat, Float)>, keys: seq<string>, rows: seq<Row>, row: Row, col: nat,
                  func: AggregateFunc)
    requires GroupsOf(a, groups, keys, rows, col, func) && col >= |row|
    ensures GroupsOf(a, groups, keys, rows + [row], col, func)
  {
    GroupsSnoc(rows, row, col);
    forall g ensures GroupAt(a, groups, rows + [row], col, func, g) {
      assert GroupAt(a, groups, rows, col, func, g);
      FilteredSnoc(rows, row, col, g);
      assert Filtered(rows, col, g) + [] == Filtered(rows, col, g);
    }
  }

  lemma GroupNext(a: Arith, groups: map<string, (nat, Float)>, keys: seq<string>, rows: seq<Row>, row: Row, col: nat,
                  func: AggregateFunc)
    requires GroupsOf(a, groups, keys, rows, col, func) && col < |row|
    ensures var g, own := row[col], Filtered(rows, col, row[col]);
            && (if g in groups then groups[g] == (|own|, SumOf(a, func, own)) else own == [])
            && var next := (|own + [row]|, SumOf(a, func, own + [row]));
               GroupsOf(a, groups[g := next], if g in groups then keys else keys + [g], rows + [row], col, func)
  {
    var own := Filtered(rows, col, row[col]);
    var next := (|own + [row]|, SumOf(a, func, own + [row]));
    GroupsSnoc(rows, row, col);
    GroupNonEmpty(rows, col, row[col]);
    assert GroupAt(a, groups, rows, col, func, row[col]);
    var more := groups[row[col] := next];
    forall g ensures GroupAt(a, more, rows + [row], col, func, g) {
      assert GroupAt(a, groups, rows, col, func, g);
      GroupAtStep(a, groups, rows, row, col, func, g, next);
    }
  }

  lemma GroupAtStep(a: Arith, groups: map<string, (nat, Float)>, rows: seq<Row>, row: Row, col: nat,
                    func: AggregateFunc, g: string, next: (nat, Float))
    requires col < |row| && GroupAt(a, groups, rows, col, func, g)
    requires var own := Filtered(rows, col, row[col]) + [row]; next == (|own|, SumOf(a, func, own))
    ensures GroupAt(a, groups[row[col] := next], rows + [row], col, func, g)
  {
    FilteredSnoc(rows, row, col, g);
    if g == row[col] {
      assert Filtered(rows + [row], col, g) == Filtered(rows, col, g) + [row];
    } else {
      assert Filtered(rows + [row], col, g) == Filtered(rows, col, g);
    }
  }

  /** The output loop of the grouped aggregate, with HAVING. */
  method EmitGroups(a: Arith, groups: map<string, (nat, Float)>, keys: seq<string>, col: nat, func: AggregateFunc,
                    having: Option<(string, string)>, ghost rows: seq<Row>)
    returns (result: seq<Row>)
    requires GroupsOf(a, groups, keys, rows, col, func)
    ensures result == Grouped(a, func, having, rows, col)
  {
    result := [];
    var i: nat := 0;
    while i < |keys|
      invariant i <= |keys| && result == GroupRows(a, func, having, rows, col, keys[..i])
    {
      var g := keys[i];
      EmitStep(a, groups, keys, col, func, having, rows, i);
      var (count, sum) := groups[g];
      var val := Text(a, func, count, sum, Filtered(rows, col, g));
      var passes := CheckHaving(a, having, val);
      if passes { result := result + [[g, val]]; }
      i := i + 1;
    }
    assert keys[..i] == keys;
  }

  /** The comparison of HAVING. */
  method CheckHaving(a: Arith, having: Option<(string, string)>, val: string) returns (passes: bool)
    ensures passes == Passes(a, having, val)
  {
    passes := true;
    if having.Some? {
      var (op, target) := having.value;
      var targetNum, aggNum := a.parse(target), a.parse(val);
      if targetNum.Some? && aggNum.Some? {
        var x, y := aggNum.value, targetNum.value;
        if op == ">=" {
          passes := a.atMost(y, x);
        } else if op == "<=" {
          passes := a.atMost(x, y);
        } else if op == ">" {
          passes := a.below(y, x);
        } else if op == "<" {
          passes := a.below(x, y);
        } else if op == "=" {
          passes := a.near(x, y);
        }
      }
    }
  }

  lemma EmitStep(a: Arith, groups: map<string, (nat, Float)>, keys: seq<string>, col: nat, func: AggregateFunc,
                 having: Option<(string, string)>, rows: seq<Row>, i: nat)
    requires GroupsOf(a, groups, keys, rows, col, func) && i < |keys|
    ensures keys[i] in groups
    ensures var own := Filtered(rows, col, keys[i]); groups[keys[i]] == (|own|, SumOf(a, func, own))
    ensures var val := AggregateOf(a, func, Filtered(rows, col, keys[i]));
            GroupRows(a, func, having, rows, col, keys[..i + 1]) ==
            GroupRows(a, func, having, rows, col, keys[..i]) + (if Passes(a, having, val) then [[keys[i], val]] else [])
  {
    var g := keys[i];
    assert keys[..i + 1] == keys[..i] + [g] && g in keys;
    GroupNonEmpty(rows, col, g);
    assert GroupAt(a, groups, rows, col, func, g);
    GroupRowsSnoc(a, func, having, rows, col, keys[..i], g);
  }

  /** The loop of LIMIT and OFFSET. */
  method Window(a: Arith, child: Plan, limit: Option<nat>, offset: nat) returns (c: Plan, result: seq<Row>)
    ensures SamePlan(a, child, c) && result == Limited(Remaining(a, child), limit, offset)
    decreases Height(child), 1
  {
    c, result := child, [];
    var skipped: nat, count: nat := 0, 0;
    ghost var seen: seq<Row> := [];
    while true
      invariant SamePlan(a, child, c) && seen + Remaining(a, c) == Remaining(a, child)
      invariant skipped == (if |seen| < offset then |seen| else offset) && count == |result|
      invariant result == From(seen, offset) && (limit.Some? ==> count <= limit.value)
      decreases |Remaining(a, c)|
    {
      var c', row := Next(a, c);
      c := c';
      if row.None? { break; }
      NextSeen(seen, row.value, Remaining(a, c));
      if skipped < offset {
        skipped, seen := skipped + 1, seen + [row.value];
        continue;
      }
      if limit.Some? && count >= limit.value {
        assert seen <= Remaining(a, child);
        LimitedBy(Remaining(a, child), seen, limit, offset);
        return;
      }
      result, count, seen := result + [row.value], count + 1, seen + [row.value];
    }
    assert seen + [] == seen;
    LimitedBy(Remaining(a, child), seen, limit, offset);
  }

  /** A plan run to its end gives the rows it stands for. For a plain aggregate this is one row: the number of rows of the
      child, the sum of the numbers in a column from the left, or that sum divided by the number of rows. For a grouped one
      it is such a row for each group, behind the name of the group. */
  method Run(a: Arith, p: Plan) returns (rows: seq<Row>)
    ensures rows == Denoted(a, p)
    ensures p.Aggregate? && p.func.Count? ==> rows == [[a.showCount(|Denoted(a, p.child)|)]]
    ensures p.Aggregate? && p.func.Sum? ==> rows == [[a.show(Total(a, Numbers(a, Denoted(a, p.child), p.func.col)))]]
    ensures p.Aggregate? && p.func.Avg? ==>
              var rs := Denoted(a, p.child);
              rows == [[if rs == [] then "0" else a.show(a.ratio(Total(a, Numbers(a, rs, p.func.col)), |rs|))]]
    ensures p.HashGroup? && p.having.None? ==>
              var rs := Denoted(a, p.child);
              var groups := Groups(rs, p.col);
              && |rows| == |groups| && forall i :: 0 <= i < |rows| ==>
                   var own := Filtered(rs, p.col, groups[i]);
                   && own != [] && (p.func.Count? ==> rows[i] == [groups[i], a.showCount(|own|)])
                   && (p.func.Sum? ==> rows[i] == [groups[i], a.show(Total(a, Numbers(a, own, p.func.col)))])
                   && (p.func.Avg? ==> rows[i] == [groups[i], a.show(a.ratio(Total(a, Numbers(a, own, p.func.col)), |own|))])
  {
    if p.HashGroup? {
      GroupedTexts(a, p.func, Denoted(a, p.child), p.col);
    }
    var q := Open(a, p);
    rows := [];
    while true
      invariant rows + Remaining(a, q) == Denoted(a, p)
      decreases |Remaining(a, q)|
    {
      var q', row := Next(a, q);
      if row.None? { break; }
      NextSeen(rows, row.value, Remaining(a, q'));
      q, rows := q', rows + [row.value];
    }
    assert rows + [] == rows;
  }
}
