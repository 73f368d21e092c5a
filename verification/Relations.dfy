/** What the query operators mean, on sequences of rows. Floating-point numbers are 64-bit patterns with uninterpreted
    operations. */
module Relations {
  import opened Common

  type Float = nat

  /** Parsing, arithmetic, printing and comparison of the query engine. */
  datatype Arith = Arith(
    parse: string -> Option<Float>,
    zero: Float,
    add: (Float, Float) -> Float,
    ratio: (Float, nat) -> Float,
    show: Float -> string,
    showCount: nat -> string,
    below: (Float, Float) -> bool,
    atMost: (Float, Float) -> bool,
    near: (Float, Float) -> bool)

  predicate HasValue(row: Row, col: nat, v: string) {
    col < |row| && row[col] == v
  }

  /** The rows that have a value in a column, in order. */
  ghost function Filtered(rows: seq<Row>, col: nat, v: string): seq<Row> {
    if rows == [] then []
    else
      var last := rows[|rows| - 1];
      Filtered(rows[..|rows| - 1], col, v) + (if HasValue(last, col, v) then [last] else [])
  }

  lemma FilteredSnoc(rows: seq<Row>, row: Row, col: nat, v: string)
    ensures Filtered(rows + [row], col, v) == Filtered(rows, col, v) + (if HasValue(row, col, v) then [row] else [])
  {
    assert (rows + [row])[..|rows|] == rows;
  }

  lemma {:induction false} FilteredCons(row: Row, rows: seq<Row>, col: nat, v: string)
    ensures Filtered([row] + rows, col, v) == (if HasValue(row, col, v) then [row] else []) + Filtered(rows, col, v)
  {
    if rows == [] {
      assert [row] + rows == [] + [row];
      FilteredSnoc([], row, col, v);
    } else {
      var init, last := rows[..|rows| - 1], rows[|rows| - 1];
      FilteredCons(row, init, col, v);
      assert [row] + rows == ([row] + init) + [last];
      FilteredSnoc([row] + init, last, col, v);
    }
  }

  // ---- Joins ----

  datatype JoinType = Inner | Left

  ghost function Nulls(n: nat): Row {
    seq(n, _ => "NULL")
  }

  ghost function Pairs(l: Row, matches: seq<Row>): (rows: seq<Row>)
    ensures |rows| == |matches|
  {
    seq(|matches|, i requires 0 <= i < |matches| => l + matches[i])
  }

  /** What one left row contributes to a join. */
  ghost function JoinRow(l: Row, right: seq<Row>, lk: nat, rk: nat, kind: JoinType, width: nat): seq<Row> {
    if lk >= |l| then []
    else
      var matches := Filtered(right, rk, l[lk]);
      if matches != [] then Pairs(l, matches) else if kind == Left then [l + Nulls(width)] else []
  }

  /** The nested-loop join: left rows in order, for each its right matches in order. */
  ghost function NestedLoop(left: seq<Row>, right: seq<Row>, lk: nat, rk: nat, kind: JoinType, width: nat): seq<Row> {
    if left == [] then []
    else NestedLoop(left[..|left| - 1], right, lk, rk, kind, width) + JoinRow(left[|left| - 1], right, lk, rk, kind, width)
  }

  lemma {:induction false} FilteredMembers(rows: seq<Row>, col: nat, v: string, row: Row)
    ensures row in Filtered(rows, col, v) <==> row in rows && HasValue(row, col, v)
  {
    if rows != [] {
      var init, last := rows[..|rows| - 1], rows[|rows| - 1];
      FilteredMembers(init, col, v, row);
      assert rows == init + [last];
    }
  }

  /** Left row `l` and right row `r` have the same key. */
  predicate KeysMeet(l: Row, r: Row, lk: nat, rk: nat) {
    lk < |l| && rk < |r| && l[lk] == r[rk]
  }

  lemma JoinRowMembers(l: Row, right: seq<Row>, lk: nat, rk: nat, width: nat, row: Row)
    ensures row in JoinRow(l, right, lk, rk, Inner, width) <==>
            exists r :: r in right && KeysMeet(l, r, lk, rk) && row == l + r
  {
    if lk < |l| {
      var matches := Filtered(right, rk, l[lk]);
      forall r ensures r in matches <==> r in right && KeysMeet(l, r, lk, rk) {
        FilteredMembers(right, rk, l[lk], r);
      }
      if row in Pairs(l, matches) {
        var i :| 0 <= i < |matches| && Pairs(l, matches)[i] == row;
        assert matches[i] in matches && row == l + matches[i];
      }
      if r :| r in right && KeysMeet(l, r, lk, rk) && row == l + r {
        var i :| 0 <= i < |matches| && matches[i] == r;
        assert Pairs(l, matches)[i] == row;
      }
    }
  }

  /** The rows of an inner join are the pairs of a left and a right row with the same key. */
  lemma {:induction false} InnerJoinMembers(left: seq<Row>, right: seq<Row>, lk: nat, rk: nat, width: nat, row: Row)
    ensures row in NestedLoop(left, right, lk, rk, Inner, width) <==>
            exists l, r :: l in left && r in right && KeysMeet(l, r, lk, rk) && row == l + r
  {
    if left != [] {
      var init, last := left[..|left| - 1], left[|left| - 1];
      InnerJoinMembers(init, right, lk, rk, width, row);
      JoinRowMembers(last, right, lk, rk, width, row);
      assert left == init + [last];
      assert forall l :: l in left <==> l in init || l == last;
    }
  }

  /** Where the rows of a join come from: for each a left row and, unless it is padded, a right row. */
  datatype Origin = Origin(left: nat, right: Option<nat>)

  /** Row `row` is made of those rows: both have the same key, or the left one has a key that no right row has and is
      padded with NULL. */
  ghost predicate MadeOf(left: seq<Row>, right: seq<Row>, lk: nat, rk: nat, kind: JoinType, width: nat, o: Origin, row: Row) {
    && o.left < |left|
    && if o.right.Some? then
         o.right.value < |right| && KeysMeet(left[o.left], right[o.right.value], lk, rk) &&
         row == left[o.left] + right[o.right.value]
       else
         && kind == Left && lk < |left[o.left]| && Unmatched(left[o.left], right, lk, rk)
         && |row| == |left[o.left]| + width && row[..|left[o.left]|] == left[o.left]
         && forall c :: |left[o.left]| <= c < |row| ==> row[c] == "NULL"
  }

  ghost predicate Unmatched(l: Row, right: seq<Row>, lk: nat, rk: nat) {
    forall j :: 0 <= j < |right| ==> !KeysMeet(l, right[j], lk, rk)
  }

  /** Left rows in order, and for each its right rows in order. */
  ghost predicate Follows(o: Origin, p: Origin) {
    o.left < p.left || (o.left == p.left && o.right.Some? && p.right.Some? && o.right.value < p.right.value)
  }

  ghost predicate AllMade(left: seq<Row>, right: seq<Row>, lk: nat, rk: nat, kind: JoinType, width: nat, rows: seq<Row>,
                          os: seq<Origin>) {
    |os| == |rows| && forall n :: 0 <= n < |rows| ==> MadeOf(left, right, lk, rk, kind, width, os[n], rows[n])
  }

  ghost predicate InTurn(os: seq<Origin>) {
    forall m, n :: 0 <= m < n < |os| ==> Follows(os[m], os[n])
  }

  /** All that left row `i` contributes is there. */
  ghost predicate Complete(left: seq<Row>, i: nat, right: seq<Row>, lk: nat, rk: nat, kind: JoinType, os: seq<Origin>)
    requires i < |left|
  {
    && (forall j :: 0 <= j < |right| && KeysMeet(left[i], right[j], lk, rk) ==> Origin(i, Some(j)) in os)
    && (kind == Left && lk < |left[i]| && Unmatched(left[i], right, lk, rk) ==> Origin(i, None) in os)
  }

  ghost predicate Origins(left: seq<Row>, right: seq<Row>, lk: nat, rk: nat, kind: JoinType, width: nat, rows: seq<Row>,
                          os: seq<Origin>) {
    && AllMade(left, right, lk, rk, kind, width, rows, os) && InTurn(os)
    && forall i :: 0 <= i < |left| ==> Complete(left, i, right, lk, rk, kind, os)
  }

  /** Where the rows of a filter come from, in order. */
  lemma {:induction false} FilteredAt(rows: seq<Row>, col: nat, v: string) returns (at: seq<nat>)
    ensures |at| == |Filtered(rows, col, v)|
    ensures forall n :: 0 <= n < |at| ==> at[n] < |rows| && Filtered(rows, col, v)[n] == rows[at[n]]
    ensures forall m, n :: 0 <= m < n < |at| ==> at[m] < at[n]
    ensures forall j :: 0 <= j < |rows| ==> (j in at <==> HasValue(rows[j], col, v))
  {
    if rows == [] {
      at := [];
    } else {
      var last := |rows| - 1;
      var before := FilteredAt(rows[..last], col, v);
      at := before + (if HasValue(rows[last], col, v) then [last] else []);
    }
  }

  /** The origins of the rows that one left row contributes. */
  lemma RowOrigins(left: seq<Row>, i: nat, right: seq<Row>, lk: nat, rk: nat, kind: JoinType, width: nat)
    returns (os: seq<Origin>)
    requires i < |left|
    ensures AllMade(left, right, lk, rk, kind, width, JoinRow(left[i], right, lk, rk, kind, width), os)
    ensures InTurn(os) && Complete(left, i, right, lk, rk, kind, os) && forall n :: 0 <= n < |os| ==> os[n].left == i
  {
    os := [];
    if lk < |left[i]| {
      if Filtered(right, rk, left[i][lk]) != [] {
        os := MatchOrigins(left, i, right, lk, rk, kind, width);
      } else {
        NoMatch(left[i], right, lk, rk);
        if kind == Left {
          os := [Origin(i, None)];
        }
      }
    }
  }

  lemma NoMatch(l: Row, right: seq<Row>, lk: nat, rk: nat)
    requires lk < |l| && Filtered(right, rk, l[lk]) == []
    ensures Unmatched(l, right, lk, rk)
  {
    var at := FilteredAt(right, rk, l[lk]);
    forall j | 0 <= j < |right| ensures !KeysMeet(l, right[j], lk, rk) {
      assert j !in at;
    }
  }

  lemma MatchOrigins(left: seq<Row>, i: nat, right: seq<Row>, lk: nat, rk: nat, kind: JoinType, width: nat)
    returns (os: seq<Origin>)
    requires i < |left| && lk < |left[i]| && Filtered(right, rk, left[i][lk]) != []
    ensures AllMade(left, right, lk, rk, kind, width, JoinRow(left[i], right, lk, rk, kind, width), os)
    ensures InTurn(os) && Complete(left, i, right, lk, rk, kind, os) && forall n :: 0 <= n < |os| ==> os[n].left == i
  {
    var at := FilteredAt(right, rk, left[i][lk]);
    os := seq(|at|, n requires 0 <= n < |at| => Origin(i, Some(at[n])));
    forall n | 0 <= n < |at| ensures KeysMeet(left[i], right[at[n]], lk, rk) {
      assert at[n] in at;
    }
    forall j | 0 <= j < |right| && KeysMeet(left[i], right[j], lk, rk) ensures Origin(i, Some(j)) in os {
      var n :| 0 <= n < |at| && at[n] == j;
      assert os[n] == Origin(i, Some(j));
    }
    assert !Unmatched(left[i], right, lk, rk) by {
      assert KeysMeet(left[i], right[at[0]], lk, rk);
    }
  }

  /** A join gives, in order, exactly the pairs of a left and a right row with the same key and, if it is a LEFT join, the
      left rows whose key no right row has, padded. */
  lemma {:induction false} JoinOrigins(left: seq<Row>, right: seq<Row>, lk: nat, rk: nat, kind: JoinType, width: nat)
    returns (os: seq<Origin>)
    ensures Origins(left, right, lk, rk, kind, width, NestedLoop(left, right, lk, rk, kind, width), os)
  {
    if left == [] {
      os := [];
    } else {
      var last := |left| - 1;
      var init := NestedLoop(left[..last], right, lk, rk, kind, width);
      var before := JoinOrigins(left[..last], right, lk, rk, kind, width);
      var own := RowOrigins(left, last, right, lk, rk, kind, width);
      os := before + own;
      LongerLeft(left, last, right, lk, rk, kind, width, init, before);
      MadeBoth(left, right, lk, rk, kind, width, init, JoinRow(left[last], right, lk, rk, kind, width), before, own);
      TurnBoth(before, own, last);
      forall i | 0 <= i < |left| ensures Complete(left, i, right, lk, rk, kind, os) {
        CompleteMore(left, i, right, lk, rk, kind, before, own);
      }
    }
  }

  lemma MadeBoth(left: seq<Row>, right: seq<Row>, lk: nat, rk: nat, kind: JoinType, width: nat, rows: seq<Row>,
                 more: seq<Row>, os: seq<Origin>, ps: seq<Origin>)
    requires AllMade(left, right, lk, rk, kind, width, rows, os) && AllMade(left, right, lk, rk, kind, width, more, ps)
    ensures AllMade(left, right, lk, rk, kind, width, rows + more, os + ps)
  {
    forall n | 0 <= n < |rows + more| ensures MadeOf(left, right, lk, rk, kind, width, (os + ps)[n], (rows + more)[n]) {
      if n < |rows| {
        assert (os + ps)[n] == os[n] && (rows + more)[n] == rows[n];
      } else {
        assert (os + ps)[n] == ps[n - |os|] && (rows + more)[n] == more[n - |rows|];
      }
    }
  }

  lemma TurnBoth(os: seq<Origin>, ps: seq<Origin>, last: nat)
    requires InTurn(os) && InTurn(ps)
    requires (forall n :: 0 <= n < |os| ==> os[n].left < last) && forall n :: 0 <= n < |ps| ==> ps[n].left == last
    ensures InTurn(os + ps)
  {
    forall m, n | 0 <= m < n < |os + ps| ensures Follows((os + ps)[m], (os + ps)[n]) {
      assert (os + ps)[n] == if n < |os| then os[n] else ps[n - |os|];
      assert (os + ps)[m] == if m < |os| then os[m] else ps[m - |os|];
    }
  }

  lemma CompleteMore(left: seq<Row>, i: nat, right: seq<Row>, lk: nat, rk: nat, kind: JoinType, os: seq<Origin>,
                     ps: seq<Origin>)
    requires i < |left|
    requires Complete(left, i, right, lk, rk, kind, os) || Complete(left, i, right, lk, rk, kind, ps)
    ensures Complete(left, i, right, lk, rk, kind, os + ps)
  {
  }

  lemma LongerLeft(left: seq<Row>, last: nat, right: seq<Row>, lk: nat, rk: nat, kind: JoinType, width: nat,
                   rows: seq<Row>, os: seq<Origin>)
    requires last <= |left| && Origins(left[..last], right, lk, rk, kind, width, rows, os)
    ensures AllMade(left, right, lk, rk, kind, width, rows, os) && forall n :: 0 <= n < |os| ==> os[n].left < last
    ensures forall i :: 0 <= i < last ==> Complete(left, i, right, lk, rk, kind, os)
  {
    forall n | 0 <= n < |rows| ensures MadeOf(left, right, lk, rk, kind, width, os[n], rows[n]) && os[n].left < last {
      assert MadeOf(left[..last], right, lk, rk, kind, width, os[n], rows[n]);
      assert left[..last][os[n].left] == left[os[n].left];
    }
    forall i | 0 <= i < last ensures Complete(left, i, right, lk, rk, kind, os) {
      assert Complete(left[..last], i, right, lk, rk, kind, os) && left[..last][i] == left[i];
    }
  }

  // ---- Aggregates ----

  datatype AggregateFunc = Count | Sum(col: nat) | Avg(col: nat)

  /** The numbers in a column, in row order; what is not a number is passed over. */
  ghost function Numbers(a: Arith, rows: seq<Row>, col: nat): seq<Float> {
    if rows == [] then []
    else
      var last := rows[|rows| - 1];
      Numbers(a, rows[..|rows| - 1], col) +
      (if col < |last| && a.parse(last[col]).Some? then [a.parse(last[col]).value] else [])
  }

  /** Adding up numbers from the left. */
  ghost function Total(a: Arith, numbers: seq<Float>): Float {
    if numbers == [] then a.zero else a.add(Total(a, numbers[..|numbers| - 1]), numbers[|numbers| - 1])
  }

  lemma TotalSnoc(a: Arith, numbers: seq<Float>, n: Float)
    ensures Total(a, numbers + [n]) == a.add(Total(a, numbers), n)
  {
    assert (numbers + [n])[..|numbers|] == numbers;
  }

  lemma NumbersSnoc(a: Arith, rows: seq<Row>, row: Row, col: nat)
    ensures Numbers(a, rows + [row], col) ==
            Numbers(a, rows, col) + (if col < |row| && a.parse(row[col]).Some? then [a.parse(row[col]).value] else [])
  {
    assert (rows + [row])[..|rows|] == rows;
  }

  /** What an aggregate adds up: the numbers in its column, nothing for COUNT. */
  ghost function SumOf(a: Arith, func: AggregateFunc, rows: seq<Row>): Float {
    if func.Count? then a.zero else Total(a, Numbers(a, rows, func.col))
  }

  /** The aggregate of some rows: their number, the sum of the numbers in a column, or that divided by the number of rows. */
  ghost function AggregateOf(a: Arith, func: AggregateFunc, rows: seq<Row>): string {
    match func
    case Count => a.showCount(|rows|)
    case Sum(col) => a.show(Total(a, Numbers(a, rows, col)))
    case Avg(col) => if rows == [] then "0" else a.show(a.ratio(Total(a, Numbers(a, rows, col)), |rows|))
  }

  /** The sum after one more row. */
  lemma SumSnoc(a: Arith, func: AggregateFunc, rows: seq<Row>, row: Row)
    ensures SumOf(a, func, rows + [row]) ==
            var sum := SumOf(a, func, rows);
            if func.Count? || func.col >= |row| || a.parse(row[func.col]).None? then sum
            else a.add(sum, a.parse(row[func.col]).value)
  {
    if !func.Count? {
      NumbersSnoc(a, rows, row, func.col);
      var numbers := Numbers(a, rows, func.col);
      if func.col < |row| && a.parse(row[func.col]).Some? {
        TotalSnoc(a, numbers, a.parse(row[func.col]).value);
      } else {
        assert numbers + [] == numbers;
      }
    }
  }

  // ---- Groups ----

  /** The values of a column, each once, in the order of their first appearance. */
  ghost function Groups(rows: seq<Row>, col: nat): seq<string> {
    if rows == [] then []
    else
      var gs, last := Groups(rows[..|rows| - 1], col), rows[|rows| - 1];
      if col < |last| && last[col] !in gs then gs + [last[col]] else gs
  }

  lemma GroupsSnoc(rows: seq<Row>, row: Row, col: nat)
    ensures Groups(rows + [row], col) ==
            if col < |row| && row[col] !in Groups(rows, col) then Groups(rows, col) + [row[col]] else Groups(rows, col)
  {
    assert (rows + [row])[..|rows|] == rows;
  }

  /** A group has rows exactly if it is among the groups. */
  lemma {:induction false} GroupNonEmpty(rows: seq<Row>, col: nat, g: string)
    ensures g in Groups(rows, col) <==> Filtered(rows, col, g) != []
  {
    if rows != [] {
      GroupNonEmpty(rows[..|rows| - 1], col, g);
    }
  }

  lemma {:induction false} GroupsDistinct(rows: seq<Row>, col: nat)
    ensures Distinct(Groups(rows, col))
  {
    if rows != [] {
      GroupsDistinct(rows[..|rows| - 1], col);
    }
  }

  /** HAVING `val` op `target` compares numbers; what is not a number passes, and so does an unknown comparison. */
  ghost predicate Passes(a: Arith, having: Option<(string, string)>, val: string) {
    having.Some? && a.parse(val).Some? && a.parse(having.value.1).Some? ==>
      var op, x, y := having.value.0, a.parse(val).value, a.parse(having.value.1).value;
      && (op == ">" ==> a.below(y, x)) && (op == ">=" ==> a.atMost(y, x))
      && (op == "<" ==> a.below(x, y)) && (op == "<=" ==> a.atMost(x, y))
      && (op == "=" ==> a.near(x, y))
  }

  /** The aggregate of each group on its own, in order, as far as it passes HAVING. */
  ghost function GroupRows(a: Arith, func: AggregateFunc, having: Option<(string, string)>, rows: seq<Row>, col: nat,
                           groups: seq<string>): seq<Row> {
    if groups == [] then []
    else
      var g := groups[|groups| - 1];
      var val := AggregateOf(a, func, Filtered(rows, col, g));
      GroupRows(a, func, having, rows, col, groups[..|groups| - 1]) + (if Passes(a, having, val) then [[g, val]] else [])
  }

  lemma GroupRowsSnoc(a: Arith, func: AggregateFunc, having: Option<(string, string)>, rows: seq<Row>, col: nat,
                      groups: seq<string>, g: string)
    ensures var val := AggregateOf(a, func, Filtered(rows, col, g));
            GroupRows(a, func, having, rows, col, groups + [g]) ==
            GroupRows(a, func, having, rows, col, groups) + (if Passes(a, having, val) then [[g, val]] else [])
  {
    assert (groups + [g])[..|groups|] == groups;
  }

  ghost function Grouped(a: Arith, func: AggregateFunc, having: Option<(string, string)>, rows: seq<Row>, col: nat): seq<Row> {
    GroupRows(a, func, having, rows, col, Groups(rows, col))
  }

  /** Rows of group and value whose value passes HAVING. */
  ghost function Passing(a: Arith, having: Option<(string, string)>, rows: seq<Row>): seq<Row>
    requires forall i :: 0 <= i < |rows| ==> |rows[i]| == 2
  {
    if rows == [] then []
    else
      Passing(a, having, rows[..|rows| - 1]) + (if Passes(a, having, rows[|rows| - 1][1]) then [rows[|rows| - 1]] else [])
  }

  /** Without HAVING there is one row for each group, with the plain aggregate of the rows filtered to it. */
  lemma {:induction false} GroupedIsPlain(a: Arith, func: AggregateFunc, rows: seq<Row>, col: nat, groups: seq<string>)
    ensures |GroupRows(a, func, None, rows, col, groups)| == |groups|
    ensures forall i :: 0 <= i < |groups| ==>
              GroupRows(a, func, None, rows, col, groups)[i] == [groups[i], AggregateOf(a, func, Filtered(rows, col, groups[i]))]
  {
    if groups != [] {
      var init, g := groups[..|groups| - 1], groups[|groups| - 1];
      assert groups == init + [g];
      GroupedIsPlain(a, func, rows, col, init);
      GroupRowsSnoc(a, func, None, rows, col, init, g);
    }
  }

  lemma GroupedTexts(a: Arith, func: AggregateFunc, rows: seq<Row>, col: nat)
    ensures var groups, result := Groups(rows, col), Grouped(a, func, None, rows, col);
            && |result| == |groups|
            && forall i {:trigger groups[i]} {:trigger result[i]} :: 0 <= i < |groups| ==>
                 Filtered(rows, col, groups[i]) != [] &&
                 result[i] == [groups[i], AggregateOf(a, func, Filtered(rows, col, groups[i]))]
  {
    var groups := Groups(rows, col);
    GroupedIsPlain(a, func, rows, col, groups);
    forall i | 0 <= i < |groups| ensures Filtered(rows, col, groups[i]) != [] {
      GroupNonEmpty(rows, col, groups[i]);
    }
  }

  /** HAVING filters the rows of the groups. */
  lemma {:induction false} HavingFilters(a: Arith, func: AggregateFunc, having: Option<(string, string)>,
                                         rows: seq<Row>, col: nat, groups: seq<string>)
    ensures forall i :: 0 <= i < |GroupRows(a, func, None, rows, col, groups)| ==>
              |GroupRows(a, func, None, rows, col, groups)[i]| == 2
    ensures GroupRows(a, func, having, rows, col, groups) ==
            Passing(a, having, GroupRows(a, func, None, rows, col, groups))
  {
    GroupedIsPlain(a, func, rows, col, groups);
    if groups != [] {
      var init, g := groups[..|groups| - 1], groups[|groups| - 1];
      assert groups == init + [g];
      HavingFilters(a, func, having, rows, col, init);
      GroupRowsSnoc(a, func, None, rows, col, init, g);
      GroupRowsSnoc(a, func, having, rows, col, init, g);
      PassingSnoc(a, having, GroupRows(a, func, None, rows, col, init), [g, AggregateOf(a, func, Filtered(rows, col, g))]);
    }
  }

  lemma PassingSnoc(a: Arith, having: Option<(string, string)>, rows: seq<Row>, row: Row)
    requires |row| == 2 && forall i :: 0 <= i < |rows| ==> |rows[i]| == 2
    ensures Passing(a, having, rows + [row]) ==
            Passing(a, having, rows) + (if Passes(a, having, row[1]) then [row] else [])
  {
    assert (rows + [row])[..|rows|] == rows;
  }

  // ---- The groups partition the rows ----

  /** The number of rows in the given groups. */
  ghost function Counted(rows: seq<Row>, col: nat, groups: seq<string>): nat {
    if groups == [] then 0
    else Counted(rows, col, groups[..|groups| - 1]) + |Filtered(rows, col, groups[|groups| - 1])|
  }

  /** The number of rows that have the column. */
  ghost function WithColumn(rows: seq<Row>, col: nat): nat {
    if rows == [] then 0 else WithColumn(rows[..|rows| - 1], col) + (if col < |rows[|rows| - 1]| then 1 else 0)
  }

  /** A row counts in its own group only. */
  lemma {:induction false} CountedSnoc(rows: seq<Row>, row: Row, col: nat, groups: seq<string>)
    requires Distinct(groups)
    ensures Counted(rows + [row], col, groups) ==
            Counted(rows, col, groups) + (if col < |row| && row[col] in groups then 1 else 0)
  {
    if groups != [] {
      var init, g := groups[..|groups| - 1], groups[|groups| - 1];
      CountedSnoc(rows, row, col, init);
      FilteredSnoc(rows, row, col, g);
      assert groups == init + [g];
    }
  }

  lemma CountedNew(rows: seq<Row>, col: nat, groups: seq<string>, g: string)
    ensures Counted(rows, col, groups + [g]) == Counted(rows, col, groups) + |Filtered(rows, col, g)|
  {
    assert (groups + [g])[..|groups|] == groups;
  }

  /** The counts of all groups add up to the number of rows that have the group column. */
  lemma {:induction false} GroupCountsAddUp(rows: seq<Row>, col: nat)
    ensures Counted(rows, col, Groups(rows, col)) == WithColumn(rows, col)
  {
    if rows != [] {
      var init, last := rows[..|rows| - 1], rows[|rows| - 1];
      var gs := Groups(init, col);
      assert rows == init + [last];
      GroupCountsAddUp(init, col);
      GroupsDistinct(init, col);
      CountedSnoc(init, last, col, gs);
      GroupsSnoc(init, last, col);
      if col < |last| && last[col] !in gs {
        CountedNew(rows, col, gs, last[col]);
        GroupNonEmpty(init, col, last[col]);
        FilteredSnoc(init, last, col, last[col]);
      }
    }
  }

  // ---- LIMIT ----

  /** What OFFSET and LIMIT leave of all rows, given the rows after the offset read so far. */
  lemma LimitedBy(all: seq<Row>, seen: seq<Row>, limit: Option<nat>, offset: nat)
    requires seen <= all && (limit.Some? ==> |seen| <= offset || |seen| - offset <= limit.value)
    requires seen == all || (limit.Some? && |seen| >= offset && |seen| - offset == limit.value)
    ensures Limited(all, limit, offset) == if offset < |seen| then seen[offset..] else []
  {
    assert offset < |seen| ==> all[offset..][..|seen| - offset] == seen[offset..];
  }

  ghost function Limited(rows: seq<Row>, limit: Option<nat>, offset: nat): seq<Row> {
    var rest := if offset < |rows| then rows[offset..] else [];
    if limit.Some? && limit.value < |rest| then rest[..limit.value] else rest
  }
}
