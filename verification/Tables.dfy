/** Statements on one table with single-column indexes, outside transactions. */
module Tables {
  import opened Common
  import opened Bytes
  import opened Text
  import opened SecondaryIndex

  /** Of the last two, `Refused` is a put or delete that the database did not carry out for want of room, and `Misread`
      is the read of an index entry that looks like an overflow handle; what the statement does then is not followed. */
  datatype SqlError =
    | CountMismatch | KeyExists | KeyTooLong | UniqueViolation | EntryTooLong | NoSuchColumn | IndexExists
    | Refused | Misread
  {
    /** Found when the row is stored and the indexes are being changed. */
    predicate Late() { UniqueViolation? || EntryTooLong? }

    /** Due to the state of the database. */
    predicate Outside() { Refused? || Misread? }
  }

  /** WHERE column = value. */
  datatype Condition = Equals(column: string, val: string)

  /** The database key of a row. */
  function RowKey(table: string, pk: string): string {
    table + ":" + pk
  }

  /** The database key that an index is registered under. */
  function MetaKey(table: string, index: string): string {
    "__index__:" + table + ":" + index
  }

  /** The name of the index that CREATE TABLE makes for a UNIQUE column. */
  function ImplicitName(table: string, c: string): string {
    "idx_" + table + "_" + c
  }

  predicate NamesFit(table: string, declared: set<string>) {
    forall c :: c in declared ==> KeyFits(MetaKey(table, ImplicitName(table, c)))
  }

  predicate Selected(columns: seq<string>, where: Option<Condition>, row: Row)
    requires |row| == |columns| && (where.Some? ==> where.value.column in columns)
  {
    where.Some? ==> row[Position(columns, where.value.column)] == where.value.val
  }

  ghost predicate RowsOk(rows: map<string, Row>, columns: seq<string>) {
    columns != [] && forall pk {:trigger rows[pk]} :: pk in rows ==> |rows[pk]| == |columns|
  }

  ghost predicate RowsFit(table: string, rows: map<string, Row>) {
    forall pk {:trigger rows[pk]} :: pk in rows ==> KeyFits(RowKey(table, pk))
  }

  ghost predicate EntriesFit(table: string, es: Entries) {
    forall key {:trigger key in es} :: key in es ==> KeyFits(EntryKey(table, key.0, key.1))
  }

  /** UNIQUE columns have an index, and the column of every index can be read. */
  ghost predicate IndexesOk(columns: seq<string>, declared: set<string>, indexes: map<string, string>) {
    && (forall c :: c in declared && c in columns ==> c in indexes.Values)
    && (forall name {:trigger indexes[name]} :: name in indexes ==> !LooksLikeHandle(indexes[name]))
  }

  /** Every row is stored under its first value. */
  ghost predicate KeysMatch(rows: map<string, Row>) {
    forall pk {:trigger rows[pk]} :: pk in rows ==> rows[pk] != [] && rows[pk][0] == pk
  }

  /** No key contains the separator. */
  ghost predicate PlainKeys(rows: map<string, Row>) {
    forall pk {:trigger rows[pk]} :: pk in rows ==> SEP !in pk
  }

  /** No key begins like an overflow handle. */
  ghost predicate NoMagic(rows: map<string, Row>) {
    forall pk {:trigger rows[pk]} :: pk in rows ==> !("OVRF" <= pk)
  }

  /** The keys of the selected rows. */
  ghost function SelectedKeys(rows: map<string, Row>, columns: seq<string>, where: Option<Condition>): set<string>
    requires RowsOk(rows, columns) && (where.Some? ==> where.value.column in columns)
  {
    set pk | pk in rows && Selected(columns, where, rows[pk])
  }

  /** The rows with column `ci` set to `val` for the given keys. */
  ghost function Updated(rows: map<string, Row>, ci: nat, val: string, keys: set<string>): map<string, Row>
    requires forall pk :: pk in rows ==> ci < |rows[pk]|
  {
    map pk | pk in rows :: if pk in keys then rows[pk][ci := val] else rows[pk]
  }

  /** The order of keys in the database. */
  predicate Before(p: string, q: string) {
    Less(Utf8(p), Utf8(q))
  }

  ghost function AsBytes(pks: seq<string>): seq<bytes> {
    seq(|pks|, i requires 0 <= i < |pks| => Utf8(pks[i]))
  }

  ghost predicate InOrder(pks: seq<string>) {
    forall i, j :: 0 <= i < j < |pks| ==> Before(pks[i], pks[j])
  }

  /** The keys in `keys`, in order. */
  ghost predicate Lists(pks: seq<string>, keys: set<string>) {
    InOrder(pks) && Distinct(pks) && forall pk :: pk in pks <==> pk in keys
  }

  /** INSERT refuses a row if it repeats a UNIQUE value, or seems to because its key contains the separator and a UNIQUE
      column has two indexes. */
  ghost predicate Clashes(rows: map<string, Row>, columns: seq<string>, declared: set<string>,
                          indexes: map<string, string>, row: Row)
    requires |row| == |columns| && row != []
  {
    || Repeats(rows, columns, Checked(columns, declared, indexes.Values), row)
    || (SEP in row[0] && TwiceIndexed(indexes, columns, Checked(columns, declared, indexes.Values)))
  }

  /** The entries for a new row can be read and list it. */
  ghost predicate KeepsOrder(es: Entries, columns: seq<string>, indexed: set<string>, row: Row)
    requires |row| == |columns| && row != []
  {
    if SEP in row[0] then !AnyIndexed(columns, indexed)
    else Readable(EntriesWith(es, RowEntries(columns, indexed, row), row[0]))
  }

  /** Whether the database carries out a change. It does if it is not `full`; `Engine.Perform` says when it does not. */
  method CarriedOut(full: bool) returns (ok: bool)
    ensures ok || full
  {
    ok := *;
    if !full { ok := true; }
  }

  class Table {
    const name: string
    const columns: seq<string>
    /** The columns declared UNIQUE. */
    const declared: set<string>
    var rows: map<string, Row>
    /** The indexed column by index name. */
    var indexes: map<string, string>
    var entries: Entries

    /** The indexes agree with the rows and can be read, UNIQUE columns have an index and no repeated value, and rows are
        stored under their keys. */
    ghost predicate Valid()
      reads this
    {
      Consistent() && KeysMatch(rows)
    }

    ghost predicate Consistent()
      reads this
    {
      Sound() && Readable(entries)
    }

    ghost predicate Sound()
      reads this
    {
      && RowsOk(rows, columns) && RowsFit(name, rows)
      && IndexesOk(columns, declared, indexes)
      && EntriesFit(name, entries)
      && Agrees(rows, columns, indexes.Values, entries)
      && UniqueHeld(rows, columns, Enforced(columns, declared))
    }

    /** A statement is stopped by the database being full, or by an entry that looks like a handle, of which there is none
        unless a key of the rows it began with begins like one. */
    ghost predicate Blocked(error: SqlError, before: map<string, Row>, full: bool)
      reads this
    {
      match error
      case Refused => full
      case Misread => !Readable(entries) && !NoMagic(before)
      case _ => false
    }

    /** CREATE TABLE makes an index for every UNIQUE column. */
    constructor (name: string, columns: seq<string>, declared: set<string>)
      requires columns != [] && NamesFit(name, declared)
      ensures this.name == name && this.columns == columns && this.declared == declared && rows == map[]
      ensures IsImplicit(name, declared, indexes) && indexes.Values == declared && entries == map[]
      ensures Valid() <==> forall c :: c in declared ==> !LooksLikeHandle(c)
    {
      this.name, this.columns, this.declared := name, columns, declared;
      var made := ImplicitIndexes(name, declared);
      rows, indexes, entries := map[], made, map[];
    }

    /** `sync_secondary_indexes_on_insert`. It fails if a UNIQUE value is taken, or seems to be, or if an entry key is too
        long; then some index lacks the row. */
    method AddToIndexes(row: Row, ghost before: map<string, Row>, full: bool) returns (r: Result<(), SqlError>)
      requires row != [] && |row| == |columns| && row[0] !in before
      requires Agrees(before, columns, indexes.Values, entries) && Readable(entries)
      modifies `entries
      ensures r.Ok? ==> !Clashes(before, columns, declared, indexes, row)
      ensures r.Ok? ==> !TooLong(name, columns, indexes.Values, row)
      ensures r.Ok? && SEP !in row[0] ==>
                entries == EntriesWith(old(entries), RowEntries(columns, indexes.Values, row), row[0])
      ensures r.Ok? && SEP in row[0] && !AnyIndexed(columns, indexes.Values) ==> entries == old(entries)
      ensures r.Ok? && SEP in row[0] && AnyIndexed(columns, indexes.Values) ==>
                !Agrees(before[row[0] := row], columns, indexes.Values, entries)
      ensures r.Err? ==> Failed(r.error, row, before, full)
      ensures r == Err(Misread) ==> !KeepsOrder(old(entries), columns, indexes.Values, row)
    {
      if SEP !in row[0] {
        r := AddPlain(row, before, full);
      } else {
        r := AddSpoiling(row, before, full);
        if AnyIndexed(columns, indexes.Values) {
          ghost var c :| c in indexes.Values && c in columns;
          SeparatorDisagrees(before[row[0] := row], entries, c, Position(columns, c), row[0]);
        }
      }
      if r.Ok? {
        NoneFound(name, before, columns, declared, indexes, row);
      }
    }

    /** Why it fails, and that it leaves an index out of step if the cause is in the row. */
    ghost predicate Failed(error: SqlError, row: Row, before: map<string, Row>, full: bool)
      requires row != [] && |row| == |columns|
      reads this
    {
      match error
      case UniqueViolation =>
        && Clashes(before, columns, declared, indexes, row)
        && !Agrees(before[row[0] := row], columns, indexes.Values, entries)
      case EntryTooLong =>
        && TooLong(name, columns, indexes.Values, row)
        && !Agrees(before[row[0] := row], columns, indexes.Values, entries)
      case Refused => full
      case Misread => !Readable(entries) && TwiceIndexed(indexes, columns, indexes.Values)
      case _ => false
    }

    /** `sec_idx_add`. */
    method AddEntry(c: string, v: string, pk: string, unique: bool, full: bool) returns (r: Result<(), SqlError>)
      modifies `entries
      ensures r == Err(Misread) <==> (c, v) in old(entries) && LooksLikeHandle(old(entries)[(c, v)])
      ensures var added := Added(name, old(entries), c, v, pk, unique);
              && (r == Err(UniqueViolation) ==> added == ValueTaken)
              && (r == Err(EntryTooLong) ==> added == Oversize)
              && (r.Ok? ==> added == Stored(entries))
      ensures r.Err? ==> entries == old(entries) && (r.error.Late() || r.error.Outside())
      ensures r == Err(Refused) ==> full
    {
      if (c, v) in entries && LooksLikeHandle(entries[(c, v)]) { return Err(Misread); }
      match Added(name, entries, c, v, pk, unique)
      case ValueTaken =>
        return Err(UniqueViolation);
      case Oversize =>
        return Err(EntryTooLong);
      case Stored(es) =>
        var ok := CarriedOut(full);
        if !ok { return Err(Refused); }
        entries := es;
        return Ok(());
    }

    /** One round of the loop over the indexes. */
    method AddNext(n: string, row: Row, ghost before: map<string, Row>, ghost start: Entries, ghost names: set<string>,
                   ghost done: set<string>, full: bool) returns (r: Result<(), SqlError>)
      requires row != [] && |row| == |columns| && SEP !in row[0] && row[0] !in before
      requires Agrees(before, columns, indexes.Values, start) && Readable(start)
      requires n in indexes && n !in names && indexes[n] in columns && done <= indexes.Values && Met(indexes, names, done)
      requires entries == EntriesWith(start, RowEntries(columns, done, row), row[0])
      requires AddedSoFar(name, before, columns, declared, done, row)
      modifies `entries
      ensures r.Ok? ==> entries == EntriesWith(start, RowEntries(columns, done + {indexes[n]}, row), row[0])
      ensures r.Ok? ==> AddedSoFar(name, before, columns, declared, done + {indexes[n]}, row)
      ensures r.Err? ==> Failed(r.error, row, before, full)
      ensures r == Err(Misread) ==> !Readable(EntriesWith(start, RowEntries(columns, indexes.Values, row), row[0]))
    {
      var c := indexes[n];
      var v, unique := row[Position(columns, c)], TakenForUnique(columns, declared, c);
      r := AddEntry(c, v, row[0], unique, full);
      if r.Ok? {
        AddedNext(name, before, columns, declared, indexes.Values, start, done, c, row);
      } else if r == Err(Misread) {
        MisreadAgain(columns, indexes, start, names, done, n, row);
      } else {
        NotAdded(name, before, columns, declared, indexes, start, done, c, row);
      }
    }

    /** The loop over the indexes, for a key without the separator. */
    method AddPlain(row: Row, ghost before: map<string, Row>, full: bool) returns (r: Result<(), SqlError>)
      requires row != [] && |row| == |columns| && SEP !in row[0] && row[0] !in before
      requires Agrees(before, columns, indexes.Values, entries) && Readable(entries)
      modifies `entries
      ensures r.Ok? ==> AddedSoFar(name, before, columns, declared, indexes.Values, row)
      ensures r.Ok? ==> entries == EntriesWith(old(entries), RowEntries(columns, indexes.Values, row), row[0])
      ensures r.Err? ==> Failed(r.error, row, before, full)
      ensures r == Err(Misread) ==>
                !Readable(EntriesWith(old(entries), RowEntries(columns, indexes.Values, row), row[0]))
    {
      var pk, todo := row[0], indexes.Keys;
      ghost var done: set<string> := {};
      WithNone(entries, pk);
      assert RowEntries(columns, done, row) == {};
      while todo != {}
        invariant todo <= indexes.Keys && done <= indexes.Values
        invariant forall n {:trigger indexes[n]} :: n in indexes && n !in todo && indexes[n] in columns ==> indexes[n] in done
        invariant Met(indexes, indexes.Keys - todo, done)
        invariant entries == EntriesWith(old(entries), RowEntries(columns, done, row), pk)
        invariant AddedSoFar(name, before, columns, declared, done, row)
      {
        var n :| n in todo;
        MetNext(indexes, indexes.Keys - todo, done, n);
        assert indexes.Keys - (todo - {n}) == indexes.Keys - todo + {n};
        if indexes[n] in columns {
          r := AddNext(n, row, before, old(entries), indexes.Keys - todo, done, full);
          if r.Err? { return; }
          done := done + {indexes[n]};
        }
        todo := todo - {n};
      }
      AllDone(indexes, columns, done);
      return Ok(());
    }

    /** The same loop for a key with the separator. */
    method AddSpoiling(row: Row, ghost before: map<string, Row>, full: bool) returns (r: Result<(), SqlError>)
      requires row != [] && |row| == |columns| && SEP in row[0] && row[0] !in before
      requires Agrees(before, columns, indexes.Values, entries) && Readable(entries)
      modifies `entries
      ensures r.Ok? ==> AddedSoFar(name, before, columns, declared, indexes.Values, row)
      ensures r.Ok? ==> !TwiceIndexed(indexes, columns, Checked(columns, declared, indexes.Values))
      ensures !AnyIndexed(columns, indexes.Values) ==> entries == old(entries)
      ensures r.Err? ==> Failed(r.error, row, before, full)
    {
      ghost var checked := Checked(columns, declared, indexes.Values);
      var todo := indexes.Keys;
      ghost var done: set<string> := {};
      while todo != {}
        invariant todo <= indexes.Keys && done <= indexes.Values
        invariant Seen(indexes, indexes.Keys - todo, columns, checked, done)
        invariant Spoiling(before, columns, indexes.Values, entries, done, row)
        invariant entries == old(entries) || AnyIndexed(columns, indexes.Values)
        invariant Untouched(old(entries), entries, done)
        invariant AddedSoFar(name, before, columns, declared, done, row)
      {
        var n :| n in todo;
        if indexes[n] in columns {
          r := SpoilNext(n, row, before, old(entries), indexes.Keys - todo, done, full);
          if r.Err? { return; }
        }
        SeenNext(indexes, indexes.Keys - todo, columns, checked, done, n);
        assert indexes.Keys - (todo - {n}) == indexes.Keys - todo + {n};
        todo, done := todo - {n}, if indexes[n] in columns then done + {indexes[n]} else done;
      }
      assert indexes.Keys - todo == indexes.Keys;
      AllSeen(indexes, columns, checked, done);
      return Ok(());
    }

    /** One round of it. */
    method SpoilNext(n: string, row: Row, ghost before: map<string, Row>, ghost start: Entries, ghost names: set<string>,
                     ghost done: set<string>, full: bool) returns (r: Result<(), SqlError>)
      requires row != [] && |row| == |columns| && SEP in row[0] && row[0] !in before
      requires n in indexes && n !in names && indexes[n] in columns && done <= indexes.Values
      requires Seen(indexes, names, columns, Checked(columns, declared, indexes.Values), done)
      requires Spoiling(before, columns, indexes.Values, entries, done, row)
      requires Readable(start) && Untouched(start, entries, done)
      requires AddedSoFar(name, before, columns, declared, done, row)
      modifies `entries
      ensures AnyIndexed(columns, indexes.Values)
      ensures r.Ok? ==> Spoiling(before, columns, indexes.Values, entries, done + {indexes[n]}, row)
      ensures r.Ok? ==> AddedSoFar(name, before, columns, declared, done + {indexes[n]}, row)
      ensures r.Ok? ==> Untouched(start, entries, done + {indexes[n]})
      ensures r.Ok? && indexes[n] in Checked(columns, declared, indexes.Values) ==> indexes[n] !in done
      ensures r.Err? ==> Failed(r.error, row, before, full)
    {
      var c := indexes[n];
      SpoilStep(name, before, columns, declared, indexes, entries, names, done, n, row);
      UntouchedNext(name, start, entries, done, c, row[Position(columns, c)], row[0], TakenForUnique(columns, declared, c));
      MetAgain(indexes, names, columns, done, n);
      r := AddEntry(c, row[Position(columns, c)], row[0], TakenForUnique(columns, declared, c), full);
    }

    /** INSERT of one row. If the number of values is wrong, the key is there or too long, nothing is stored. Otherwise the
        row is stored, and the statement succeeds exactly if no UNIQUE value is repeated, or seems to be, and no entry key
        is too long; if not, an index disagrees with the rows. After a success the table is in order exactly if no entry
        it made looks like a handle or, for a key with the separator, if there is no index. */
    method Insert(row: Row, full: bool) returns (r: Result<(), SqlError>)
      requires Valid()
      modifies `rows, `entries
      ensures r == Err(CountMismatch) <==> |row| != |columns|
      ensures r == Err(KeyExists) <==> |row| == |columns| && row[0] in old(rows)
      ensures r == Err(KeyTooLong) <==> |row| == |columns| && row[0] !in old(rows) && !KeyFits(RowKey(name, row[0]))
      ensures r.Err? && (r.error.CountMismatch? || r.error.KeyExists? || r.error.KeyTooLong?) ==> unchanged(this)
      ensures r.Ok? ==>
                && !Clashes(old(rows), columns, declared, indexes, row)
                && !TooLong(name, columns, indexes.Values, row)
                && rows == old(rows)[row[0] := row]
                && (SEP !in row[0] ==>
                      entries == EntriesWith(old(entries), RowEntries(columns, indexes.Values, row), row[0]))
                && (Valid() <==> KeepsOrder(old(entries), columns, indexes.Values, row))
      ensures r.Err? && r.error.Late() ==> rows == old(rows)[row[0] := row] && !Valid()
      ensures r == Err(UniqueViolation) ==> Clashes(old(rows), columns, declared, indexes, row)
      ensures r == Err(EntryTooLong) ==> TooLong(name, columns, indexes.Values, row)
      ensures r == Err(Refused) ==> full
      ensures r == Err(Misread) ==>
                && !Readable(entries) && !KeepsOrder(old(entries), columns, indexes.Values, row)
                && TwiceIndexed(indexes, columns, indexes.Values)
      ensures r.Ok? || r.error.CountMismatch? || r.error.KeyExists? || r.error.KeyTooLong? || r.error.Late() ||
              r.error.Outside()
    {
      if |row| != |columns| { return Err(CountMismatch); }
      if row[0] in rows { return Err(KeyExists); }
      if !KeyFits(RowKey(name, row[0])) { return Err(KeyTooLong); }
      r := StoreRow(row, full);
    }

    /** INSERT of a row that can be stored. */
    method StoreRow(row: Row, full: bool) returns (r: Result<(), SqlError>)
      requires Valid() && |row| == |columns| && row[0] !in rows && KeyFits(RowKey(name, row[0]))
      modifies `rows, `entries
      ensures r.Ok? ==>
                && !Clashes(old(rows), columns, declared, indexes, row)
                && !TooLong(name, columns, indexes.Values, row)
                && rows == old(rows)[row[0] := row]
                && (SEP !in row[0] ==>
                      entries == EntriesWith(old(entries), RowEntries(columns, indexes.Values, row), row[0]))
                && (Valid() <==> KeepsOrder(old(entries), columns, indexes.Values, row))
      ensures r.Err? ==> Failed(r.error, row, old(rows), full)
      ensures r.Err? && r.error.Late() ==> rows == old(rows)[row[0] := row]
      ensures r == Err(Misread) ==> !KeepsOrder(old(entries), columns, indexes.Values, row)
    {
      var ok := CarriedOut(full);
      if !ok { return Err(Refused); }
      rows := rows[row[0] := row];
      r := AddToIndexes(row, old(rows), full);
      if r.Ok? {
        FreshRow(old(rows), columns, declared, indexes, row);
        if SEP !in row[0] {
          Inserted(name, old(rows), columns, indexes.Values, old(entries), row);
        }
      } else if r == Err(Misread) && SEP in row[0] {
        assert AnyIndexed(columns, indexes.Values);
      }
    }

    /** The keys of the rows, in order. */
    method ScanKeys() returns (pks: seq<string>)
      ensures Lists(pks, rows.Keys) && Increasing(AsBytes(pks))
    {
      pks := [];
      var todo := rows.Keys;
      while todo != {}
        invariant todo <= rows.Keys && Lists(pks, rows.Keys - todo)
        invariant forall p, q {:trigger Before(p, q)} :: p in pks && q in todo ==> Before(p, q)
      {
        var pk := LeastKey(todo);
        pks, todo := pks + [pk], todo - {pk};
      }
      SortedIncreasing(AsBytes(pks));
    }

    /** The keys of the rows a condition selects, in order. */
    method SelectKeys(where: Option<Condition>) returns (pks: seq<string>)
      requires RowsOk(rows, columns) && (where.Some? ==> where.value.column in columns)
      ensures Lists(pks, SelectedKeys(rows, columns, where))
    {
      var all := ScanKeys();
      pks := [];
      var i: nat := 0;
      while i < |all|
        invariant i <= |all| && InOrder(pks) && Distinct(pks)
        invariant forall pk :: pk in pks <==> pk in all[..i] && Selected(columns, where, rows[pk])
      {
        Behind(all, i, pks);
        assert all[..i + 1] == all[..i] + [all[i]];
        if Selected(columns, where, rows[all[i]]) { pks := pks + [all[i]]; }
        i := i + 1;
      }
      assert all[..i] == all;
    }

    /** CREATE INDEX. The index is registered before the column is looked up; one for a column that does not exist never
        has entries. Otherwise the rows are listed in order up to the first whose entry key is too long, and the statement
        succeeds exactly if there is none. After a success all indexes agree with the rows exactly if no key contains the
        separator. */
    method CreateIndex(index: string, column: string, full: bool)
      returns (r: Result<(), SqlError>, ghost order: seq<string>, ghost listed: nat)
      requires Valid()
      modifies `indexes, `entries
      ensures r == Err(IndexExists) <==> index in old(indexes)
      ensures r == Err(KeyTooLong) <==> index !in old(indexes) && !KeyFits(MetaKey(name, index))
      ensures r.Err? && (r.error.IndexExists? || r.error.KeyTooLong?) ==> unchanged(this)
      ensures r.Ok? || r.error.NoSuchColumn? || r.error.EntryTooLong? || r.error.Misread? ==>
                indexes == old(indexes)[index := column] && (r == Err(NoSuchColumn) <==> column !in columns)
      ensures r == Err(NoSuchColumn) ==> (Valid() <==> !LooksLikeHandle(column))
      ensures r.Ok? || r.error.EntryTooLong? || r.error.Misread? ==>
                && Lists(order, rows.Keys) && listed <= |order|
                && ListedTo(name, rows, columns, old(entries), column, order, listed, entries)
      ensures r.Ok? ==> listed == |order| && forall pk :: pk in rows ==> RowFits(name, rows, columns, column, pk)
      ensures r == Err(EntryTooLong) ==> listed < |order| && !RowFits(name, rows, columns, column, order[listed])
      ensures r.Ok? ==> (Valid() <==> PlainKeys(rows) && Readable(entries) && !LooksLikeHandle(column))
      ensures r == Err(EntryTooLong) ==> !Valid()
      ensures r.Err? && r.error.Outside() ==> Blocked(r.error, rows, full)
      ensures r.Ok? || r.error.IndexExists? || r.error.KeyTooLong? || r.error.NoSuchColumn? || r.error.EntryTooLong? ||
              r.error.Outside()
    {
      order, listed := [], 0;
      if index in indexes { return Err(IndexExists), order, listed; }
      if !KeyFits(MetaKey(name, index)) { return Err(KeyTooLong), order, listed; }
      var ok := CarriedOut(full);
      if !ok { return Err(Refused), order, listed; }
      r, order, listed := RegisterIndex(index, column, full);
    }

    /** CREATE INDEX under a name that can be registered. */
    method RegisterIndex(index: string, column: string, full: bool)
      returns (r: Result<(), SqlError>, ghost order: seq<string>, ghost listed: nat)
      requires Valid() && index !in indexes
      modifies `indexes, `entries
      ensures indexes == old(indexes)[index := column] && (r == Err(NoSuchColumn) <==> column !in columns)
      ensures r == Err(NoSuchColumn) ==> (Valid() <==> !LooksLikeHandle(column))
      ensures r != Err(NoSuchColumn) ==>
                && Lists(order, rows.Keys) && listed <= |order|
                && ListedTo(name, rows, columns, old(entries), column, order, listed, entries)
      ensures r.Ok? ==> listed == |order| && forall pk :: pk in rows ==> RowFits(name, rows, columns, column, pk)
      ensures r == Err(EntryTooLong) ==>
                listed < |order| && !RowFits(name, rows, columns, column, order[listed]) && !Valid()
      ensures r.Ok? ==> (Valid() <==> PlainKeys(rows) && Readable(entries) && !LooksLikeHandle(column))
      ensures r.Err? ==> r.error.NoSuchColumn? || r.error.EntryTooLong? || Blocked(r.error, rows, full)
    {
      order, listed := [], 0;
      indexes := indexes[index := column];
      Registered(rows, columns, declared, old(indexes), entries, index, column);
      if column !in columns { return Err(NoSuchColumn), order, listed; }
      r, order, listed := BuildIndex(column, old(indexes).Values, full);
    }

    /** CREATE INDEX after the index has been registered. */
    method BuildIndex(column: string, ghost before: set<string>, full: bool)
      returns (r: Result<(), SqlError>, ghost order: seq<string>, ghost listed: nat)
      requires RowsOk(rows, columns) && EntriesFit(name, entries) && column in columns
      requires Agrees(rows, columns, before, entries) && indexes.Values == before + {column}
      modifies `entries
      ensures Lists(order, rows.Keys) && listed <= |order| && EntriesFit(name, entries)
      ensures ListedTo(name, rows, columns, old(entries), column, order, listed, entries)
      ensures r.Ok? ==> listed == |order| && forall pk :: pk in rows ==> RowFits(name, rows, columns, column, pk)
      ensures r.Ok? ==> (Agrees(rows, columns, indexes.Values, entries) <==> PlainKeys(rows))
      ensures r == Err(EntryTooLong) ==>
                && listed < |order| && !RowFits(name, rows, columns, column, order[listed])
                && !Agrees(rows, columns, indexes.Values, entries)
      ensures r.Err? ==> r.error.EntryTooLong? || Blocked(r.error, rows, full)
    {
      var pks := ScanKeys();
      order := pks;
      r, listed := ListRows(pks, column, full);
      ListingFits(name, rows, columns, old(entries), column, pks, listed);
      if r.Ok? {
        assert pks[..listed] == pks;
        IndexBuilt(rows, columns, before, old(entries), column, pks);
      } else if r == Err(EntryTooLong) {
        LeftOut(name, rows, columns, indexes.Values, entries, column, pks[listed]);
      } else if NoMagic(rows) {
        AgreesReadable(rows, columns, before, old(entries));
        ListingReadable(old(entries), rows, column, Position(columns, column), pks, listed);
      }
    }

    /** The loop of CREATE INDEX over the rows. */
    method ListRows(pks: seq<string>, column: string, full: bool) returns (r: Result<(), SqlError>, ghost listed: nat)
      requires RowsOk(rows, columns) && EntriesFit(name, entries) && column in columns
      requires forall pk :: pk in pks ==> pk in rows
      modifies `entries
      ensures listed <= |pks| && ListedTo(name, rows, columns, old(entries), column, pks, listed, entries)
      ensures r.Ok? ==> listed == |pks|
      ensures r == Err(EntryTooLong) ==> listed < |pks| && !RowFits(name, rows, columns, column, pks[listed])
      ensures r == Err(Refused) ==> full
      ensures r == Err(Misread) ==> !Readable(entries)
      ensures r.Err? ==> (r.error.EntryTooLong? || r.error.Outside())
    {
      var i: nat := 0;
      listed := 0;
      while i < |pks|
        invariant i <= |pks| && listed == i
        invariant ListedTo(name, rows, columns, old(entries), column, pks, i, entries)
      {
        r := ListNext(pks, i, column, old(entries), full);
        if r.Err? { return; }
        i, listed := i + 1, listed + 1;
      }
      r := Ok(());
    }

    method ListNext(pks: seq<string>, i: nat, column: string, ghost entries0: Entries, full: bool)
      returns (r: Result<(), SqlError>)
      requires RowsOk(rows, columns) && EntriesFit(name, entries0) && column in columns && i < |pks|
      requires ListedTo(name, rows, columns, entries0, column, pks, i, entries)
      modifies `entries
      ensures r.Ok? ==> ListedTo(name, rows, columns, entries0, column, pks, i + 1, entries)
      ensures r.Err? ==> entries == old(entries) && (r.error.EntryTooLong? || r.error.Outside())
      ensures r == Err(EntryTooLong) ==> !RowFits(name, rows, columns, column, pks[i])
      ensures r == Err(Refused) ==> full
      ensures r == Err(Misread) ==> !Readable(entries)
    {
      assert pks[i] in pks;
      var v := rows[pks[i]][Position(columns, column)];
      ListStep(name, rows, columns, entries0, column, pks, i, entries);
      r := AddEntry(column, v, pks[i], false, full);
    }

    /** `sec_idx_remove`. */
    method RemoveEntry(c: string, v: string, pk: string, full: bool) returns (r: Result<(), SqlError>)
      modifies `entries
      ensures r == Err(Misread) <==> (c, v) in old(entries) && LooksLikeHandle(old(entries)[(c, v)])
      ensures entries == if r.Ok? then Removed(old(entries), c, v, pk) else old(entries)
      ensures r.Err? ==> r.error.Outside()
      ensures r == Err(Refused) ==> full
    {
      if (c, v) in entries && LooksLikeHandle(entries[(c, v)]) { return Err(Misread); }
      var ok := CarriedOut(full);
      if !ok { return Err(Refused); }
      entries := Removed(entries, c, v, pk);
      return Ok(());
    }

    /** `remove_all_secondary_indexes`. */
    method RemoveFromIndexes(pk: string, full: bool) returns (r: Result<(), SqlError>)
      requires RowsOk(rows, columns) && pk in rows
      modifies `entries
      ensures r.Ok? ==> entries == EntriesWithout(old(entries), RowEntries(columns, indexes.Values, rows[pk]), pk)
      ensures r.Err? ==> r.error.Outside()
      ensures r == Err(Refused) ==> full
      ensures r == Err(Misread) ==>
                && !Readable(entries)
                && (Readable(old(entries)) ==>
                    !Readable(EntriesWithout(old(entries), RowEntries(columns, indexes.Values, rows[pk]), pk)))
    {
      var row, todo := rows[pk], indexes.Keys;
      ghost var done: set<string> := {};
      WithNone(entries, pk);
      assert RowEntries(columns, done, row) == {};
      while todo != {}
        invariant todo <= indexes.Keys && done <= indexes.Values
        invariant forall n {:trigger indexes[n]} :: n in indexes && n !in todo && indexes[n] in columns ==> indexes[n] in done
        invariant entries == EntriesWithout(old(entries), RowEntries(columns, done, row), pk)
      {
        var n :| n in todo;
        var c := indexes[n];
        if c in columns {
          var v := row[Position(columns, c)];
          RowEntriesNext(columns, done, c, row);
          WithoutNext(old(entries), RowEntries(columns, done, row), c, v, pk);
          ReadOnTheWay(old(entries), RowEntries(columns, done, row), RowEntries(columns, indexes.Values, row), (c, v), pk);
          r := RemoveEntry(c, v, pk, full);
          if r.Err? { return; }
          done := done + {c};
        }
        todo := todo - {n};
      }
      AllDone(indexes, columns, done);
      return Ok(());
    }

    /** DELETE. After a success exactly the selected rows are gone and the indexes agree; they are all readable unless a
        shortened entry looks like a handle. */
    method Delete(where: Option<Condition>, full: bool) returns (r: Result<(), SqlError>, ghost order: seq<string>)
      requires Valid()
      modifies `rows, `entries
      ensures r == Err(NoSuchColumn) <==> where.Some? && where.value.column !in columns
      ensures r == Err(NoSuchColumn) ==> unchanged(this)
      ensures r.Ok? ==>
                && Lists(order, SelectedKeys(old(rows), columns, where))
                && rows == old(rows) - SelectedKeys(old(rows), columns, where)
                && entries == Deleting(old(entries), old(rows), columns, indexes.Values, order, |order|)
                && (Valid() <==> Readable(entries)) && Sound()
                && (NoMagic(old(rows)) ==> Valid())
      ensures r.Err? ==> r.error.NoSuchColumn? || Blocked(r.error, old(rows), full)
    {
      order := [];
      if where.Some? && where.value.column !in columns { return Err(NoSuchColumn), order; }
      var pks := SelectKeys(where);
      order := pks;
      r := DeleteRows(pks, full);
      AllFirsts(pks, SelectedKeys(old(rows), columns, where));
      if r.Ok? && NoMagic(old(rows)) {
        AgreesReadable(rows, columns, indexes.Values, entries);
      }
    }

    /** The loop of DELETE over the selected rows. */
    method DeleteRows(pks: seq<string>, full: bool) returns (r: Result<(), SqlError>)
      requires Sound() && Distinct(pks) && forall pk :: pk in pks ==> pk in rows
      modifies `rows, `entries
      ensures r.Ok? ==> Sound()
      ensures r.Ok? ==> DeletedTo(old(rows), old(entries), columns, indexes.Values, pks, |pks|, rows, entries)
      ensures r.Err? ==> Blocked(r.error, old(rows), full)
    {
      var i: nat := 0;
      NothingDeleted(rows, entries, columns, indexes.Values, pks);
      while i < |pks|
        invariant i <= |pks| && Sound()
        invariant DeletedTo(old(rows), old(entries), columns, indexes.Values, pks, i, rows, entries)
      {
        r := DeleteNext(pks, i, old(rows), old(entries), full);
        if r.Err? { return; }
        i := i + 1;
      }
      r := Ok(());
    }

    method DeleteNext(pks: seq<string>, i: nat, ghost rows0: map<string, Row>, ghost entries0: Entries, full: bool)
      returns (r: Result<(), SqlError>)
      requires Sound() && i < |pks| && Distinct(pks)
      requires DeletedTo(rows0, entries0, columns, indexes.Values, pks, i, rows, entries)
      modifies `rows, `entries
      ensures r.Ok? ==> Sound() && DeletedTo(rows0, entries0, columns, indexes.Values, pks, i + 1, rows, entries)
      ensures r.Err? ==> Blocked(r.error, rows0, full)
    {
      DeleteStep(rows0, pks, i);
      r := DeleteRow(pks[i], full);
    }

    /** The removal of one row by a DELETE. */
    method DeleteRow(pk: string, full: bool) returns (r: Result<(), SqlError>)
      requires Sound() && pk in rows
      modifies `rows, `entries
      ensures r.Ok? ==> Sound() && rows == old(rows) - {pk}
      ensures r.Ok? ==> entries == EntriesWithout(old(entries), RowEntries(columns, indexes.Values, old(rows)[pk]), pk)
      ensures r.Err? ==> Blocked(r.error, old(rows), full)
    {
      AgreesWithout(rows, columns, indexes.Values, entries, pk);
      if NoMagic(rows) {
        AgreesReadable(rows, columns, indexes.Values, entries);
        AgreesReadable(rows - {pk}, columns, indexes.Values,
                       EntriesWithout(entries, RowEntries(columns, indexes.Values, rows[pk]), pk));
      }
      r := RemoveFromIndexes(pk, full);
      if r.Err? { return; }
      FewerRows(rows, columns, Enforced(columns, declared), pk);
      var ok := CarriedOut(full);
      if !ok { return Err(Refused); }
      rows := rows - {pk};
    }

    /** `sec_idx_remove_for_column`. */
    method RemoveForColumn(column: string, v: string, pk: string, full: bool) returns (r: Result<(), SqlError>)
      modifies `entries
      ensures r.Ok? ==>
                entries == if column in indexes.Values then EntriesWithout(old(entries), {(column, v)}, pk) else old(entries)
      ensures r.Err? ==> column in indexes.Values && r.error.Outside()
      ensures r == Err(Refused) ==> full
      ensures r == Err(Misread) ==>
                && !Readable(entries)
                && (Readable(old(entries)) ==> !Readable(EntriesWithout(old(entries), {(column, v)}, pk)))
    {
      var todo := indexes.Keys;
      ghost var keys: set<(string, string)> := {};
      WithNone(entries, pk);
      while todo != {}
        invariant todo <= indexes.Keys && (keys == {} || (keys == {(column, v)} && column in indexes.Values))
        invariant forall n {:trigger indexes[n]} :: n in indexes && n !in todo && indexes[n] == column ==> keys != {}
        invariant entries == EntriesWithout(old(entries), keys, pk)
      {
        var n :| n in todo;
        if indexes[n] == column {
          WithoutNext(old(entries), keys, column, v, pk);
          ReadOnTheWay(old(entries), keys, {(column, v)}, (column, v), pk);
          r := RemoveEntry(column, v, pk, full);
          if r.Err? { return; }
          assert keys + {(column, v)} == {(column, v)};
          keys := {(column, v)};
        }
        todo := todo - {n};
      }
      return Ok(());
    }

    /** `sec_idx_add_for_column`: fails if a UNIQUE value is taken or the entry key is too long. */
    method AddForColumn(column: string, v: string, pk: string, unique: bool, full: bool) returns (r: Result<(), SqlError>)
      requires column in indexes.Values ==> SEP !in pk && pk !in Pks(entries, column, v)
      modifies `entries
      ensures r.Ok? && column in indexes.Values ==>
                && entries == EntriesWith(old(entries), {(column, v)}, pk)
                && !(unique && (column, v) in old(entries)) && KeyFits(EntryKey(name, column, v))
      ensures r.Ok? && column !in indexes.Values ==> entries == old(entries)
      ensures r.Err? ==> column in indexes.Values && (r.error.Late() || r.error.Outside())
      ensures r == Err(UniqueViolation) ==> entries == old(entries) && unique && (column, v) in old(entries)
      ensures r == Err(EntryTooLong) ==> entries == old(entries) && !KeyFits(EntryKey(name, column, v))
      ensures r == Err(Refused) ==> full
      ensures r == Err(Misread) ==>
                && !Readable(entries)
                && (Readable(old(entries)) ==> !Readable(EntriesWith(old(entries), {(column, v)}, pk)))
    {
      var todo := indexes.Keys;
      ghost var keys: set<(string, string)> := {};
      WithNone(entries, pk);
      while todo != {}
        invariant todo <= indexes.Keys && (keys == {} || (keys == {(column, v)} && column in indexes.Values))
        invariant forall n {:trigger indexes[n]} :: n in indexes && n !in todo && indexes[n] == column ==> keys != {}
        invariant entries == EntriesWith(old(entries), keys, pk)
        invariant keys != {} ==> !(unique && (column, v) in old(entries)) && KeyFits(EntryKey(name, column, v))
      {
        var n :| n in todo;
        if indexes[n] == column {
          WithNext(name, old(entries), keys, column, v, pk, unique);
          ReadOnTheWay(old(entries), keys, {(column, v)}, (column, v), pk);
          r := AddEntry(column, v, pk, unique, full);
          if r.Err? { return; }
          assert keys + {(column, v)} == {(column, v)};
          keys := {(column, v)};
        }
        todo := todo - {n};
      }
      return Ok(());
    }

    /** The change of the entries for one row by an UPDATE. If another row has the value of a UNIQUE column, or the new
        entry key is too long, the entry of the row is gone. */
    method UpdateEntries(pk: string, column: string, was: string, val: string, full: bool)
      returns (r: Result<(), SqlError>)
      requires column in indexes.Values ==>
                 SEP !in pk && pk !in Pks(EntriesWithout(entries, {(column, was)}, pk), column, val)
      modifies `entries
      ensures r.Ok? ==> entries == Reindexed(old(entries), indexes.Values, column, was, val, pk)
      ensures r.Ok? && column in indexes.Values ==> KeyFits(EntryKey(name, column, val))
      ensures var left := EntriesWithout(old(entries), {(column, was)}, pk);
              && (r.Ok? && column in indexes.Values ==> !(column in declared && (column, val) in left))
              && (r == Err(UniqueViolation) ==> entries == left && column in declared && (column, val) in left)
              && (r == Err(EntryTooLong) ==> entries == left && !KeyFits(EntryKey(name, column, val)))
              && (r == Err(Misread) ==>
                    Readable(old(entries)) && Readable(left) ==> !Readable(Changed(old(entries), column, was, val, pk)))
      ensures r.Err? ==> column in indexes.Values && (r.error.Late() || r.error.Outside())
      ensures r == Err(Refused) ==> full
      ensures r == Err(Misread) ==> !Readable(entries)
    {
      r := RemoveForColumn(column, was, pk, full);
      if r.Err? { return; }
      r := AddForColumn(column, val, pk, column in declared, full);
    }

    /** The state in which the change of one row fails. */
    ghost predicate RowFailed(error: SqlError, pk: string, column: string, val: string, full: bool)
      requires column in columns
      reads this
    {
      match error
      case UniqueViolation =>
        && column in declared && KeyFits(EntryKey(name, column, val))
        && OtherHas(rows, Position(columns, column), pk, val)
        && !Agrees(rows, columns, indexes.Values, entries)
      case EntryTooLong =>
        && column in indexes.Values && !KeyFits(EntryKey(name, column, val))
        && !Agrees(rows, columns, indexes.Values, entries)
      case _ => Blocked(error, rows, full)
    }

    /** In terms of the rows. */
    method ReplaceEntry(pk: string, column: string, val: string, full: bool) returns (r: Result<(), SqlError>)
      requires RowsOk(rows, columns) && pk in rows && column in columns
      requires (column in declared ==> column in indexes.Values)
      requires Leaves(name, rows, columns, indexes.Values, entries, column, pk, val)
      modifies `entries
      ensures r.Ok? ==>
                && entries ==
                   Reindexed(old(entries), indexes.Values, column, rows[pk][Position(columns, column)], val, pk)
                && (column in declared ==> !OtherHas(rows, Position(columns, column), pk, val))
                && (column in indexes.Values ==> KeyFits(EntryKey(name, column, val)))
      ensures r.Err? ==> RowFailed(r.error, pk, column, val, full)
    {
      r := UpdateEntries(pk, column, rows[pk][Position(columns, column)], val, full);
    }

    /** The change of one row by an UPDATE. If it fails the row stays as it was. */
    method UpdateRow(pk: string, column: string, val: string, full: bool) returns (r: Result<(), SqlError>)
      requires Sound() && pk in rows && column in columns
      modifies `rows, `entries
      ensures var ci := Position(columns, column);
              r.Ok? ==>
                && Sound() && rows == old(rows)[pk := old(rows)[pk][ci := val]]
                && entries == Reindexed(old(entries), indexes.Values, column, old(rows)[pk][ci], val, pk)
                && (column in declared ==> !OtherHas(old(rows), ci, pk, val))
                && (column in indexes.Values ==> KeyFits(EntryKey(name, column, val)))
      ensures r.Err? ==> rows == old(rows) && RowFailed(r.error, pk, column, val, full)
    {
      EntryLeaves(name, rows, columns, indexes.Values, entries, column, pk, val);
      r := ReplaceEntry(pk, column, val, full);
      if r.Err? { return; }
      UpdateUnique(rows, columns, declared, column, pk, val);
      UpdateAgrees(name, rows, columns, indexes.Values, old(entries), column, pk, val);
      var ok := CarriedOut(full);
      if !ok { return Err(Refused); }
      rows := rows[pk := rows[pk][Position(columns, column) := val]];
    }

    /** UPDATE. If some row is selected and the column has an index, it fails if the new entry key is too long; if not, it
        fails if the column is UNIQUE and two rows would have the value. Either way the first row it fails at has lost its
        index entry. After a success exactly the selected rows are changed and the indexes agree. The rows stay where they
        are stored, so after an UPDATE of the key column they are stored under their keys exactly if none was changed. */
    method Update(column: string, val: string, where: Option<Condition>, full: bool)
      returns (r: Result<(), SqlError>, ghost order: seq<string>)
      requires Valid()
      modifies `rows, `entries
      ensures r == Err(NoSuchColumn) <==> column !in columns || (where.Some? && where.value.column !in columns)
      ensures r == Err(NoSuchColumn) ==> unchanged(this)
      ensures r.Ok? || r.error.Late() ==>
                var ci, keys := Position(columns, column), SelectedKeys(old(rows), columns, where);
                var after := Updated(old(rows), ci, val, keys);
                && Lists(order, keys)
                && (r == Err(EntryTooLong) <==>
                      keys != {} && column in indexes.Values && !KeyFits(EntryKey(name, column, val)))
                && (r == Err(UniqueViolation) <==>
                      keys != {} && column in declared && KeyFits(EntryKey(name, column, val)) && TwoHave(after, ci, val))
                && (r.Ok? ==> Sound() && rows == after)
                && (r.Ok? ==>
                      entries == Updating(old(entries), old(rows), indexes.Values, column, ci, val, order, |order|))
                && (r.Ok? ==> (Valid() <==> Readable(entries) && (ci != 0 || keys <= {val})))
                && (r.Ok? && NoMagic(old(rows)) ==> Readable(entries))
                && (r.Err? ==> !Agrees(rows, columns, indexes.Values, entries))
      ensures r.Err? ==> r.error.NoSuchColumn? || r.error.Late() || Blocked(r.error, old(rows), full)
    {
      order := [];
      if column !in columns || (where.Some? && where.value.column !in columns) { return Err(NoSuchColumn), order; }
      var pks := SelectKeys(where);
      order := pks;
      ghost var keys := SelectedKeys(rows, columns, where);
      KeysAfterUpdate(rows, columns, Position(columns, column), val, keys);
      AllFirsts(pks, keys);
      r := UpdateRows(pks, column, val, Updated(rows, Position(columns, column), val, keys), full);
      SameMagic(old(rows), Position(columns, column), val, keys);
      if r.Ok? && NoMagic(old(rows)) {
        AgreesReadable(rows, columns, indexes.Values, entries);
      }
    }

    /** The state in which an UPDATE fails that would have ended with the rows `after`. */
    ghost predicate UpdateFailed(error: SqlError, column: string, val: string, after: map<string, Row>, full: bool)
      requires column in columns
      reads this
    {
      match error
      case UniqueViolation =>
        && column in declared && KeyFits(EntryKey(name, column, val))
        && TwoHave(after, Position(columns, column), val)
        && !Agrees(rows, columns, indexes.Values, entries)
      case EntryTooLong =>
        && column in indexes.Values && !KeyFits(EntryKey(name, column, val))
        && !Agrees(rows, columns, indexes.Values, entries)
      case _ => Blocked(error, after, full)
    }

    /** What must hold if it changes a row. */
    ghost predicate Allowed(column: string, val: string)
      requires column in columns
      reads this
    {
      && (column in declared ==> !TwoHave(rows, Position(columns, column), val))
      && (column in indexes.Values ==> KeyFits(EntryKey(name, column, val)))
    }

    /** The loop of UPDATE over the selected rows. */
    method UpdateRows(pks: seq<string>, column: string, val: string, ghost after: map<string, Row>, full: bool)
      returns (r: Result<(), SqlError>)
      requires Sound() && column in columns && Distinct(pks) && forall pk :: pk in pks ==> pk in rows
      requires after == Updated(rows, Position(columns, column), val, Firsts(pks, |pks|))
      modifies `rows, `entries
      ensures r.Ok? ==>
                && Sound() && (pks != [] ==> Allowed(column, val))
                && UpdatedTo(old(rows), old(entries), indexes.Values, column, Position(columns, column), val, pks, |pks|,
                             rows, entries)
      ensures r.Err? ==> pks != [] && UpdateFailed(r.error, column, val, after, full)
    {
      var i: nat := 0;
      NothingUpdated(rows, entries, columns, indexes.Values, column, val, pks);
      while i < |pks|
        invariant i <= |pks| && Sound() && (i > 0 ==> Allowed(column, val))
        invariant UpdatedTo(old(rows), old(entries), indexes.Values, column, Position(columns, column), val, pks, i,
                            rows, entries)
      {
        r := UpdateNext(pks, i, column, val, old(rows), old(entries), after, full);
        if r.Err? { return; }
        i := i + 1;
      }
      r := Ok(());
    }

    method UpdateNext(pks: seq<string>, i: nat, column: string, val: string, ghost rows0: map<string, Row>,
                      ghost entries0: Entries, ghost after: map<string, Row>, full: bool)
      returns (r: Result<(), SqlError>)
      requires Sound() && i < |pks| && Distinct(pks) && column in columns
      requires UpdatedTo(rows0, entries0, indexes.Values, column, Position(columns, column), val, pks, i, rows, entries)
      requires after == Updated(rows0, Position(columns, column), val, Firsts(pks, |pks|))
      modifies `rows, `entries
      ensures r.Ok? ==>
                && Sound() && Allowed(column, val)
                && UpdatedTo(rows0, entries0, indexes.Values, column, Position(columns, column), val, pks, i + 1,
                             rows, entries)
      ensures r.Err? ==> UpdateFailed(r.error, column, val, after, full)
    {
      ghost var ci := Position(columns, column);
      assert pks[i] in pks;
      UpdateStep(rows0, ci, val, pks, i);
      NotTwo(rows, ci, pks[i], val);
      StillTwo(rows0, ci, val, Firsts(pks, i), Firsts(pks, |pks|), pks[i]);
      r := UpdateRow(pks[i], column, val, full);
    }

    /** SELECT ... WHERE column = value. If there is an index entry, the rows it lists, in its order; otherwise the selected
        rows in the order of their keys. In a table in order both are every selected row once, so the rows of one are a
        permutation of those of the other. */
    method Select(where: Option<Condition>) returns (r: Result<seq<Row>, SqlError>, ghost pks: seq<string>)
      requires RowsOk(rows, columns)
      ensures r == Err(NoSuchColumn) <==>
                where.Some? && where.value.column !in columns && !ByEntry(entries, where)
      ensures r == Err(Misread) <==> ByEntry(entries, where) && LooksLikeHandle(entries[KeyOf(where.value)])
      ensures r.Err? ==> r.error.NoSuchColumn? || r.error.Misread?
      ensures r.Ok? ==> (forall pk :: pk in pks ==> pk in rows) && r.value == RowsOf(rows, pks)
      ensures r.Ok? && ByEntry(entries, where) ==> pks == Present(rows, Split(entries[KeyOf(where.value)]))
      ensures r.Ok? && !ByEntry(entries, where) ==> Lists(pks, SelectedKeys(rows, columns, where))
      ensures Consistent() ==> (r.Err? <==> where.Some? && where.value.column !in columns)
      ensures Consistent() && r.Ok? ==> Selection(rows, columns, where, pks)
      ensures Consistent() && r.Ok? ==> forall qks {:trigger RowsOf(rows, qks)} :: Selection(rows, columns, where, qks) ==>
                multiset(r.value) == multiset(RowsOf(rows, qks))
    {
      var found: seq<string>;
      if ByEntry(entries, where) {
        var entry := entries[KeyOf(where.value)];
        if LooksLikeHandle(entry) { return Err(Misread), []; }
        found := Split(entry);
      } else if where.Some? && where.value.column !in columns {
        return Err(NoSuchColumn), [];
      } else {
        found := SelectKeys(where);
      }
      pks := Present(rows, found);
      var out := FetchRows(found);
      if Consistent() {
        if ByEntry(entries, where) {
          EntrySelects(rows, columns, indexes.Values, entries, where.value.column, where.value.val);
        }
        AllPresent(rows, found);
        forall qks | Selection(rows, columns, where, qks) ensures multiset(out) == multiset(RowsOf(rows, qks)) {
          SameSelection(rows, found, qks);
        }
      } else if !ByEntry(entries, where) {
        AllPresent(rows, found);
      }
      r := Ok(out);
    }

    /** The rows under those of the keys that have one. */
    method FetchRows(pks: seq<string>) returns (out: seq<Row>)
      ensures out == RowsOf(rows, Present(rows, pks))
    {
      out := [];
      var i: nat := 0;
      while i < |pks|
        invariant i <= |pks| && out == RowsOf(rows, Present(rows, pks[..i]))
      {
        assert pks[..i + 1][..i] == pks[..i];
        if pks[i] in rows { out := out + [rows[pks[i]]]; }
        i := i + 1;
      }
      assert pks[..i] == pks;
    }
  }

  // ---- CREATE TABLE ----

  /** CREATE TABLE fails if the key of an index is too long. */
  method CreateTable(name: string, columns: seq<string>, declared: set<string>, full: bool)
    returns (r: Result<Table, SqlError>)
    requires columns != []
    ensures r == Err(KeyTooLong) <==> !NamesFit(name, declared)
    ensures r.Err? ==> r.error.KeyTooLong? || (r.error.Refused? && full)
    ensures r.Ok? ==>
              && fresh(r.value) && r.value.name == name && r.value.columns == columns && r.value.declared == declared
              && r.value.rows == map[] && r.value.entries == map[] && r.value.indexes.Values == declared
              && (r.value.Valid() <==> forall c :: c in declared ==> !LooksLikeHandle(c))
  {
    if !NamesFit(name, declared) { return Err(KeyTooLong); }
    var ok := CarriedOut(full);
    if !ok { return Err(Refused); }
    var table := new Table(name, columns, declared);
    return Ok(table);
  }

  /** The indexes are those of the UNIQUE columns. */
  ghost predicate IsImplicit(table: string, declared: set<string>, made: map<string, string>) {
    && (forall n {:trigger n in made} :: n in made ==> n == ImplicitName(table, made[n]) && made[n] in declared)
    && (forall c :: c in declared ==> ImplicitName(table, c) in made && made[ImplicitName(table, c)] == c)
  }

  method ImplicitIndexes(table: string, declared: set<string>) returns (made: map<string, string>)
    ensures IsImplicit(table, declared, made) && made.Values == declared
  {
    made := map[];
    var todo := declared;
    while todo != {}
      invariant todo <= declared && IsImplicit(table, declared - todo, made)
    {
      var c :| c in todo;
      OwnIndex(table, c, made);
      assert declared - (todo - {c}) == declared - todo + {c};
      made, todo := made[ImplicitName(table, c) := c], todo - {c};
    }
    assert declared - todo == declared;
    assert forall c :: c in declared ==> made[ImplicitName(table, c)] in made.Values;
  }

  /** Different columns get different indexes. */
  lemma OwnIndex(table: string, c: string, made: map<string, string>)
    requires forall n {:trigger n in made} :: n in made ==> n == ImplicitName(table, made[n])
    ensures ImplicitName(table, c) in made ==> made[ImplicitName(table, c)] == c
  {
    var p := "idx_" + table + "_";
    if ImplicitName(table, c) in made {
      var d := made[ImplicitName(table, c)];
      assert c == (p + c)[|p|..] && d == (p + d)[|p|..];
    }
  }

  // ---- INSERT ----

  /** The columns in `done` have got the row: no UNIQUE value is taken and the entry keys fit. */
  ghost predicate AddedSoFar(table: string, rows: map<string, Row>, columns: seq<string>, declared: set<string>,
                             done: set<string>, row: Row)
    requires |row| == |columns|
  {
    forall c {:trigger c in done} :: c in done && c in columns ==>
      && !(TakenForUnique(columns, declared, c) && Taken(rows, columns, c, row))
      && KeyFits(EntryKey(table, c, row[Position(columns, c)]))
  }

  lemma AddedNext(table: string, rows: map<string, Row>, columns: seq<string>, declared: set<string>,
                  indexed: set<string>, es: Entries, done: set<string>, c: string, row: Row)
    requires row != [] && |row| == |columns| && SEP !in row[0] && row[0] !in rows
    requires Agrees(rows, columns, indexed, es) && c in indexed && c in columns
    requires AddedSoFar(table, rows, columns, declared, done, row)
    ensures var now := EntriesWith(es, RowEntries(columns, done, row), row[0]);
            var added := Added(table, now, c, row[Position(columns, c)], row[0], TakenForUnique(columns, declared, c));
            added.Stored? ==>
              && added.es == EntriesWith(es, RowEntries(columns, done + {c}, row), row[0])
              && AddedSoFar(table, rows, columns, declared, done + {c}, row)
  {
    AddRound(table, rows, columns, indexed, es, done, c, row[0], row, TakenForUnique(columns, declared, c));
  }

  /** An entry that is misread on the way has been lengthened for another index of its column. */
  lemma MisreadAgain(columns: seq<string>, indexes: map<string, string>, es: Entries, names: set<string>,
                     done: set<string>, n: string, row: Row)
    requires row != [] && |row| == |columns| && Readable(es) && Met(indexes, names, done) && done <= indexes.Values
    requires n in indexes && n !in names && indexes[n] in columns
    ensures var now := EntriesWith(es, RowEntries(columns, done, row), row[0]);
            var key := (indexes[n], row[Position(columns, indexes[n])]);
            key in now && LooksLikeHandle(now[key]) ==>
              && !Readable(now) && TwiceIndexed(indexes, columns, indexes.Values)
              && !Readable(EntriesWith(es, RowEntries(columns, indexes.Values, row), row[0]))
  {
    var c := indexes[n];
    var keys, key := RowEntries(columns, done, row), (c, row[Position(columns, c)]);
    RowEntriesNext(columns, done, c, row);
    ReadOnTheWay(es, keys, RowEntries(columns, indexes.Values, row), key, row[0]);
    MetAgain(indexes, names, columns, done, n);
    assert key !in keys ==> key !in EntriesWith(es, keys, row[0]) || EntriesWith(es, keys, row[0])[key] == es[key];
  }

  lemma NotAdded(table: string, rows: map<string, Row>, columns: seq<string>, declared: set<string>,
                 indexes: map<string, string>, es: Entries, done: set<string>, c: string, row: Row)
    requires row != [] && |row| == |columns| && SEP !in row[0] && row[0] !in rows
    requires Agrees(rows, columns, indexes.Values, es) && c in indexes.Values && c in columns
    ensures var now := EntriesWith(es, RowEntries(columns, done, row), row[0]);
            var added := Added(table, now, c, row[Position(columns, c)], row[0], TakenForUnique(columns, declared, c));
            && (added.ValueTaken? ==> Clashes(rows, columns, declared, indexes, row))
            && (added.Oversize? ==> TooLong(table, columns, indexes.Values, row))
            && (!added.Stored? ==> !Agrees(rows[row[0] := row], columns, indexes.Values, now))
  {
    AddRound(table, rows, columns, indexes.Values, es, done, c, row[0], row, TakenForUnique(columns, declared, c));
    assert TakenForUnique(columns, declared, c) ==> c in Checked(columns, declared, indexes.Values);
  }

  lemma SpoilStep(table: string, rows: map<string, Row>, columns: seq<string>, declared: set<string>,
                  indexes: map<string, string>, es: Entries, names: set<string>, done: set<string>, n: string, row: Row)
    requires row != [] && |row| == |columns| && SEP in row[0] && row[0] !in rows
    requires n in indexes && n !in names && indexes[n] in columns && done <= indexes.Values
    requires Seen(indexes, names, columns, Checked(columns, declared, indexes.Values), done)
    requires Spoiling(rows, columns, indexes.Values, es, done, row)
    requires AddedSoFar(table, rows, columns, declared, done, row)
    ensures var c, checked := indexes[n], Checked(columns, declared, indexes.Values);
            var added := Added(table, es, c, row[Position(columns, c)], row[0], TakenForUnique(columns, declared, c));
            && AnyIndexed(columns, indexes.Values)
            && (added.ValueTaken? ==> Clashes(rows, columns, declared, indexes, row))
            && (added.Oversize? ==> TooLong(table, columns, indexes.Values, row))
            && !Agrees(rows[row[0] := row], columns, indexes.Values, es)
            && (added.Stored? ==> Spoiling(rows, columns, indexes.Values, added.es, done + {c}, row))
            && (added.Stored? ==> AddedSoFar(table, rows, columns, declared, done + {c}, row))
            && (added.Stored? && c in checked ==> c !in done)
  {
    var c, checked := indexes[n], Checked(columns, declared, indexes.Values);
    assert c in indexes.Values && (TakenForUnique(columns, declared, c) ==> c in checked);
    SpoilRound(table, rows, columns, indexes.Values, es, done, c, row[0], row, TakenForUnique(columns, declared, c));
    SeenAgain(indexes, names, columns, checked, done, n);
    SeparatorDisagrees(rows[row[0] := row], es, c, Position(columns, c), row[0]);
  }

  lemma NoneFound(table: string, rows: map<string, Row>, columns: seq<string>, declared: set<string>,
                  indexes: map<string, string>, row: Row)
    requires row != [] && |row| == |columns|
    requires AddedSoFar(table, rows, columns, declared, indexes.Values, row)
    ensures !TooLong(table, columns, indexes.Values, row)
    ensures !Repeats(rows, columns, Checked(columns, declared, indexes.Values), row)
  {
  }

  /** A row with new values in UNIQUE columns does not break uniqueness. */
  lemma FreshRow(rows: map<string, Row>, columns: seq<string>, declared: set<string>, indexes: map<string, string>,
                 row: Row)
    requires row != [] && |row| == |columns| && row[0] !in rows && !Clashes(rows, columns, declared, indexes, row)
    requires UniqueHeld(rows, columns, Enforced(columns, declared)) && IndexesOk(columns, declared, indexes)
    ensures UniqueHeld(rows[row[0] := row], columns, Enforced(columns, declared))
  {
    forall c | c in Enforced(columns, declared) ensures ColumnUnique(rows[row[0] := row], Position(columns, c)) {
      assert c in Checked(columns, declared, indexes.Values);
      assert !Taken(rows, columns, c, row);
      FreshUnique(rows, Position(columns, c), row[0], row);
    }
  }

  lemma Inserted(table: string, rows: map<string, Row>, columns: seq<string>, indexed: set<string>, es: Entries, row: Row)
    requires row != [] && |row| == |columns| && SEP !in row[0] && row[0] !in rows
    requires Agrees(rows, columns, indexed, es) && EntriesFit(table, es) && !TooLong(table, columns, indexed, row)
    ensures var es' := EntriesWith(es, RowEntries(columns, indexed, row), row[0]);
            Agrees(rows[row[0] := row], columns, indexed, es') && EntriesFit(table, es')
  {
    AgreesWith(rows, columns, indexed, es, row[0], row);
    WithFits(table, es, columns, indexed, row, row[0]);
  }

  /** A plain key keeps the table in order if all keys before it did not begin like a handle. */
  lemma PlainKeepsOrder(rows: map<string, Row>, columns: seq<string>, indexed: set<string>, es: Entries, row: Row)
    requires row != [] && |row| == |columns| && row[0] !in rows && Agrees(rows, columns, indexed, es) && NoMagic(rows)
    requires SEP !in row[0] && !("OVRF" <= row[0])
    ensures KeepsOrder(es, columns, indexed, row)
  {
    AgreesReadable(rows, columns, indexed, es);
    UnmarkedWith(es, RowEntries(columns, indexed, row), row[0]);
  }

  lemma WithFits(table: string, es: Entries, columns: seq<string>, indexed: set<string>, row: Row, pk: string)
    requires EntriesFit(table, es) && |row| == |columns| && !TooLong(table, columns, indexed, row)
    ensures EntriesFit(table, EntriesWith(es, RowEntries(columns, indexed, row), pk))
  {
  }

  // ---- The order of rows ----

  lemma BeforeIsOrder()
    ensures forall p, q, s {:trigger Before(p, q), Before(q, s)} :: Before(p, q) && Before(q, s) ==> Before(p, s)
    ensures forall p, q {:trigger Before(p, q)} :: p == q || Before(p, q) || Before(q, p)
    ensures forall p {:trigger Before(p, p)} :: !Before(p, p)
  {
    LessIsStrictTotalOrder();
    forall p, q ensures p == q || Before(p, q) || Before(q, p) {
      if Utf8(p) == Utf8(q) {
        Utf8Injective(p, q);
      }
    }
  }

  /** Rows are in the order of their database keys. */
  lemma RowKeyOrder(table: string, p: string, q: string)
    ensures Less(Utf8(RowKey(table, p)), Utf8(RowKey(table, q))) <==> Before(p, q)
  {
    Utf8Concat(table + ":", p);
    Utf8Concat(table + ":", q);
    BehindPrefix(Utf8(table + ":"), Utf8(p), Utf8(q), |Utf8(table + ":")|);
  }

  lemma {:induction false} BehindPrefix(a: bytes, p: bytes, q: bytes, i: nat)
    requires i <= |a|
    ensures LessFrom(a + p, a + q, |a| - i) <==> Less(p, q)
  {
    if i == 0 {
      BehindFrom(a, p, q, 0);
    } else {
      BehindPrefix(a, p, q, i - 1);
    }
  }

  lemma {:induction false} BehindFrom(a: bytes, p: bytes, q: bytes, i: nat)
    requires i <= |p| && i <= |q|
    ensures LessFrom(a + p, a + q, |a| + i) <==> LessFrom(p, q, i)
    decreases |q| - i
  {
    if i < |p| && i < |q| {
      BehindFrom(a, p, q, i + 1);
    }
  }

  /** A key of an ordered list can be put behind any ordered choice of the keys before it. */
  lemma Behind(all: seq<string>, i: nat, pks: seq<string>)
    requires InOrder(all) && Distinct(all) && i < |all|
    requires InOrder(pks) && Distinct(pks) && forall pk :: pk in pks ==> pk in all[..i]
    ensures InOrder(pks + [all[i]]) && Distinct(pks + [all[i]])
    ensures all[i] !in all[..i]
  {
    forall j | 0 <= j < |pks| ensures Before(pks[j], all[i]) && pks[j] != all[i] {
      assert pks[j] in pks;
      var k :| 0 <= k < i && all[k] == pks[j];
    }
  }

  /** There is one order. */
  lemma {:induction false} OneOrder(pks: seq<string>, qks: seq<string>, keys: set<string>)
    requires Lists(pks, keys) && Lists(qks, keys)
    ensures pks == qks
  {
    if pks == [] || qks == [] {
      NoKeys(pks, qks);
    } else {
      var p, q := pks[|pks| - 1], qks[|qks| - 1];
      LastIs(pks, qks, keys);
      WithoutLast(pks, keys);
      WithoutLast(qks, keys);
      OneOrder(pks[..|pks| - 1], qks[..|qks| - 1], keys - {p});
      assert pks == pks[..|pks| - 1] + [p] && qks == qks[..|qks| - 1] + [q];
    }
  }

  lemma LastIs(pks: seq<string>, qks: seq<string>, keys: set<string>)
    requires Lists(pks, keys) && Lists(qks, keys) && pks != [] && qks != []
    ensures pks[|pks| - 1] == qks[|qks| - 1]
  {
    BeforeIsOrder();
    var p, q := pks[|pks| - 1], qks[|qks| - 1];
    assert p in qks && q in pks;
    var i :| 0 <= i < |qks| && qks[i] == p;
    var j :| 0 <= j < |pks| && pks[j] == q;
    assert i < |qks| - 1 ==> Before(p, q);
    assert j < |pks| - 1 ==> Before(q, p);
  }

  lemma WithoutLast(pks: seq<string>, keys: set<string>)
    requires Lists(pks, keys) && pks != []
    ensures Lists(pks[..|pks| - 1], keys - {pks[|pks| - 1]})
  {
    assert pks == pks[..|pks| - 1] + [pks[|pks| - 1]];
  }

  method LeastKey(keys: set<string>) returns (k: string)
    requires keys != {}
    ensures k in keys && forall j :: j in keys && j != k ==> Before(k, j)
  {
    BeforeIsOrder();
    k :| k in keys;
    var todo := keys - {k};
    while todo != {}
      invariant todo <= keys && k in keys - todo
      invariant forall j {:trigger j in keys} :: j in keys && j !in todo && j != k ==> Before(k, j)
    {
      var j :| j in todo;
      if Before(j, k) { k := j; }
      todo := todo - {j};
    }
  }

  // ---- CREATE INDEX ----

  /** The entry key of a row in the index of `c` is not too long. */
  ghost predicate RowFits(table: string, rows: map<string, Row>, columns: seq<string>, c: string, pk: string)
    requires RowsOk(rows, columns) && c in columns && pk in rows
  {
    KeyFits(EntryKey(table, c, rows[pk][Position(columns, c)]))
  }

  /** The entries after the first `n` rows have been listed under column `c`. */
  ghost function Listing(es: Entries, rows: map<string, Row>, c: string, ci: nat, pks: seq<string>, n: nat): Entries
    requires n <= |pks| && forall pk :: pk in pks ==> pk in rows && ci < |rows[pk]|
  {
    if n == 0 then es
    else
      assert pks[n - 1] in pks;
      EntriesWith(Listing(es, rows, c, ci, pks, n - 1), {(c, rows[pks[n - 1]][ci])}, pks[n - 1])
  }

  /** The state of a CREATE INDEX after `n` rows, none of which has an entry key that is too long. */
  ghost predicate ListedTo(table: string, rows: map<string, Row>, columns: seq<string>, es: Entries, c: string,
                           pks: seq<string>, n: nat, es': Entries)
    requires RowsOk(rows, columns) && c in columns
  {
    && n <= |pks| && (forall pk :: pk in pks ==> pk in rows)
    && es' == Listing(es, rows, c, Position(columns, c), pks, n)
    && forall pk :: pk in pks[..n] ==> RowFits(table, rows, columns, c, pk)
  }

  /** One entry, for any key. */
  lemma AddedOne(table: string, es: Entries, c: string, v: string, pk: string)
    requires EntriesFit(table, es)
    ensures var added := Added(table, es, c, v, pk, false);
            && (added.Stored? ==> added.es == EntriesWith(es, {(c, v)}, pk))
            && (added.Stored? <==> KeyFits(EntryKey(table, c, v))) && !added.ValueTaken?
  {
    assert EntriesWith(es, {(c, v)}, pk) == es[(c, v) := Lengthened(es, c, v, pk)];
    if (c, v) in es {
      assert es[(c, v) := es[(c, v)]] == es;
    }
  }

  lemma {:induction false} ListingFits(table: string, rows: map<string, Row>, columns: seq<string>, es: Entries, c: string,
                                       pks: seq<string>, n: nat)
    requires RowsOk(rows, columns) && c in columns && EntriesFit(table, es) && n <= |pks|
    requires forall pk :: pk in pks ==> pk in rows
    requires forall pk :: pk in pks[..n] ==> RowFits(table, rows, columns, c, pk)
    ensures EntriesFit(table, Listing(es, rows, c, Position(columns, c), pks, n))
  {
    if n > 0 {
      assert pks[..n] == pks[..n - 1] + [pks[n - 1]];
      ListingFits(table, rows, columns, es, c, pks, n - 1);
      assert RowFits(table, rows, columns, c, pks[n - 1]);
    }
  }

  lemma ListStep(table: string, rows: map<string, Row>, columns: seq<string>, es: Entries, c: string, pks: seq<string>,
                 n: nat, es': Entries)
    requires RowsOk(rows, columns) && c in columns && EntriesFit(table, es) && n < |pks| && pks[n] in rows
    requires ListedTo(table, rows, columns, es, c, pks, n, es')
    ensures var added := Added(table, es', c, rows[pks[n]][Position(columns, c)], pks[n], false);
            && !added.ValueTaken? && (added.Oversize? ==> !RowFits(table, rows, columns, c, pks[n]))
            && (added.Stored? ==> ListedTo(table, rows, columns, es, c, pks, n + 1, added.es))
  {
    assert pks[..n + 1] == pks[..n] + [pks[n]];
    ListingFits(table, rows, columns, es, c, pks, n);
    AddedOne(table, es', c, rows[pks[n]][Position(columns, c)], pks[n]);
  }

  /** All indexes but that of `c` agree with the rows. */
  ghost predicate OthersAgree(rows: map<string, Row>, columns: seq<string>, indexed: set<string>, es: Entries,
                              c: string) {
    && (forall key {:trigger key in es} :: key in es && key.0 != c ==> key.0 in indexed && key.0 in columns)
    && (forall d {:trigger d in indexed} :: d in indexed && d in columns && d != c ==>
          ColumnAgrees(rows, es, d, Position(columns, d)))
  }

  /** With one more index the columns of all of them can be read exactly if that of the new one can. */
  lemma Registered(rows: map<string, Row>, columns: seq<string>, declared: set<string>, indexes: map<string, string>,
                   es: Entries, name: string, column: string)
    requires IndexesOk(columns, declared, indexes) && Agrees(rows, columns, indexes.Values, es) && name !in indexes
    ensures var more := indexes[name := column];
            && (IndexesOk(columns, declared, more) <==> !LooksLikeHandle(column))
            && more.Values == indexes.Values + {column}
            && (column !in columns ==> Agrees(rows, columns, more.Values, es))
  {
    var more := indexes[name := column];
    MoreIndexed(indexes, name, column);
    assert more[name] == column;
    assert forall n :: n in indexes ==> more[n] == indexes[n];
  }

  lemma MoreIndexed(indexes: map<string, string>, name: string, column: string)
    requires name !in indexes
    ensures indexes[name := column].Values == indexes.Values + {column}
  {
    var more := indexes[name := column];
    assert more[name] == column;
    forall c | c in indexes.Values ensures c in more.Values {
      var n :| n in indexes && indexes[n] == c;
      assert more[n] == c;
    }
  }

  /** The first `n` of the rows, and all of them if they were listed before. */
  ghost function ListedRows(rows: map<string, Row>, had: bool, pks: seq<string>, n: nat): map<string, Row>
    requires n <= |pks|
  {
    map pk | pk in rows && (had || pk in pks[..n]) :: rows[pk]
  }

  /** If no key contains the separator, the index holds exactly the rows listed so far. */
  lemma {:induction false} ListingAgrees(rows: map<string, Row>, columns: seq<string>, indexed: set<string>, es: Entries,
                                         c: string, pks: seq<string>, n: nat)
    requires RowsOk(rows, columns) && Agrees(rows, columns, indexed, es) && c in columns && n <= |pks|
    requires forall pk :: pk in pks ==> pk in rows
    requires forall pk :: pk in pks[..n] ==> SEP !in pk
    ensures var now := Listing(es, rows, c, Position(columns, c), pks, n);
            && OthersAgree(rows, columns, indexed, now, c)
            && ColumnAgrees(ListedRows(rows, c in indexed, pks, n), now, c, Position(columns, c))
  {
    if n == 0 {
      NewIndex(rows, columns, indexed, es, c, pks);
    } else {
      var ci := Position(columns, c);
      assert pks[..n] == pks[..n - 1] + [pks[n - 1]] && pks[n - 1] in pks;
      ListingAgrees(rows, columns, indexed, es, c, pks, n - 1);
      var listed := ListedRows(rows, c in indexed, pks, n - 1);
      ListRow(rows, columns, indexed, Listing(es, rows, c, ci, pks, n - 1), c, listed, pks[n - 1]);
      ListedNext(rows, c in indexed, pks, n - 1);
    }
  }

  lemma ListedNext(rows: map<string, Row>, had: bool, pks: seq<string>, n: nat)
    requires n < |pks| && pks[n] in rows
    ensures ListedRows(rows, had, pks, n + 1) == ListedRows(rows, had, pks, n)[pks[n] := rows[pks[n]]]
  {
    assert pks[..n + 1] == pks[..n] + [pks[n]];
  }

  lemma NewIndex(rows: map<string, Row>, columns: seq<string>, indexed: set<string>, es: Entries, c: string,
                 pks: seq<string>)
    requires Agrees(rows, columns, indexed, es) && c in columns
    ensures OthersAgree(rows, columns, indexed, es, c)
    ensures ColumnAgrees(ListedRows(rows, c in indexed, pks, 0), es, c, Position(columns, c))
  {
    if c in indexed {
      assert ListedRows(rows, true, pks, 0) == rows;
    } else {
      assert ListedRows(rows, false, pks, 0) == map[];
      assert forall v: string :: (c, v).0 == c;
      assert forall v :: Pks(es, c, v) == [];
    }
  }

  lemma ListRow(rows: map<string, Row>, columns: seq<string>, indexed: set<string>, es: Entries, c: string,
                listed: map<string, Row>, pk: string)
    requires RowsOk(rows, columns) && OthersAgree(rows, columns, indexed, es, c) && c in columns && pk in rows
    requires SEP !in pk
    requires ColumnAgrees(listed, es, c, Position(columns, c)) && (pk in listed ==> listed[pk] == rows[pk])
    ensures var now := EntriesWith(es, {(c, rows[pk][Position(columns, c)])}, pk);
            && OthersAgree(rows, columns, indexed, now, c)
            && ColumnAgrees(listed[pk := rows[pk]], now, c, Position(columns, c))
  {
    var ci := Position(columns, c);
    var v := rows[pk][ci];
    var now := EntriesWith(es, {(c, v)}, pk);
    if pk in listed {
      assert Matches(listed, ci, pk, v) && pk in Pks(es, c, v);
      assert listed[pk := rows[pk]] == listed && now == es;
    } else {
      OneMore(listed, es, c, ci, pk, rows[pk]);
    }
    OthersKept(rows, columns, indexed, es, now, c);
  }

  lemma OthersKept(rows: map<string, Row>, columns: seq<string>, indexed: set<string>, es: Entries, es': Entries,
                   c: string)
    requires OthersAgree(rows, columns, indexed, es, c)
    requires forall key: (string, string) :: key.0 != c ==>
               (key in es' <==> key in es) && (key in es' && key in es ==> es'[key] == es[key])
    ensures OthersAgree(rows, columns, indexed, es', c)
  {
    forall d | d in indexed && d in columns && d != c ensures ColumnAgrees(rows, es', d, Position(columns, d)) {
      assert forall v: string :: (d, v).0 != c;
      OtherColumn(rows, es, es', d, Position(columns, d));
    }
    forall key | key in es' && key.0 != c ensures key.0 in indexed && key.0 in columns {
      assert key in es;
    }
  }

  /** After all rows have been listed the indexes agree exactly if no key contains the separator. */
  lemma IndexBuilt(rows: map<string, Row>, columns: seq<string>, indexed: set<string>, es: Entries, c: string,
                   pks: seq<string>)
    requires RowsOk(rows, columns) && Agrees(rows, columns, indexed, es) && c in columns
    requires forall pk :: pk in pks <==> pk in rows
    ensures Agrees(rows, columns, indexed + {c}, Listing(es, rows, c, Position(columns, c), pks, |pks|)) <==>
            PlainKeys(rows)
  {
    if PlainKeys(rows) {
      forall pk | pk in pks ensures SEP !in pk {
        assert rows[pk] == rows[pk];
      }
      AllListed(rows, columns, indexed, es, c, pks);
    } else {
      var pk :| pk in rows && SEP in pk;
      SeparatorDisagrees(rows, Listing(es, rows, c, Position(columns, c), pks, |pks|), c, Position(columns, c), pk);
      assert c in indexed + {c};
    }
  }

  lemma AllListed(rows: map<string, Row>, columns: seq<string>, indexed: set<string>, es: Entries, c: string,
                  pks: seq<string>)
    requires RowsOk(rows, columns) && Agrees(rows, columns, indexed, es) && c in columns
    requires (forall pk :: pk in pks <==> pk in rows) && forall pk :: pk in pks ==> SEP !in pk
    ensures Agrees(rows, columns, indexed + {c}, Listing(es, rows, c, Position(columns, c), pks, |pks|))
  {
    var now := Listing(es, rows, c, Position(columns, c), pks, |pks|);
    assert pks[..|pks|] == pks;
    ListingAgrees(rows, columns, indexed, es, c, pks, |pks|);
    assert ListedRows(rows, c in indexed, pks, |pks|) == rows;
    forall d | d in indexed + {c} && d in columns ensures ColumnAgrees(rows, now, d, Position(columns, d)) {
      assert d != c ==> d in indexed;
    }
  }

  /** A row whose entry key is too long is in no index of the column. */
  lemma LeftOut(table: string, rows: map<string, Row>, columns: seq<string>, indexed: set<string>, es: Entries, c: string,
                pk: string)
    requires RowsOk(rows, columns) && c in columns && c in indexed && pk in rows && EntriesFit(table, es)
    requires !RowFits(table, rows, columns, c, pk)
    ensures !Agrees(rows, columns, indexed, es)
  {
    MissingDisagrees(rows, es, c, Position(columns, c), pk);
  }

  /** If no key begins like an overflow handle, neither does an entry. */
  lemma AgreesReadable(rows: map<string, Row>, columns: seq<string>, indexed: set<string>, es: Entries)
    requires Agrees(rows, columns, indexed, es) && NoMagic(rows)
    ensures forall c, v, pk {:trigger pk in Pks(es, c, v)} :: pk in Pks(es, c, v) ==> !("OVRF" <= pk)
    ensures Unmarked(es) && Readable(es)
  {
    forall c, v, pk {:trigger pk in Pks(es, c, v)} | pk in Pks(es, c, v) ensures !("OVRF" <= pk) {
      assert (c, v) in es && (c, v).0 == c;
      assert ColumnAgrees(rows, es, c, Position(columns, c));
      assert Matches(rows, Position(columns, c), pk, v);
    }
    UnmarkedReadable(es);
  }

  lemma {:induction false} ListingReadable(es: Entries, rows: map<string, Row>, c: string, ci: nat, pks: seq<string>,
                                           n: nat)
    requires n <= |pks| && (forall pk :: pk in pks ==> pk in rows && ci < |rows[pk]|)
    requires NoMagic(rows) && Unmarked(es) && Readable(es)
    ensures Unmarked(Listing(es, rows, c, ci, pks, n)) && Readable(Listing(es, rows, c, ci, pks, n))
  {
    if n > 0 {
      assert pks[n - 1] in pks && rows[pks[n - 1]] == rows[pks[n - 1]];
      ListingReadable(es, rows, c, ci, pks, n - 1);
      UnmarkedWith(Listing(es, rows, c, ci, pks, n - 1), {(c, rows[pks[n - 1]][ci])}, pks[n - 1]);
    }
  }

  // ---- DELETE ----

  /** The entries after the first `n` rows have been removed. */
  ghost function Deleting(es: Entries, rows: map<string, Row>, columns: seq<string>, indexed: set<string>,
                          pks: seq<string>, n: nat): Entries
    requires n <= |pks| && forall pk :: pk in pks ==> pk in rows && |rows[pk]| == |columns|
  {
    if n == 0 then es
    else
      assert pks[n - 1] in pks;
      EntriesWithout(Deleting(es, rows, columns, indexed, pks, n - 1), RowEntries(columns, indexed, rows[pks[n - 1]]),
                     pks[n - 1])
  }

  /** The state of a DELETE after `i` rows. */
  ghost predicate DeletedTo(rows: map<string, Row>, es: Entries, columns: seq<string>, indexed: set<string>,
                            pks: seq<string>, i: nat, rows': map<string, Row>, es': Entries) {
    && i <= |pks| && (forall pk :: pk in pks ==> pk in rows && |rows[pk]| == |columns|)
    && rows' == rows - Firsts(pks, i) && es' == Deleting(es, rows, columns, indexed, pks, i)
  }

  lemma NothingDeleted(rows: map<string, Row>, es: Entries, columns: seq<string>, indexed: set<string>, pks: seq<string>)
    requires RowsOk(rows, columns) && forall pk :: pk in pks ==> pk in rows
    ensures DeletedTo(rows, es, columns, indexed, pks, 0, rows, es)
  {
    assert Firsts(pks, 0) == {} && rows - {} == rows;
  }

  lemma FewerRows(rows: map<string, Row>, columns: seq<string>, unique: set<string>, pk: string)
    requires RowsOk(rows, columns) && UniqueHeld(rows, columns, unique)
    ensures RowsOk(rows - {pk}, columns) && UniqueHeld(rows - {pk}, columns, unique)
  {
    forall c | c in unique && c in columns ensures ColumnUnique(rows - {pk}, Position(columns, c)) {
      FewerUnique(rows, Position(columns, c), pk);
    }
  }

  ghost function Firsts(pks: seq<string>, i: nat): set<string>
    requires i <= |pks|
  {
    set j | 0 <= j < i :: pks[j]
  }

  lemma DeleteStep(rows: map<string, Row>, pks: seq<string>, i: nat)
    requires i < |pks| && Distinct(pks) && forall pk :: pk in pks ==> pk in rows
    ensures pks[i] in pks && pks[i] in rows - Firsts(pks, i)
    ensures rows - Firsts(pks, i + 1) == (rows - Firsts(pks, i)) - {pks[i]}
  {
    assert pks[i] in pks && pks[i] !in Firsts(pks, i);
    assert Firsts(pks, i + 1) == Firsts(pks, i) + {pks[i]};
  }

  lemma AllFirsts(pks: seq<string>, keys: set<string>)
    requires forall pk :: pk in pks <==> pk in keys
    ensures Firsts(pks, |pks|) == keys && (keys != {} <==> pks != [])
  {
    forall pk | pk in keys ensures pk in Firsts(pks, |pks|) {
      var j :| 0 <= j < |pks| && pks[j] == pk;
    }
    assert pks != [] ==> pks[0] in keys;
  }

  // ---- UPDATE ----

  /** Another row has the value. */
  ghost predicate OtherHas(rows: map<string, Row>, ci: nat, pk: string, val: string) {
    exists other :: Matches(rows - {pk}, ci, other, val)
  }

  /** Two rows have the value. */
  ghost predicate TwoHave(rows: map<string, Row>, ci: nat, val: string) {
    exists p, q :: p != q && Matches(rows, ci, p, val) && Matches(rows, ci, q, val)
  }

  /** The entries after a row has got another value. */
  ghost function Reindexed(es: Entries, indexed: set<string>, c: string, was: string, val: string, pk: string): Entries {
    if c in indexed then Changed(es, c, was, val, pk) else es
  }

  /** The entries after the first `n` rows have been changed. */
  ghost function Updating(es: Entries, rows: map<string, Row>, indexed: set<string>, c: string, ci: nat, val: string,
                          pks: seq<string>, n: nat): Entries
    requires n <= |pks| && forall pk :: pk in pks ==> pk in rows && ci < |rows[pk]|
  {
    if n == 0 then es
    else
      assert pks[n - 1] in pks;
      Reindexed(Updating(es, rows, indexed, c, ci, val, pks, n - 1), indexed, c, rows[pks[n - 1]][ci], val, pks[n - 1])
  }

  /** The state of an UPDATE after `i` rows. */
  ghost predicate UpdatedTo(rows: map<string, Row>, es: Entries, indexed: set<string>, c: string, ci: nat, val: string,
                            pks: seq<string>, i: nat, rows': map<string, Row>, es': Entries) {
    && i <= |pks| && (forall pk :: pk in rows ==> ci < |rows[pk]|) && (forall pk :: pk in pks ==> pk in rows)
    && rows' == Updated(rows, ci, val, Firsts(pks, i)) && es' == Updating(es, rows, indexed, c, ci, val, pks, i)
  }

  lemma NothingUpdated(rows: map<string, Row>, es: Entries, columns: seq<string>, indexed: set<string>, c: string,
                       val: string, pks: seq<string>)
    requires RowsOk(rows, columns) && c in columns && forall pk :: pk in pks ==> pk in rows
    ensures UpdatedTo(rows, es, indexed, c, Position(columns, c), val, pks, 0, rows, es)
  {
    assert Firsts(pks, 0) == {};
    assert Updated(rows, Position(columns, c), val, {}) == rows;
  }

  /** When the entry of a row is gone, the index of the column disagrees, and an entry for the new value is there exactly
      if another row has it. */
  lemma EntryGone(table: string, rows: map<string, Row>, columns: seq<string>, indexed: set<string>, es: Entries,
                  c: string, pk: string, val: string)
    requires RowsOk(rows, columns) && Agrees(rows, columns, indexed, es) && EntriesFit(table, es)
    requires c in indexed && c in columns && pk in rows
    ensures var es' := EntriesWithout(es, {(c, rows[pk][Position(columns, c)])}, pk);
            && SEP !in pk && pk !in Pks(es', c, val) && !Agrees(rows, columns, indexed, es')
            && ((c, val) in es' <==> OtherHas(rows, Position(columns, c), pk, val))
            && ((c, val) in es' ==> KeyFits(EntryKey(table, c, val)))
  {
    var ci := Position(columns, c);
    var was := rows[pk][ci];
    var es' := EntriesWithout(es, {(c, was)}, pk);
    if SEP in pk {
      SeparatorDisagrees(rows, es, c, ci, pk);
    }
    GoneFromColumn(rows, es, c, ci, pk);
    assert !Matches(rows - {pk}, ci, pk, was) && !Matches(rows - {pk}, ci, pk, val);
    MissingDisagrees(rows, es', c, ci, pk);
    EntryMeans(rows - {pk}, es', c, ci, val);
    assert (c, val) in es' ==> (c, val) in es;
  }

  lemma EntryMeans(rows: map<string, Row>, es: Entries, c: string, ci: nat, v: string)
    requires ColumnAgrees(rows, es, c, ci)
    ensures (c, v) in es <==> exists other :: Matches(rows, ci, other, v)
  {
    if (c, v) in es {
      assert Pks(es, c, v)[0] in Pks(es, c, v);
      assert Matches(rows, ci, Pks(es, c, v)[0], v);
    } else {
      assert Pks(es, c, v) == [];
    }
  }

  lemma ReadableChange(rows: map<string, Row>, columns: seq<string>, indexed: set<string>, es: Entries, c: string,
                       pk: string, val: string)
    requires RowsOk(rows, columns) && Agrees(rows, columns, indexed, es) && NoMagic(rows)
    requires c in indexed && c in columns && pk in rows && SEP !in pk
    ensures var was := rows[pk][Position(columns, c)];
            Readable(es) && Readable(EntriesWithout(es, {(c, was)}, pk)) && Readable(Changed(es, c, was, val, pk))
  {
    var ci := Position(columns, c);
    var after := rows[pk := rows[pk][ci := val]];
    AgreesReadable(rows, columns, indexed, es);
    UnmarkedWithout(es, {(c, rows[pk][ci])}, pk);
    AgreesChanged(rows, columns, indexed, es, c, pk, val);
    AgreesReadable(after, columns, indexed, Changed(es, c, rows[pk][ci], val, pk));
  }

  /** What taking a row out of the index of column `c` leaves, before its new value is put in. */
  ghost predicate Leaves(table: string, rows: map<string, Row>, columns: seq<string>, indexed: set<string>, es: Entries,
                         c: string, pk: string, val: string)
    requires RowsOk(rows, columns) && c in columns && pk in rows
  {
    var was := rows[pk][Position(columns, c)];
    var left := EntriesWithout(es, {(c, was)}, pk);
    c in indexed ==>
      && SEP !in pk && pk !in Pks(left, c, val) && !Agrees(rows, columns, indexed, left)
      && ((c, val) in left <==> OtherHas(rows, Position(columns, c), pk, val))
      && ((c, val) in left ==> KeyFits(EntryKey(table, c, val)))
      && (NoMagic(rows) ==> Readable(es) && Readable(left) && Readable(Changed(es, c, was, val, pk)))
  }

  lemma EntryLeaves(table: string, rows: map<string, Row>, columns: seq<string>, indexed: set<string>, es: Entries,
                    c: string, pk: string, val: string)
    requires RowsOk(rows, columns) && Agrees(rows, columns, indexed, es) && EntriesFit(table, es)
    requires c in columns && pk in rows
    ensures Leaves(table, rows, columns, indexed, es, c, pk, val)
  {
    if c in indexed {
      EntryGone(table, rows, columns, indexed, es, c, pk, val);
      if NoMagic(rows) {
        ReadableChange(rows, columns, indexed, es, c, pk, val);
      }
    }
  }

  lemma UpdateAgrees(table: string, rows: map<string, Row>, columns: seq<string>, indexed: set<string>, es: Entries,
                     c: string, pk: string, val: string)
    requires RowsOk(rows, columns) && Agrees(rows, columns, indexed, es) && EntriesFit(table, es)
    requires c in columns && pk in rows && (c in indexed ==> KeyFits(EntryKey(table, c, val)))
    ensures var ci := Position(columns, c);
            var es' := Reindexed(es, indexed, c, rows[pk][ci], val, pk);
            Agrees(rows[pk := rows[pk][ci := val]], columns, indexed, es') && EntriesFit(table, es')
  {
    if c in indexed {
      EntryGone(table, rows, columns, indexed, es, c, pk, val);
      AgreesChanged(rows, columns, indexed, es, c, pk, val);
      ChangedFits(table, es, c, rows[pk][Position(columns, c)], val, pk);
    } else {
      AgreesUnindexed(rows, columns, indexed, es, c, pk, val);
    }
  }

  lemma ChangedFits(table: string, es: Entries, c: string, was: string, val: string, pk: string)
    requires EntriesFit(table, es) && KeyFits(EntryKey(table, c, val))
    ensures EntriesFit(table, Changed(es, c, was, val, pk))
  {
    forall key | key in Changed(es, c, was, val, pk) ensures KeyFits(EntryKey(table, key.0, key.1)) {
      assert key != (c, val) ==> key in es;
    }
  }

  lemma UpdateUnique(rows: map<string, Row>, columns: seq<string>, declared: set<string>, c: string, pk: string,
                     val: string)
    requires RowsOk(rows, columns) && UniqueHeld(rows, columns, Enforced(columns, declared))
    requires pk in rows && c in columns && (c in declared ==> !OtherHas(rows, Position(columns, c), pk, val))
    ensures var after := rows[pk := rows[pk][Position(columns, c) := val]];
            RowsOk(after, columns) && UniqueHeld(after, columns, Enforced(columns, declared))
  {
    var ci := Position(columns, c);
    var row := rows[pk][ci := val];
    forall d | d in Enforced(columns, declared) ensures ColumnUnique(rows[pk := row], Position(columns, d)) {
      if d == c {
        FewerUnique(rows, ci, pk);
        FreshUnique(rows - {pk}, ci, pk, row);
        assert (rows - {pk})[pk := row] == rows[pk := row];
      } else {
        ChangedUnique(rows, Position(columns, d), pk, row);
      }
    }
  }

  /** Rows are stored under their keys after an update exactly if it did not change a key. */
  lemma KeysAfterUpdate(rows: map<string, Row>, columns: seq<string>, ci: nat, val: string, keys: set<string>)
    requires RowsOk(rows, columns) && KeysMatch(rows) && ci < |columns| && keys <= rows.Keys
    ensures KeysMatch(Updated(rows, ci, val, keys)) <==> ci != 0 || keys <= {val}
  {
    var after := Updated(rows, ci, val, keys);
    if KeysMatch(after) && ci == 0 {
      forall pk | pk in keys ensures pk == val {
        assert after[pk] == rows[pk][0 := val];
      }
    }
  }

  lemma SameMagic(rows: map<string, Row>, ci: nat, val: string, keys: set<string>)
    requires forall pk :: pk in rows ==> ci < |rows[pk]|
    ensures NoMagic(Updated(rows, ci, val, keys)) <==> NoMagic(rows)
  {
    var after := Updated(rows, ci, val, keys);
    if NoMagic(after) {
      forall pk | pk in rows ensures !("OVRF" <= pk) {
        assert after[pk] == after[pk];
      }
    }
  }

  lemma UpdateStep(rows: map<string, Row>, ci: nat, val: string, pks: seq<string>, i: nat)
    requires (forall pk :: pk in rows ==> ci < |rows[pk]|) && i < |pks| && pks[i] in rows && Distinct(pks)
    ensures var now := Updated(rows, ci, val, Firsts(pks, i));
            && now[pks[i]] == rows[pks[i]]
            && Updated(rows, ci, val, Firsts(pks, i + 1)) == now[pks[i] := now[pks[i]][ci := val]]
  {
    assert pks[i] !in Firsts(pks, i);
    assert Firsts(pks, i + 1) == Firsts(pks, i) + {pks[i]};
  }

  lemma NotTwo(rows: map<string, Row>, ci: nat, pk: string, val: string)
    requires pk in rows && ci < |rows[pk]|
    ensures TwoHave(rows[pk := rows[pk][ci := val]], ci, val) ==> OtherHas(rows, ci, pk, val)
  {
    var after := rows[pk := rows[pk][ci := val]];
    if TwoHave(after, ci, val) {
      var p, q :| p != q && Matches(after, ci, p, val) && Matches(after, ci, q, val);
      assert Matches(rows - {pk}, ci, if p == pk then q else p, val);
    }
  }

  /** Two rows that have the value in the course of an UPDATE have it at its end. */
  lemma StillTwo(rows: map<string, Row>, ci: nat, val: string, done: set<string>, keys: set<string>, pk: string)
    requires (forall pk :: pk in rows ==> ci < |rows[pk]|) && done <= keys && pk in keys && pk in rows
    ensures OtherHas(Updated(rows, ci, val, done), ci, pk, val) ==> TwoHave(Updated(rows, ci, val, keys), ci, val)
  {
    var now, after := Updated(rows, ci, val, done), Updated(rows, ci, val, keys);
    if OtherHas(now, ci, pk, val) {
      var other :| Matches(now - {pk}, ci, other, val);
      assert Matches(after, ci, pk, val) && Matches(after, ci, other, val);
    }
  }

  // ---- SELECT ----

  function KeyOf(condition: Condition): (string, string) {
    (condition.column, condition.val)
  }

  /** SELECT uses an index entry if there is one, whether or not the column has an index. */
  predicate ByEntry(es: Entries, where: Option<Condition>) {
    where.Some? && KeyOf(where.value) in es
  }

  /** Those of the keys that have a row. */
  function Present(rows: map<string, Row>, pks: seq<string>): (found: seq<string>)
    ensures forall pk :: pk in found ==> pk in rows
  {
    if pks == [] then []
    else
      var last := pks[|pks| - 1];
      Present(rows, pks[..|pks| - 1]) + (if last in rows then [last] else [])
  }

  lemma {:induction false} AllPresent(rows: map<string, Row>, pks: seq<string>)
    requires forall pk :: pk in pks ==> pk in rows
    ensures Present(rows, pks) == pks
  {
    if pks != [] {
      assert pks[|pks| - 1] in pks;
      AllPresent(rows, pks[..|pks| - 1]);
    }
  }

  /** An index entry lists exactly the selected rows. */
  lemma EntrySelects(rows: map<string, Row>, columns: seq<string>, indexed: set<string>, es: Entries, column: string,
                     val: string)
    requires RowsOk(rows, columns) && Agrees(rows, columns, indexed, es) && (column, val) in es
    ensures column in columns && Distinct(Split(es[(column, val)]))
    ensures forall pk :: pk in Split(es[(column, val)]) <==>
              pk in SelectedKeys(rows, columns, Some(Equals(column, val)))
  {
    assert (column, val).0 == column;
    assert ColumnAgrees(rows, es, column, Position(columns, column));
    assert Pks(es, column, val) == Split(es[(column, val)]);
    forall pk ensures pk in Pks(es, column, val) <==> pk in SelectedKeys(rows, columns, Some(Equals(column, val))) {
      assert pk in Pks(es, column, val) <==> Matches(rows, Position(columns, column), pk, val);
    }
  }

  function RowsOf(rows: map<string, Row>, pks: seq<string>): seq<Row>
    requires forall pk :: pk in pks ==> pk in rows
  {
    seq(|pks|, i requires 0 <= i < |pks| => rows[pks[i]])
  }

  /** A list of the keys of the selected rows. */
  ghost predicate Selection(rows: map<string, Row>, columns: seq<string>, where: Option<Condition>, pks: seq<string>)
    requires RowsOk(rows, columns) && (where.Some? ==> where.value.column in columns)
  {
    Distinct(pks) && forall pk :: pk in pks <==> pk in SelectedKeys(rows, columns, where)
  }

  /** The lists have the same keys, each once. */
  ghost predicate SameKeys(pks: seq<string>, qks: seq<string>) {
    Distinct(pks) && Distinct(qks) && forall pk :: pk in pks <==> pk in qks
  }

  /** Two lists of the same keys give the same rows up to order: the index path and the scan path of SELECT agree. */
  lemma {:induction false} SameSelection(rows: map<string, Row>, pks: seq<string>, qks: seq<string>)
    requires SameKeys(pks, qks) && (forall pk :: pk in pks ==> pk in rows) && forall pk :: pk in qks ==> pk in rows
    ensures multiset(RowsOf(rows, pks)) == multiset(RowsOf(rows, qks))
  {
    if pks == [] || qks == [] {
      NoKeys(pks, qks);
    } else {
      var last := pks[|pks| - 1];
      var j := DropKey(pks, qks);
      SameSelection(rows, pks[..|pks| - 1], RemoveAt(qks, j));
      assert RowsOf(rows, pks) == RowsOf(rows, pks[..|pks| - 1]) + [rows[last]];
      assert RowsOf(rows, RemoveAt(qks, j)) == RemoveAt(RowsOf(rows, qks), j);
      WithoutOne(RowsOf(rows, qks), j);
    }
  }

  lemma NoKeys(pks: seq<string>, qks: seq<string>)
    requires SameKeys(pks, qks) && (pks == [] || qks == [])
    ensures pks == qks
  {
    var p, q := if pks == [] then "" else pks[0], if qks == [] then "" else qks[0];
    assert (pks != [] ==> p in pks) && (qks != [] ==> q in qks);
  }

  lemma DropKey(pks: seq<string>, qks: seq<string>) returns (j: nat)
    requires SameKeys(pks, qks) && pks != []
    ensures j < |qks| && qks[j] == pks[|pks| - 1] && SameKeys(pks[..|pks| - 1], RemoveAt(qks, j))
    ensures forall q :: q in RemoveAt(qks, j) ==> q in qks
  {
    var last := pks[|pks| - 1];
    assert last in pks;
    j :| 0 <= j < |qks| && qks[j] == last;
    DistinctRemove(qks, j);
    DistinctRemove(pks, |pks| - 1);
    assert RemoveAt(pks, |pks| - 1) == pks[..|pks| - 1];
  }

  lemma DistinctRemove(pks: seq<string>, j: nat)
    requires Distinct(pks) && j < |pks|
    ensures Distinct(RemoveAt(pks, j))
    ensures forall p :: p in RemoveAt(pks, j) <==> p in pks && p != pks[j]
  {
    assert pks == pks[..j] + [pks[j]] + pks[j + 1..];
  }

  lemma WithoutOne(s: seq<Row>, j: nat)
    requires j < |s|
    ensures multiset(s) == multiset(RemoveAt(s, j)) + multiset{s[j]}
  {
    assert s == s[..j] + [s[j]] + s[j + 1..];
  }
}
