/** Runs of statements that leave a table out of order, for any short names and values. */
module TableLimits {
  import opened Common
  import opened Text
  import opened SecondaryIndex
  import opened Tables

  // ---- Short and long texts ----

  /** At most 100 bytes long, without separator, and not beginning like an overflow handle. */
  predicate Plain(s: string) {
    |Utf8(s)| <= 100 && SEP !in s && !("OVRF" <= s)
  }

  lemma ShortPlain(s: string)
    requires |s| <= 25 && SEP !in s && !("OVRF" <= s)
    ensures Plain(s)
  {
    AtMostFourBytes(s);
  }

  lemma {:induction false} AtMostFourBytes(s: string)
    ensures |Utf8(s)| <= 4 * |s|
  {
    if s != "" {
      AtMostFourBytes(s[..|s| - 1]);
    }
  }

  lemma FixedParts()
    ensures |Utf8(":")| == 1 && |Utf8("_")| == 1 && |Utf8("idx_")| == 4
    ensures |Utf8("__index__:")| == 10 && |Utf8(PREFIX)| == 11
  {
    ShortBytes(":");
    ShortBytes("_");
    ShortBytes("idx_");
    ShortBytes("__index__:");
    ShortBytes(PREFIX);
  }

  lemma ThreeParts(a: string, b: string, c: string)
    ensures |Utf8(a + b + c)| == |Utf8(a)| + |Utf8(b)| + |Utf8(c)|
  {
    Utf8Concat(a, b);
    Utf8Concat(a + b, c);
  }

  lemma FourParts(a: string, b: string, c: string, d: string)
    ensures |Utf8(a + b + c + d)| == |Utf8(a)| + |Utf8(b)| + |Utf8(c)| + |Utf8(d)|
  {
    ThreeParts(a, b, c);
    Utf8Concat(a + b + c, d);
  }

  /** The key of a row is not too long exactly if table name and primary key have at most 1023 bytes together. */
  lemma RowKeyLimit(table: string, pk: string)
    ensures KeyFits(RowKey(table, pk)) <==> |Utf8(table)| + |Utf8(pk)| <= 1023
  {
    FixedParts();
    ThreeParts(table, ":", pk);
  }

  /** The key of an index is not too long exactly if table and index name have at most 1013 bytes together. */
  lemma MetaKeyLimit(table: string, index: string)
    ensures KeyFits(MetaKey(table, index)) <==> |Utf8(table)| + |Utf8(index)| <= 1013
  {
    FixedParts();
    FourParts("__index__:", table, ":", index);
  }

  /** For the index of a UNIQUE column that is twice the table name and the column name, with at most 1008 bytes. */
  lemma ImplicitKeyLimit(table: string, c: string)
    ensures KeyFits(MetaKey(table, ImplicitName(table, c))) <==> 2 * |Utf8(table)| + |Utf8(c)| <= 1008
  {
    FixedParts();
    FourParts("idx_", table, "_", c);
    MetaKeyLimit(table, ImplicitName(table, c));
  }

  /** The key of an entry is not too long exactly if table, column and value have at most 1011 bytes together. */
  lemma EntryKeyLimit(table: string, c: string, v: string)
    ensures KeyFits(EntryKey(table, c, v)) <==> |Utf8(table)| + |Utf8(c)| + |Utf8(v)| <= 1011
  {
    FixedParts();
    FourParts(PREFIX, table, ":", c);
    ThreeParts(PREFIX + table + ":" + c, ":", v);
  }

  /** The values of a column whose entry keys are too long. */
  predicate Overlong(table: string, c: string, w: string) {
    |Utf8(table)| + |Utf8(c)| + |Utf8(w)| > 1011
  }

  // ---- INSERT ----

  /** The first row of a table with an index of its second column. */
  lemma FirstRow(table: string, columns: seq<string>, u: string, indexes: map<string, string>, row: Row)
    requires Plain(table) && Plain(u) && |columns| == |row| == 2 && columns[0] != columns[1] == u
    requires Plain(row[0]) && Plain(row[1]) && indexes.Values == {u}
    ensures !Clashes(map[], columns, {u}, indexes, row) && !TooLong(table, columns, indexes.Values, row)
    ensures EntriesWith(map[], RowEntries(columns, indexes.Values, row), row[0]) == map[(u, row[1]) := row[0]]
    ensures KeepsOrder(map[], columns, indexes.Values, row)
  {
    var rows: map<string, Row> := map[];
    assert Position(columns, u) == 1;
    assert RowEntries(columns, {u}, row) == {(u, row[1])};
    assert EntriesWith(map[], {(u, row[1])}, row[0]) == map[(u, row[1]) := row[0]];
    UnmarkedWith(map[], {(u, row[1])}, row[0]);
    assert forall ci: nat, p, w :: !Matches(rows, ci, p, w);
    EntryKeyLimit(table, u, row[1]);
  }

  /** A new table with a key and a UNIQUE column. */
  method TwoColumns(name: string, id: string, u: string) returns (t: Table)
    requires Plain(name) && Plain(u) && id != u
    ensures fresh(t) && t.Valid() && t.name == name && t.columns == [id, u] && t.declared == {u}
    ensures t.rows == map[] && t.indexes.Values == {u} && t.entries == map[]
    ensures !TwiceIndexed(t.indexes, t.columns, {u})
  {
    ImplicitKeyLimit(name, u);
    HandleText(u);
    t := new Table(name, [id, u], {u});
  }

  /** A row that can be stored and indexed is. */
  method InsertRow(t: Table, row: Row)
    requires t.Valid() && |row| == |t.columns| && row[0] !in t.rows && KeyFits(RowKey(t.name, row[0])) && SEP !in row[0]
    requires !Clashes(t.rows, t.columns, t.declared, t.indexes, row) && !TooLong(t.name, t.columns, t.indexes.Values, row)
    requires KeepsOrder(t.entries, t.columns, t.indexes.Values, row)
    modifies t`rows, t`entries
    ensures t.Valid() && t.rows == old(t.rows)[row[0] := row]
    ensures t.entries == EntriesWith(old(t.entries), RowEntries(t.columns, t.indexes.Values, row), row[0])
  {
    var r := t.Insert(row, false);
    assert r != Err(CountMismatch) && r != Err(KeyExists) && r != Err(KeyTooLong);
    assert r != Err(UniqueViolation) && r != Err(EntryTooLong) && r != Err(Misread);
    assert r.Ok?;
  }

  /** Its first row. */
  method OneRow(name: string, id: string, u: string, pk: string, v: string) returns (t: Table)
    requires Plain(name) && Plain(u) && Plain(pk) && Plain(v) && id != u
    ensures fresh(t) && t.Valid() && t.name == name && t.columns == [id, u] && t.declared == {u}
    ensures t.rows == map[pk := [pk, v]] && t.indexes.Values == {u} && t.entries == map[(u, v) := pk]
  {
    t := TwoColumns(name, id, u);
    RowKeyLimit(name, pk);
    FirstRow(name, t.columns, u, t.indexes, [pk, v]);
    InsertRow(t, [pk, v]);
  }

  /** INSERT of a repeated UNIQUE value fails, but the row is there. */
  method ViolationLeavesRow(name: string, id: string, u: string, pk: string, v: string, qk: string)
    returns (t: Table, r: Result<(), SqlError>)
    requires Plain(name) && Plain(u) && Plain(pk) && Plain(v) && Plain(qk) && !SameName(id, u) && pk != qk
    ensures r == Err(UniqueViolation) && qk in t.rows && !t.Valid()
  {
    t := OneRow(name, id, u, pk, v);
    RowKeyLimit(name, qk);
    Repeated(name, t.columns, u, t.indexes, t.rows, pk, [qk, v]);
    PlainKeepsOrder(t.rows, t.columns, t.indexes.Values, t.entries, [qk, v]);
    r := t.Insert([qk, v], false);
    assert r != Err(CountMismatch) && r != Err(KeyExists) && r != Err(KeyTooLong);
    assert !r.Ok? && r != Err(EntryTooLong) && r != Err(Misread);
  }

  lemma Repeated(table: string, columns: seq<string>, u: string, indexes: map<string, string>, rows: map<string, Row>,
                 pk: string, row: Row)
    requires Plain(table) && Plain(u) && |columns| == |row| == 2 && !SameName(columns[0], u) && columns[1] == u
    requires indexes.Values == {u} && Plain(row[1]) && Matches(rows, 1, pk, row[1])
    ensures Clashes(rows, columns, {u}, indexes, row) && !TooLong(table, columns, indexes.Values, row)
  {
    assert SameName(u, u) && TakenForUnique(columns, {u}, u);
    assert columns[0] != u && Position(columns, u) == 1;
    assert u in Checked(columns, {u}, indexes.Values) && Taken(rows, columns, u, row);
    EntryKeyLimit(table, u, row[1]);
  }

  /** INSERT of a key with the separator leaves the index of the other column in disagreement. */
  method SeparatorSpoils(name: string, id: string, u: string, pk: string, v: string, qk: string, w: string)
    returns (t: Table, r: Result<(), SqlError>)
    requires Plain(name) && Plain(u) && Plain(pk) && Plain(v) && id != u
    requires SEP in qk && KeyFits(RowKey(name, qk))
    ensures r != Err(CountMismatch) && r != Err(KeyExists) && r != Err(KeyTooLong) && !t.Valid()
  {
    t := OneRow(name, id, u, pk, v);
    assert t.columns[1] == u && AnyIndexed(t.columns, t.indexes.Values);
    r := t.Insert([qk, w], false);
  }

  /** INSERT of a value whose entry key is too long fails, but the row is there, and no index has it. */
  method LongValueLeavesRow(name: string, id: string, u: string, pk: string, v: string, qk: string, w: string)
    returns (t: Table, r: Result<(), SqlError>)
    requires Plain(name) && Plain(u) && Plain(pk) && Plain(v) && Plain(qk) && id != u && pk != qk && Overlong(name, u, w)
    ensures r == Err(EntryTooLong) && t.rows == map[pk := [pk, v], qk := [qk, w]] && !t.Valid()
  {
    t := OneRow(name, id, u, pk, v);
    RowKeyLimit(name, qk);
    var row := [qk, w];
    EntryKeyLimit(name, u, w);
    assert t.columns[0] != u && t.columns[1] == u && Position(t.columns, u) == 1 && row[1] == w;
    assert TooLong(name, t.columns, t.indexes.Values, row);
    assert w != v;
    OtherValue(t.columns, u, t.declared, t.indexes, t.rows, row);
    PlainKeepsOrder(t.rows, t.columns, t.indexes.Values, t.entries, row);
    r := t.Insert(row, false);
    assert r != Err(CountMismatch) && r != Err(KeyExists) && r != Err(KeyTooLong);
    assert !r.Ok? && r != Err(UniqueViolation) && r != Err(Misread);
  }

  lemma OtherValue(columns: seq<string>, u: string, declared: set<string>, indexes: map<string, string>,
                   rows: map<string, Row>, row: Row)
    requires |columns| == |row| == 2 && columns[0] != columns[1] == u && indexes.Values == {u} && SEP !in row[0]
    requires forall p :: !Matches(rows, 1, p, row[1])
    ensures !Clashes(rows, columns, declared, indexes, row)
  {
    assert Position(columns, u) == 1;
  }

  lemma LookalikeRow(table: string, columns: seq<string>, u: string, indexes: map<string, string>, row: Row)
    requires Plain(table) && Plain(u) && |columns| == |row| == 2 && columns[0] != columns[1] == u
    requires indexes.Values == {u} && Plain(row[1]) && LooksLikeHandle(row[0]) && SEP !in row[0]
    ensures KeyFits(RowKey(table, row[0]))
    ensures !Clashes(map[], columns, {u}, indexes, row) && !TooLong(table, columns, indexes.Values, row)
    ensures EntriesWith(map[], RowEntries(columns, indexes.Values, row), row[0]) == map[(u, row[1]) := row[0]]
    ensures !Readable(map[(u, row[1]) := row[0]])
  {
    RowKeyLimit(table, row[0]);
    HandleText(row[0]);
    assert Position(columns, u) == 1 && RowEntries(columns, {u}, row) == {(u, row[1])};
    assert EntriesWith(map[], {(u, row[1])}, row[0]) == map[(u, row[1]) := row[0]];
    assert (u, row[1]) in map[(u, row[1]) := row[0]];
    OtherValue(columns, u, {u}, indexes, map[], row);
    EntryKeyLimit(table, u, row[1]);
  }

  /** INSERT of a key that looks like an overflow handle succeeds, but its index entry cannot be read. */
  method LookalikeKey(name: string, id: string, u: string, pk: string, v: string)
    returns (t: Table, r: Result<(), SqlError>, found: Result<seq<Row>, SqlError>)
    requires Plain(name) && Plain(u) && Plain(v) && id != u
    requires "OVRF" <= pk && |Utf8(pk)| == 12 && SEP !in pk
    ensures r.Ok? && t.rows == map[pk := [pk, v]] && !t.Valid() && found == Err(Misread)
  {
    t := TwoColumns(name, id, u);
    HandleText(pk);
    LookalikeRow(name, t.columns, u, t.indexes, [pk, v]);
    r := InsertFirst(t, [pk, v]);
    ghost var pks;
    found, pks := t.Select(Some(Equals(u, v)));
  }

  /** A first row is stored, whatever its key looks like. */
  method InsertFirst(t: Table, row: Row) returns (r: Result<(), SqlError>)
    requires t.Valid() && t.rows == map[] && |row| == |t.columns| && KeyFits(RowKey(t.name, row[0])) && SEP !in row[0]
    requires !Clashes(map[], t.columns, t.declared, t.indexes, row) && !TooLong(t.name, t.columns, t.indexes.Values, row)
    requires !TwiceIndexed(t.indexes, t.columns, t.indexes.Values)
    modifies t`rows, t`entries
    ensures r.Ok? && t.rows == map[row[0] := row]
    ensures t.entries == EntriesWith(old(t.entries), RowEntries(t.columns, t.indexes.Values, row), row[0])
    ensures t.Valid() <==> KeepsOrder(old(t.entries), t.columns, t.indexes.Values, row)
  {
    r := t.Insert(row, false);
    assert r != Err(CountMismatch) && r != Err(KeyExists) && r != Err(KeyTooLong);
    assert r != Err(UniqueViolation) && r != Err(EntryTooLong) && r != Err(Misread);
  }

  // ---- UPDATE ----

  /** UPDATE of the key column succeeds, but the row is stored under its former key. */
  method KeyUpdateMisplaces(name: string, id: string, u: string, pk: string, v: string, val: string)
    returns (t: Table, r: Result<(), SqlError>)
    requires Plain(name) && Plain(u) && Plain(pk) && Plain(v) && id != u && pk != val
    ensures r.Ok? && t.Consistent() && !t.Valid() && t.rows == map[pk := [val, v]]
  {
    t := OneRow(name, id, u, pk, v);
    ghost var order := [];
    assert t.columns[0] == id && Position(t.columns, id) == 0;
    KeyChanged(t.rows, t.columns, pk, v, val);
    PlainNoMagic(t.rows, pk);
    r, order := t.Update(id, val, None, false);
    assert r.Ok?;
  }

  lemma KeyChanged(rows: map<string, Row>, columns: seq<string>, pk: string, v: string, val: string)
    requires |columns| == 2 && rows == map[pk := [pk, v]]
    ensures RowsOk(rows, columns) && SelectedKeys(rows, columns, None) == {pk}
    ensures Updated(rows, 0, val, {pk}) == map[pk := [val, v]]
  {
    assert rows[pk][0 := val] == [val, v];
  }

  /** UPDATE to a value whose entry key is too long fails, and the row has lost its index entry. */
  method LongUpdateUnlists(name: string, id: string, u: string, pk: string, v: string, w: string)
    returns (t: Table, r: Result<(), SqlError>)
    requires Plain(name) && Plain(u) && Plain(pk) && Plain(v) && id != u && Overlong(name, u, w)
    ensures r == Err(EntryTooLong) && !t.Valid()
  {
    t := OneRow(name, id, u, pk, v);
    ghost var order := [];
    assert t.columns[1] == u;
    assert pk in SelectedKeys(t.rows, t.columns, None);
    EntryKeyLimit(name, u, w);
    PlainNoMagic(t.rows, pk);
    r, order := t.Update(u, w, None, false);
  }

  lemma PlainNoMagic(rows: map<string, Row>, pk: string)
    requires rows.Keys == {pk} && Plain(pk)
    ensures NoMagic(rows)
  {
  }

  // ---- CREATE INDEX ----

  /** A new table without UNIQUE columns, and three rows. */
  method ThreeRows(name: string, id: string, note: string, row1: Row, row2: Row, row3: Row) returns (t: Table)
    requires Plain(name) && |row1| == |row2| == |row3| == 2
    requires Plain(row1[0]) && Plain(row2[0]) && Plain(row3[0]) && row1[0] != row2[0]
    requires row1[0] != row3[0] && row2[0] != row3[0]
    ensures fresh(t) && t.Valid() && t.name == name && t.columns == [id, note] && t.declared == {}
    ensures t.rows == map[row1[0] := row1, row2[0] := row2, row3[0] := row3] && t.indexes == map[] && t.entries == map[]
  {
    t := BareRow(name, id, note, row1);
    InsertUnindexed(t, row2);
    InsertUnindexed(t, row3);
  }

  method BareRow(name: string, id: string, note: string, row: Row) returns (t: Table)
    requires Plain(name) && |row| == 2 && Plain(row[0])
    ensures fresh(t) && t.Valid() && t.name == name && t.columns == [id, note] && t.declared == {}
    ensures t.rows == map[row[0] := row] && t.indexes == map[] && t.entries == map[]
  {
    t := new Table(name, [id, note], {});
    InsertUnindexed(t, row);
  }

  method InsertUnindexed(t: Table, row: Row)
    requires t.Valid() && t.indexes == map[] && t.entries == map[] && Plain(t.name)
    requires |row| == |t.columns| && row[0] !in t.rows && Plain(row[0])
    modifies t`rows, t`entries
    ensures t.Valid() && t.rows == old(t.rows)[row[0] := row] && t.entries == map[]
  {
    RowKeyLimit(t.name, row[0]);
    assert RowEntries(t.columns, t.indexes.Values, row) == {};
    WithNone(t.entries, row[0]);
    InsertRow(t, row);
  }

  /** CREATE INDEX over three rows, of which the second has a value that makes its entry key too long. It fails with the
      index registered and the first row listed, so that a SELECT by the common value of the first and the third row finds
      only the first. */
  method IndexMissesRow(name: string, id: string, note: string, k1: string, k2: string, k3: string, v: string, w: string)
    returns (t: Table, r: Result<(), SqlError>, found: Result<seq<Row>, SqlError>)
    requires Plain(name) && Plain(note) && id != note && Plain(k1) && Plain(k2) && Plain(k3)
    requires Before(k1, k2) && Before(k2, k3) && Plain(v) && Overlong(name, note, w)
    ensures t.rows == map[k1 := [k1, v], k2 := [k2, w], k3 := [k3, v]]
    ensures r == Err(EntryTooLong) && !t.Valid() && t.entries == map[(note, v) := k1]
    ensures found == Ok([[k1, v]])
  {
    InTurn(k1, k2, k3);
    t := ThreeRows(name, id, note, [k1, v], [k2, w], [k3, v]);
    assert t.columns[0] != note && t.columns[1] == note && Position(t.columns, note) == 1;
    LongSecond(name, t.rows, t.columns, note, k1, k2, k3, v, w);
    r := IndexToSecond(t, note, k1, k2, k3, v);
    found := SelectOne(t, note, v, k1);
  }

  /** Of three rows the first can be listed in an index of `note`, the second not. */
  ghost predicate StuckAtSecond(table: string, rows: map<string, Row>, columns: seq<string>, note: string, k1: string,
                                k2: string, k3: string, v: string) {
    && |columns| == 2 && RowsOk(rows, columns) && note in columns && Position(columns, note) == 1 && NoMagic(rows)
    && rows.Keys == {k1, k2, k3} && Lists([k1, k2, k3], rows.Keys) && rows[k1][1] == v
    && RowFits(table, rows, columns, note, k1) && !RowFits(table, rows, columns, note, k2)
  }

  lemma LongSecond(table: string, rows: map<string, Row>, columns: seq<string>, note: string, k1: string, k2: string,
                   k3: string, v: string, w: string)
    requires Plain(table) && Plain(note) && Plain(v) && Overlong(table, note, w)
    requires |columns| == 2 && RowsOk(rows, columns) && note in columns && Position(columns, note) == 1
    requires Plain(k1) && Plain(k2) && Plain(k3) && Lists([k1, k2, k3], {k1, k2, k3}) && k1 != k2 && k1 != k3 && k2 != k3
    requires rows == map[k1 := [k1, v], k2 := [k2, w], k3 := [k3, v]]
    ensures StuckAtSecond(table, rows, columns, note, k1, k2, k3, v)
  {
    assert rows[k1] == [k1, v] && rows[k2] == [k2, w] && rows.Keys == {k1, k2, k3};
    EntryKeyLimit(table, note, v);
    EntryKeyLimit(table, note, w);
  }

  method IndexToSecond(t: Table, note: string, k1: string, k2: string, k3: string, v: string)
    returns (r: Result<(), SqlError>)
    requires t.Valid() && Plain(t.name) && t.indexes == map[] && t.entries == map[]
    requires StuckAtSecond(t.name, t.rows, t.columns, note, k1, k2, k3, v)
    modifies t`indexes, t`entries
    ensures r == Err(EntryTooLong) && !t.Valid() && t.entries == map[(note, v) := k1]
  {
    MetaKeyLimit(t.name, "i");
    ghost var order, listed := [], 0;
    r, order, listed := t.CreateIndex("i", note, false);
    assert r != Err(IndexExists) && r != Err(KeyTooLong) && r != Err(NoSuchColumn) && r != Err(Misread);
    assert !r.Ok? && r == Err(EntryTooLong);
    StopsAtSecond(t.name, t.rows, t.columns, note, k1, k2, k3, v, order, listed, t.entries);
  }

  /** Such names, keys and values exist. */
  method ThirdRowMissed() returns (t: Table, found: Result<seq<Row>, SqlError>)
    ensures |t.rows| == 3 && "3" in t.rows && t.rows["3"] == ["3", "x"] && found == Ok([["1", "x"]])
  {
    ShortPlain("t");
    assert "note"[0] != "OVRF"[0];
    ShortPlain("note");
    ShortPlain("1");
    ShortPlain("2");
    ShortPlain("3");
    ShortPlain("x");
    DigitsInOrder('1', '2');
    DigitsInOrder('2', '3');
    var r;
    var long := seq(1025, i => 'x');
    AtLeastOneByte(long);
    t, r, found := IndexMissesRow("t", "id", "note", "1", "2", "3", "x", long);
  }

  lemma DigitsInOrder(c: char, d: char)
    requires '0' <= c < d <= '9'
    ensures Before([c], [d])
  {
    assert [c][..0] == "" && [d][..0] == "";
    assert Utf8([c]) == CharBytes(c) && Utf8([d]) == CharBytes(d);
  }

  lemma InTurn(k1: string, k2: string, k3: string)
    requires Before(k1, k2) && Before(k2, k3)
    ensures k1 != k2 && k1 != k3 && k2 != k3 && Lists([k1, k2, k3], {k1, k2, k3})
  {
    BeforeIsOrder();
  }

  lemma StopsAtSecond(table: string, rows: map<string, Row>, columns: seq<string>, note: string, k1: string, k2: string,
                      k3: string, v: string, order: seq<string>, listed: nat, es: Entries)
    requires StuckAtSecond(table, rows, columns, note, k1, k2, k3, v) && Lists(order, rows.Keys)
    requires ListedTo(table, rows, columns, map[], note, order, listed, es)
    requires listed < |order| && !RowFits(table, rows, columns, note, order[listed])
    ensures es == map[(note, v) := k1]
  {
    OneOrder(order, [k1, k2, k3], rows.Keys);
    FirstListed(rows, note, order, k1, v);
  }

  lemma FirstListed(rows: map<string, Row>, note: string, order: seq<string>, k: string, v: string)
    requires order != [] && order[0] == k && rows.Keys >= set pk | pk in order
    requires (forall pk :: pk in rows ==> |rows[pk]| == 2) && rows[k][1] == v
    ensures Listing(map[], rows, note, 1, order, 1) == map[(note, v) := k]
  {
    assert Listing(map[], rows, note, 1, order, 0) == map[];
    assert EntriesWith(map[], {(note, v)}, k) == map[(note, v) := k];
  }

  method SelectOne(t: Table, note: string, v: string, k: string) returns (found: Result<seq<Row>, SqlError>)
    requires RowsOk(t.rows, t.columns) && t.entries == map[(note, v) := k] && Plain(k) && k in t.rows
    ensures found == Ok([t.rows[k]])
  {
    HandleText(k);
    SplitOne(k);
    AllPresent(t.rows, [k]);
    ghost var pks;
    found, pks := t.Select(Some(Equals(note, v)));
    assert RowsOf(t.rows, [k]) == [t.rows[k]];
  }

  // ---- UNIQUE and case ----

  /** With a UNIQUE column `a` in front of a column `A`, INSERT takes an index on `A` for UNIQUE: of two rows with the same
      value there the second is refused, though `A` was not declared UNIQUE. */
  method CaseMakesUnique(name: string, a: string, b: string, k1: string, k2: string, v: string)
    returns (t: Table, r: Result<(), SqlError>)
    requires Plain(name) && Plain(a) && Plain(b) && a != b && SameName(a, b) && Plain(k1) && Plain(k2) && k1 != k2
    requires Plain(v)
    ensures r == Err(UniqueViolation) && t.columns == [a, b] && t.declared == {a}
    ensures t.rows == map[k1 := [k1, v], k2 := [k2, v]]
  {
    t := TwinRow(name, a, b, k1, v);
    RowKeyLimit(name, k2);
    TwinFits(name, t.columns, t.indexes, [k2, v]);
    TwinClash(t.columns, t.indexes, t.rows, k1, [k2, v]);
    PlainKeepsOrder(t.rows, t.columns, t.indexes.Values, t.entries, [k2, v]);
    r := t.Insert([k2, v], false);
    assert r != Err(CountMismatch) && r != Err(KeyExists) && r != Err(KeyTooLong);
    assert !r.Ok? && r != Err(EntryTooLong) && r != Err(Misread);
  }

  /** Such names exist: `a` and `A`. */
  method CaseExample() returns (t: Table, r: Result<(), SqlError>)
    ensures r == Err(UniqueViolation) && t.columns == ["a", "A"] && t.declared == {"a"}
  {
    ShortPlain("t");
    ShortPlain("a");
    ShortPlain("A");
    ShortPlain("1");
    ShortPlain("2");
    ShortPlain("x");
    assert "a"[0] != "A"[0] && SameName("a", "A");
    t, r := CaseMakesUnique("t", "a", "A", "1", "2", "x");
  }

  /** If the column declared UNIQUE comes behind one whose name differs in case only, INSERT finds that one and does not take
      it for UNIQUE: two rows with the same value in the UNIQUE column are accepted. */
  method CaseHidesUnique(name: string, a: string, b: string, k1: string, k2: string, v: string)
    returns (t: Table, r: Result<(), SqlError>)
    requires Plain(name) && Plain(b) && a != b && SameName(a, b) && Plain(k1) && Plain(k2) && k1 != k2 && Plain(v)
    ensures r.Ok? && t.columns == [a, b] && t.declared == {b} && t.rows == map[k1 := [k1, v], k2 := [k2, v]]
  {
    t := OneRow(name, a, b, k1, v);
    RowKeyLimit(name, k2);
    EntryKeyLimit(name, b, v);
    Hidden(t.columns, t.indexes, t.rows, [k2, v]);
    assert t.columns[0] != b && t.columns[1] == b && Position(t.columns, b) == 1;
    PlainKeepsOrder(t.rows, t.columns, t.indexes.Values, t.entries, [k2, v]);
    r := t.Insert([k2, v], false);
    assert r != Err(CountMismatch) && r != Err(KeyExists) && r != Err(KeyTooLong);
    assert r != Err(UniqueViolation) && r != Err(EntryTooLong) && r != Err(Misread);
  }

  lemma Hidden(columns: seq<string>, indexes: map<string, string>, rows: map<string, Row>, row: Row)
    requires |columns| == |row| == 2 && SameName(columns[0], columns[1]) && columns[0] != columns[1]
    requires indexes.Values == {columns[1]} && SEP !in row[0]
    ensures !Clashes(rows, columns, {columns[1]}, indexes, row)
  {
    assert !TakenForUnique(columns, {columns[1]}, columns[1]);
    assert Checked(columns, {columns[1]}, indexes.Values) == {};
  }

  /** The first row of such a table. */
  method TwinRow(name: string, a: string, b: string, pk: string, v: string) returns (t: Table)
    requires Plain(name) && Plain(a) && Plain(b) && a != b && Plain(pk) && Plain(v)
    ensures fresh(t) && t.Valid() && t.name == name && t.columns == [a, b] && t.declared == {a}
    ensures t.rows == map[pk := [pk, v]] && t.indexes.Values == {a, b}
  {
    t := TwinColumns(name, a, b);
    RowKeyLimit(name, pk);
    TwinFits(name, t.columns, t.indexes, [pk, v]);
    PlainKeepsOrder(t.rows, t.columns, t.indexes.Values, t.entries, [pk, v]);
    InsertRow(t, [pk, v]);
  }

  /** A new table whose columns differ in case only, the first UNIQUE, both indexed. */
  method TwinColumns(name: string, a: string, b: string) returns (t: Table)
    requires Plain(name) && Plain(a) && Plain(b) && a != b
    ensures fresh(t) && t.Valid() && t.name == name && t.columns == [a, b] && t.declared == {a}
    ensures t.rows == map[] && t.indexes.Values == {a, b} && t.entries == map[]
  {
    ImplicitKeyLimit(name, a);
    HandleText(a);
    HandleText(b);
    t := new Table(name, [a, b], {a});
    MetaKeyLimit(name, "i");
    assert t.columns[1] == b;
    assert |ImplicitName(name, a)| > |"i"|;
    IndexEmpty(t, "i", b);
  }

  /** CREATE INDEX on a table without rows. */
  method IndexEmpty(t: Table, index: string, column: string)
    requires t.Valid() && t.rows == map[] && t.entries == map[] && index !in t.indexes && column in t.columns
    requires KeyFits(MetaKey(t.name, index)) && !LooksLikeHandle(column)
    modifies t`indexes, t`entries
    ensures t.Valid() && t.indexes.Values == old(t.indexes.Values) + {column} && t.entries == map[]
  {
    ghost var order, listed := [], 0;
    var r;
    MoreIndexed(t.indexes, index, column);
    r, order, listed := t.CreateIndex(index, column, false);
    assert r != Err(IndexExists) && r != Err(KeyTooLong) && r != Err(NoSuchColumn) && r != Err(Misread);
    NoKeys(order, []);
    assert r.Ok?;
  }

  lemma TwinFits(table: string, columns: seq<string>, indexes: map<string, string>, row: Row)
    requires Plain(table) && |columns| == |row| == 2 && columns[0] != columns[1]
    requires Plain(columns[0]) && Plain(columns[1]) && Plain(row[0]) && Plain(row[1])
    requires indexes.Values == {columns[0], columns[1]}
    ensures !TooLong(table, columns, indexes.Values, row)
    ensures !Clashes(map[], columns, {columns[0]}, indexes, row)
  {
    assert Position(columns, columns[0]) == 0 && Position(columns, columns[1]) == 1;
    EntryKeyLimit(table, columns[0], row[0]);
    EntryKeyLimit(table, columns[1], row[1]);
    var rows: map<string, Row> := map[];
    assert forall ci: nat, p, w :: !Matches(rows, ci, p, w);
  }

  lemma TwinClash(columns: seq<string>, indexes: map<string, string>, rows: map<string, Row>, pk: string, row: Row)
    requires |columns| == |row| == 2 && columns[0] != columns[1] && SameName(columns[0], columns[1])
    requires indexes.Values == {columns[0], columns[1]} && Matches(rows, 1, pk, row[1])
    ensures Clashes(rows, columns, {columns[0]}, indexes, row)
  {
    var b := columns[1];
    assert TakenForUnique(columns, {columns[0]}, b);
    assert Position(columns, b) == 1 && b in Checked(columns, {columns[0]}, indexes.Values);
    assert Taken(rows, columns, b, row);
  }
}
