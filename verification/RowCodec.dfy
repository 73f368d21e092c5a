/** The encoding of table rows: a 16-byte version header and the values, each behind its length. Whether bytes are
    valid text is a parameter. */
module RowCodec {
  import opened Common
  import opened Bytes

  type Text = bytes -> bool

  const MVCC_HEADER: nat := 16

  /** Values from number `i` on. */
  function Fields(values: seq<bytes>, i: nat): bytes
    requires i <= |values|
    decreases |values| - i
  {
    if i == |values| then [] else Field(values[i]) + Fields(values, i + 1)
  }

  function Header(xmin: nat, xmax: nat): (h: bytes)
    ensures |h| == MVCC_HEADER
  {
    LE(xmin, 8) + LE(xmax, 8)
  }

  function RowBytes(values: seq<bytes>, xmin: nat, xmax: nat): bytes {
    Header(xmin, xmax) + Fields(values, 0)
  }

  /** Every value is text whose length fits its length field. */
  ghost predicate Storable(values: seq<bytes>, isText: Text) {
    forall i {:trigger values[i]} :: 0 <= i < |values| ==> isText(values[i]) && |values[i]| < TWO_32
  }

  // ---- Reading ----

  /** The outcome of reading fields up to the end of the data: the values, a rest too short for a length field, or a
      field that is cut off or no text. */
  datatype Parsed = Done(values: seq<bytes>) | Short | Bad

  function FieldAt(data: bytes, off: nat, isText: Text): (f: Option<(bytes, nat)>)
    requires off + 4 <= |data|
    ensures f.Some? ==> off + 4 <= f.value.1 <= |data|
  {
    var end := off + 4 + FromLE(data[off..off + 4]);
    if end > |data| || !isText(data[off + 4..end]) then None else Some((data[off + 4..end], end))
  }

  function Parse(data: bytes, off: nat, isText: Text): Parsed
    requires off <= |data|
    decreases |data| - off
  {
    if off == |data| then Done([])
    else if off + 4 > |data| then Short
    else
      match FieldAt(data, off, isText)
      case None => Bad
      case Some((v, next)) => Before(v, Parse(data, next, isText))
  }

  function Before(v: bytes, p: Parsed): Parsed {
    if p.Done? then Done([v] + p.values) else p
  }

  /** Data of at least 16 bytes is read behind a header; if what is left at the end is too short for a length field,
      it is read once more as a row without header. */
  function Decoded(data: bytes, isText: Text): Option<seq<bytes>> {
    match Parse(data, if |data| >= MVCC_HEADER then MVCC_HEADER else 0, isText)
    case Done(values) => Some(values)
    case Bad => None
    case Short =>
      match Parse(data, 0, isText)
      case Done(values) => Some(values)
      case _ => None
  }

  // ---- The loops ----

  /** `encode_values_mvcc`. */
  method EncodeValues(values: seq<bytes>, xmin: nat, xmax: nat) returns (buf: bytes)
    ensures buf == RowBytes(values, xmin, xmax)
  {
    buf := [];
    buf := buf + LE(xmin, 8);
    buf := buf + LE(xmax, 8);
    for i := 0 to |values|
      invariant buf + Fields(values, i) == RowBytes(values, xmin, xmax)
    {
      AppendAssociative(buf, Field(values[i]), Fields(values, i + 1));
      AppendAssociative(buf, LE(|values[i]|, 4), values[i]);
      buf := buf + LE(|values[i]|, 4);
      buf := buf + values[i];
    }
  }

  /** `values` were read already; `p` is what the rest gives. */
  function After(values: seq<bytes>, p: Parsed): Parsed {
    if p.Done? then Done(values + p.values) else p
  }

  lemma AfterBefore(values: seq<bytes>, v: bytes, p: Parsed)
    ensures After(values, Before(v, p)) == After(values + [v], p)
  {
    if p.Done? {
      assert values + ([v] + p.values) == (values + [v]) + p.values;
    }
  }

  /** One more field was read. */
  lemma ParseStep(data: bytes, off: nat, isText: Text, values: seq<bytes>, v: bytes, next: nat)
    requires off + 4 <= |data| && FieldAt(data, off, isText) == Some((v, next))
    ensures next <= |data| && After(values, Parse(data, off, isText)) == After(values + [v], Parse(data, next, isText))
  {
    AfterBefore(values, v, Parse(data, next, isText));
  }

  /** `decode_values`. */
  method DecodeValues(data: bytes, isText: Text) returns (r: Option<seq<bytes>>)
    ensures r == Decoded(data, isText)
  {
    var values: seq<bytes> := [];
    var offset: nat := if |data| >= MVCC_HEADER then MVCC_HEADER else 0;
    ghost var start := offset;
    while offset < |data|
      invariant start <= offset <= |data|
      invariant After(values, Parse(data, offset, isText)) == Parse(data, start, isText)
    {
      if offset + 4 > |data| {
        r := DecodePlain(data, isText);
        return;
      }
      var len := FromLE(data[offset..offset + 4]);
      if offset + 4 + len > |data| { return None; }
      var s := data[offset + 4..offset + 4 + len];
      if !isText(s) { return None; }
      ParseStep(data, offset, isText, values, s, offset + 4 + len);
      offset, values := offset + 4 + len, values + [s];
    }
    assert values + [] == values;
    return Some(values);
  }

  /** The inner loop of `decode_values`. */
  method DecodePlain(data: bytes, isText: Text) returns (r: Option<seq<bytes>>)
    ensures r == if Parse(data, 0, isText).Done? then Some(Parse(data, 0, isText).values) else None
  {
    var values: seq<bytes>, offset: nat := [], 0;
    while offset < |data|
      invariant offset <= |data|
      invariant After(values, Parse(data, offset, isText)) == Parse(data, 0, isText)
    {
      if offset + 4 > |data| { return None; }
      var len := FromLE(data[offset..offset + 4]);
      if offset + 4 + len > |data| { return None; }
      var s := data[offset + 4..offset + 4 + len];
      if !isText(s) { return None; }
      ParseStep(data, offset, isText, values, s, offset + 4 + len);
      offset, values := offset + 4 + len, values + [s];
    }
    assert values + [] == values;
    return Some(values);
  }

  // ---- The round trip ----

  lemma FieldBack(data: bytes, off: nat, v: bytes, isText: Text)
    requires HoldsAt(data, off, Field(v)) && |v| < TWO_32 && isText(v)
    ensures FieldAt(data, off, isText) == Some((v, off + 4 + |v|))
  {
    FieldHeld(data, off, v);
  }

  lemma {:induction false} ParseFields(data: bytes, off: nat, values: seq<bytes>, i: nat, isText: Text)
    requires i <= |values| && Storable(values, isText) && off <= |data| && data[off..] == Fields(values, i)
    ensures Parse(data, off, isText) == Done(values[i..])
    decreases |values| - i
  {
    if i < |values| {
      var v, rest := values[i], Fields(values, i + 1);
      SplitRest(data, off, Field(v), rest);
      FieldBack(data, off, v, isText);
      ParseFields(data, off + 4 + |v|, values, i + 1, isText);
      assert values[i..] == [v] + values[i + 1..];
    }
  }

  /** Every row written with a header is read back, and never as a row without one. */
  lemma RowRoundTrip(values: seq<bytes>, xmin: nat, xmax: nat, isText: Text)
    requires Storable(values, isText)
    ensures |RowBytes(values, xmin, xmax)| >= MVCC_HEADER
    ensures Parse(RowBytes(values, xmin, xmax), MVCC_HEADER, isText) == Done(values)
    ensures Decoded(RowBytes(values, xmin, xmax), isText) == Some(values)
  {
    ParseFields(RowBytes(values, xmin, xmax), MVCC_HEADER, values, 0, isText);
    assert values[0..] == values;
  }

  /** A row begins with the transaction that wrote it, then the one that deleted it. */
  lemma VersionFields(values: seq<bytes>, xmin: nat, xmax: nat)
    requires xmin < TWO_64 && xmax < TWO_64
    ensures var data := RowBytes(values, xmin, xmax);
            |data| >= MVCC_HEADER && FromLE(data[0..8]) == xmin && FromLE(data[8..16]) == xmax
  {
    var data := RowBytes(values, xmin, xmax);
    assert data[0..8] == LE(xmin, 8) && data[8..16] == LE(xmax, 8);
    FromLE64(xmin);
    FromLE64(xmax);
  }

  // ---- Rows without header ----

  lemma {:induction false} FieldsCons(v: bytes, values: seq<bytes>, i: nat)
    requires i <= |values|
    ensures Fields([v] + values, i + 1) == Fields(values, i)
    decreases |values| - i
  {
    if i < |values| {
      FieldsCons(v, values, i + 1);
    }
  }

  lemma {:induction false} ParsedLength(data: bytes, off: nat, isText: Text)
    requires off <= |data| && Parse(data, off, isText).Done?
    ensures |Fields(Parse(data, off, isText).values, 0)| == |data| - off
    decreases |data| - off
  {
    if off < |data| {
      var (v, next) := FieldAt(data, off, isText).value;
      ParsedLength(data, next, isText);
      FieldsCons(v, Parse(data, next, isText).values, 0);
    }
  }

  /** A row without header is read back exactly if it is shorter than a header, or if reading it behind one ends in a
      rest too short for a length field. */
  lemma PlainRow(values: seq<bytes>, isText: Text)
    requires Storable(values, isText)
    ensures var data := Fields(values, 0);
            Decoded(data, isText) == Some(values) <==>
            |data| < MVCC_HEADER || Parse(data, MVCC_HEADER, isText).Short?
  {
    var data := Fields(values, 0);
    assert data[0..] == data && values[0..] == values;
    ParseFields(data, 0, values, 0, isText);
    if |data| >= MVCC_HEADER && Parse(data, MVCC_HEADER, isText).Done? {
      ParsedLength(data, MVCC_HEADER, isText);
    }
  }

  /** A row without header and one value of 12 bytes is read as a row without values. */
  lemma PlainRowLost(v: bytes, isText: Text)
    requires |v| == 12
    ensures Decoded(Fields([v], 0), isText) == Some([])
  {
    assert Fields([v], 1) == [];
  }
}
