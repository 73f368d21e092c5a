/** Secondary indexes of a table: for every indexed column and value an entry with the primary keys of the rows that
    have it, joined by a separator. */
module SecondaryIndex {
  import opened Common
  import opened Text

  /** Entries by column and value. */
  type Entries = map<(string, string), string>

  const SEP: char := '\U{1F}'

  // ---- Joined keys ----

  /** The parts of `s` between separators; there is always one. */
  function Split(s: string): (parts: seq<string>)
    ensures |parts| > 0
  {
    if s == "" then [""] else Extended(Split(s[..|s| - 1]), s[|s| - 1])
  }

  /** The parts after one more character. */
  function Extended(parts: seq<string>, c: char): (r: seq<string>)
    requires parts != []
    ensures r != []
  {
    if c == SEP then parts + [""] else parts[..|parts| - 1] + [parts[|parts| - 1] + [c]]
  }

  lemma ExtendedBehind(a: seq<string>, b: seq<string>, c: char)
    requires b != []
    ensures Extended(a + b, c) == a + Extended(b, c)
  {
    assert (a + b)[..|a + b| - 1] == a + b[..|b| - 1] && (a + b)[|a + b| - 1] == b[|b| - 1];
  }

  function Join(parts: seq<string>): string {
    if |parts| == 0 then ""
    else if |parts| == 1 then parts[0]
    else Join(parts[..|parts| - 1]) + [SEP] + parts[|parts| - 1]
  }

  /** What is behind a separator is taken apart on its own. */
  lemma {:induction false} SplitAppend(s: string, t: string)
    ensures Split(s + [SEP] + t) == Split(s) + Split(t)
  {
    var whole := s + [SEP] + t;
    if t == "" {
      assert whole[..|whole| - 1] == s && whole[|whole| - 1] == SEP;
    } else {
      var shorter, c := t[..|t| - 1], t[|t| - 1];
      assert whole[..|whole| - 1] == s + [SEP] + shorter && whole[|whole| - 1] == c;
      SplitAppend(s, shorter);
      ExtendedBehind(Split(s), Split(shorter), c);
    }
  }

  lemma {:induction false} SplitOne(part: string)
    requires SEP !in part
    ensures Split(part) == [part]
  {
    if part != "" {
      SplitOne(part[..|part| - 1]);
      assert part == part[..|part| - 1] + [part[|part| - 1]];
    }
  }

  lemma {:induction false} PartsPlain(s: string)
    ensures forall i :: 0 <= i < |Split(s)| ==> SEP !in Split(s)[i]
  {
    if s != "" {
      PartsPlain(s[..|s| - 1]);
    }
  }

  lemma {:induction false} SplitOfJoin(parts: seq<string>)
    requires parts != [] && forall i :: 0 <= i < |parts| ==> SEP !in parts[i]
    ensures Split(Join(parts)) == parts
  {
    if |parts| == 1 {
      SplitOne(parts[0]);
    } else {
      SplitOfJoin(parts[..|parts| - 1]);
      SplitAppend(Join(parts[..|parts| - 1]), parts[|parts| - 1]);
      SplitOne(parts[|parts| - 1]);
    }
  }

  /** A joined list of keys can be taken apart again exactly if there is a key and none contains the separator. */
  lemma {:induction false} JoinReversible(parts: seq<string>)
    ensures Split(Join(parts)) == parts <==> parts != [] && forall i :: 0 <= i < |parts| ==> SEP !in parts[i]
  {
    if parts != [] && forall i :: 0 <= i < |parts| ==> SEP !in parts[i] {
      SplitOfJoin(parts);
    } else if Split(Join(parts)) == parts {
      PartsPlain(Join(parts));
    }
  }

  // ---- Entry keys ----

  const PREFIX: string := "__secidx__:"

  /** The database key of an index entry. */
  function EntryKey(table: string, c: string, v: string): string {
    PREFIX + table + ":" + c + ":" + v
  }

  /** What the keys of all entries of a column begin with, behind the common part. */
  function KeySpace(table: string, c: string): string {
    table + ":" + c + ":"
  }

  /** Two columns, of one table or of two, have entries that share a key exactly if what the keys of the one begin with
      begins with what those of the other begin with. */
  lemma EntryKeysShared(t: string, c: string, u: string, d: string)
    ensures (exists v, w :: EntryKey(t, c, v) == EntryKey(u, d, w)) <==>
            KeySpace(t, c) <= KeySpace(u, d) || KeySpace(u, d) <= KeySpace(t, c)
  {
    if v, w :| EntryKey(t, c, v) == EntryKey(u, d, w) {
      KeyParts(t, c, v);
      KeyParts(u, d, w);
      SamePrefix(PREFIX, KeySpace(t, c) + v, KeySpace(u, d) + w);
      OneBeginsWithOther(KeySpace(t, c), v, KeySpace(u, d), w);
    }
    if KeySpace(t, c) <= KeySpace(u, d) {
      SharedKey(t, c, u, d);
    } else if KeySpace(u, d) <= KeySpace(t, c) {
      SharedKey(u, d, t, c);
      var v := KeySpace(t, c)[|KeySpace(u, d)|..];
      assert EntryKey(t, c, "") == EntryKey(u, d, v);
    }
  }

  /** Two columns of one table have entries that share a key exactly if the name of one, with a colon, begins with the
      name of the other, with a colon. */
  lemma EntryKeysApart(table: string, c: string, d: string)
    ensures (exists v, w :: EntryKey(table, c, v) == EntryKey(table, d, w)) <==>
            c + ":" <= d + ":" || d + ":" <= c + ":"
  {
    EntryKeysShared(table, c, table, d);
    KeySpaceOrder(table, c, d);
    KeySpaceOrder(table, d, c);
  }

  /** So two different names without a colon never do, and the entries of one column are told apart by their values. */
  lemma PlainNamesApart(table: string, c: string, v: string, d: string, w: string)
    requires ':' !in c && ':' !in d
    ensures EntryKey(table, c, v) == EntryKey(table, d, w) <==> c == d && v == w
  {
    if EntryKey(table, c, v) == EntryKey(table, d, w) {
      EntryKeysApart(table, c, d);
      if c + ":" <= d + ":" {
        ColonLast(c, d);
      } else {
        ColonLast(d, c);
      }
      KeyParts(table, c, v);
      KeyParts(table, d, w);
      SamePrefix(PREFIX, KeySpace(table, c) + v, KeySpace(table, d) + w);
      SamePrefix(KeySpace(table, c), v, w);
    }
  }

  lemma KeyParts(table: string, c: string, v: string)
    ensures EntryKey(table, c, v) == PREFIX + (KeySpace(table, c) + v)
  {
  }

  lemma SamePrefix(p: string, a: string, b: string)
    requires p + a == p + b
    ensures a == b
  {
    assert a == (p + a)[|p|..] && b == (p + b)[|p|..];
  }

  lemma OneBeginsWithOther(p: string, a: string, q: string, b: string)
    requires p + a == q + b
    ensures p <= q || q <= p
  {
    assert p == (p + a)[..|p|] && q == (q + b)[..|q|];
  }

  lemma SharedKey(t: string, c: string, u: string, d: string)
    requires KeySpace(t, c) <= KeySpace(u, d)
    ensures EntryKey(t, c, KeySpace(u, d)[|KeySpace(t, c)|..]) == EntryKey(u, d, "")
  {
    var v := KeySpace(u, d)[|KeySpace(t, c)|..];
    KeyParts(t, c, v);
    KeyParts(u, d, "");
    assert KeySpace(t, c) + v == KeySpace(u, d) + "";
  }

  lemma KeySpaceOrder(table: string, c: string, d: string)
    ensures KeySpace(table, c) <= KeySpace(table, d) <==> c + ":" <= d + ":"
  {
    var front := table + ":";
    assert KeySpace(table, c) == front + (c + ":") && KeySpace(table, d) == front + (d + ":");
    if KeySpace(table, c) <= KeySpace(table, d) {
      var rest := KeySpace(table, d)[|KeySpace(table, c)|..];
      assert front + (c + ":" + rest) == front + (d + ":");
      SamePrefix(front, c + ":" + rest, d + ":");
      assert c + ":" == (c + ":" + rest)[..|c| + 1];
    }
  }

  lemma ColonLast(c: string, d: string)
    requires ':' !in d && c + ":" <= d + ":"
    ensures c == d
  {
    assert (d + ":")[|c|] == (c + ":")[|c|] == ':';
    assert forall i :: 0 <= i < |d| ==> (d + ":")[i] in d;
    assert c == (c + ":")[..|c|] == (d + ":")[..|c|];
  }

  /** With a colon in a column name two entries can share a key. */
  lemma EntryKeysCollide(table: string, v: string)
    ensures EntryKey(table, "a", "b:" + v) == EntryKey(table, "a:b", v)
  {
    KeyParts(table, "a", "b:" + v);
    KeyParts(table, "a:b", v);
    assert KeySpace(table, "a") + ("b:" + v) == KeySpace(table, "a:b") + v;
  }

  // ---- Entries ----

  /** The primary keys recorded for a value. */
  function Pks(es: Entries, c: string, v: string): seq<string> {
    if (c, v) in es then Split(es[(c, v)]) else []
  }

  /** No entry is taken for an overflow handle when it is read. */
  predicate Readable(es: Entries) {
    forall key :: key in es ==> !LooksLikeHandle(es[key])
  }

  /** What an entry holds once a primary key is in it. */
  function Lengthened(es: Entries, c: string, v: string, pk: string): string {
    if (c, v) !in es then pk
    else if pk in Split(es[(c, v)]) then es[(c, v)]
    else es[(c, v)] + [SEP] + pk
  }

  /** What `sec_idx_add` ends with: the entry stored, another key under a UNIQUE value, or an entry key that the database
      refuses. */
  datatype Addition = Stored(es: Entries) | ValueTaken | Oversize

  /** `sec_idx_add`. */
  function Added(table: string, es: Entries, c: string, v: string, pk: string, unique: bool): Addition {
    if (c, v) in es && pk in Split(es[(c, v)]) then Stored(es)
    else if (c, v) in es && unique then ValueTaken
    else if !KeyFits(EntryKey(table, c, v)) then Oversize
    else Stored(es[(c, v) := Lengthened(es, c, v, pk)])
  }

  function Others(pks: seq<string>, pk: string): seq<string> {
    if pks == [] then [] else Others(pks[..|pks| - 1], pk) + (if pks[|pks| - 1] == pk then [] else [pks[|pks| - 1]])
  }

  /** An entry without a primary key, if one is left. */
  function Shortened(entry: string, pk: string): Option<string> {
    var pks := Others(Split(entry), pk);
    if pks == [] then None else Some(Join(pks))
  }

  /** `sec_idx_remove`. */
  function Removed(es: Entries, c: string, v: string, pk: string): Entries {
    if (c, v) !in es then es
    else
      match Shortened(es[(c, v)], pk)
      case None => es - {(c, v)}
      case Some(entry) => es[(c, v) := entry]
  }

  /** A key is added once, none is added to a UNIQUE value that has one, and none under an entry key that is too long; a
      key with a separator is added in parts. */
  lemma {:induction false} AddedPks(table: string, es: Entries, c: string, v: string, pk: string, unique: bool)
    ensures var added, pks := Added(table, es, c, v, pk, unique), Pks(es, c, v);
            && (added.ValueTaken? <==> unique && pks != [] && pk !in pks)
            && (added.Oversize? <==>
                  pk !in pks && !(unique && pks != []) && !KeyFits(EntryKey(table, c, v)))
            && (added.Stored? ==> Pks(added.es, c, v) == pks + (if pk in pks then [] else Split(pk)))
    ensures SEP !in pk ==> Split(pk) == [pk]
    ensures SEP in pk ==> pk !in Pks(es, c, v)
  {
    if SEP !in pk {
      SplitOne(pk);
    } else {
      NeverListed(es, c, v, pk);
    }
    if (c, v) in es {
      SplitAppend(es[(c, v)], pk);
    }
  }

  /** No entry lists a key that contains the separator. */
  lemma NeverListed(es: Entries, c: string, v: string, pk: string)
    requires SEP in pk
    ensures pk !in Pks(es, c, v)
  {
    if (c, v) in es {
      PartsPlain(es[(c, v)]);
    }
  }

  /** An entry has the key once it is lengthened by it, and no other more. */
  lemma LengthenedPks(es: Entries, c: string, v: string, pk: string)
    requires SEP !in pk
    ensures Split(Lengthened(es, c, v, pk)) == Pks(es, c, v) + (if pk in Pks(es, c, v) then [] else [pk])
    ensures pk in Split(Lengthened(es, c, v, pk))
  {
    SplitOne(pk);
    if (c, v) in es {
      SplitAppend(es[(c, v)], pk);
    }
  }

  lemma {:induction false} OthersAre(pks: seq<string>, pk: string)
    requires Distinct(pks)
    ensures Distinct(Others(pks, pk))
    ensures forall p :: p in Others(pks, pk) <==> p in pks && p != pk
  {
    if pks != [] {
      var rest, last := pks[..|pks| - 1], pks[|pks| - 1];
      OthersAre(rest, pk);
      assert pks == rest + [last] && last !in rest;
      assert forall p :: p in pks <==> p in rest || p == last;
      assert last !in Others(rest, pk);
    }
  }

  /** The others stay in their order. */
  lemma {:induction false} OthersAt(pks: seq<string>, pk: string, k: nat)
    requires Distinct(pks) && k < |pks| && pks[k] == pk
    ensures Others(pks, pk) == pks[..k] + pks[k + 1..]
  {
    var last := |pks| - 1;
    if k == last {
      OthersAbsent(pks[..last], pk);
      assert pks[k + 1..] == [];
    } else {
      OthersAt(pks[..last], pk, k);
      assert pks[k + 1..] == pks[..last][k + 1..] + [pks[last]];
    }
  }

  lemma {:induction false} OthersAbsent(pks: seq<string>, pk: string)
    requires pk !in pks
    ensures Others(pks, pk) == pks
  {
    if pks != [] {
      OthersAbsent(pks[..|pks| - 1], pk);
      assert pks[|pks| - 1] in pks;
    }
  }

  lemma {:induction false} OthersIn(pks: seq<string>, pk: string, p: string)
    ensures p in Others(pks, pk) ==> p in pks
  {
    if pks != [] {
      OthersIn(pks[..|pks| - 1], pk, p);
    }
  }

  lemma {:induction false} OthersPlain(pks: seq<string>, pk: string)
    requires forall i :: 0 <= i < |pks| ==> SEP !in pks[i]
    ensures forall i :: 0 <= i < |Others(pks, pk)| ==> SEP !in Others(pks, pk)[i]
  {
    if pks != [] {
      OthersPlain(pks[..|pks| - 1], pk);
    }
  }

  /** Taking a key out twice is taking it out once. */
  lemma {:induction false} OthersTwice(pks: seq<string>, pk: string)
    ensures Others(Others(pks, pk), pk) == Others(pks, pk)
  {
    if pks != [] {
      var rest, last := pks[..|pks| - 1], pks[|pks| - 1];
      OthersTwice(rest, pk);
      if last != pk {
        assert (Others(rest, pk) + [last])[..|Others(rest, pk)|] == Others(rest, pk);
      } else {
        assert Others(rest, pk) + [] == Others(rest, pk);
      }
    }
  }

  lemma RemovedPks(es: Entries, c: string, v: string, pk: string)
    ensures Pks(Removed(es, c, v, pk), c, v) == Others(Pks(es, c, v), pk)
  {
    if (c, v) in es {
      ShortenedPks(es[(c, v)], pk);
    }
  }

  lemma ShortenedTwice(s: string, pk: string)
    requires Shortened(s, pk).Some?
    ensures Shortened(Shortened(s, pk).value, pk) == Shortened(s, pk)
  {
    ShortenedPks(s, pk);
    OthersTwice(Split(s), pk);
  }

  lemma ShortenedPks(s: string, pk: string)
    ensures Others(Split(s), pk) != [] ==> Split(Join(Others(Split(s), pk))) == Others(Split(s), pk)
  {
    PartsPlain(s);
    OthersPlain(Split(s), pk);
    if Others(Split(s), pk) != [] {
      SplitOfJoin(Others(Split(s), pk));
    }
  }

  // ---- Entries that look like handles ----

  /** An entry looks like a handle only if its first primary key begins with the magic letters. */
  lemma {:induction false} FirstKey(s: string)
    requires "OVRF" <= s
    ensures "OVRF" <= Split(s)[0]
  {
    assert s[0] != SEP && s[1] != SEP && s[2] != SEP && s[3] != SEP;
    if |s| == 4 {
      assert s == "OVRF";
      SplitOne(s);
    } else {
      FirstKey(s[..|s| - 1]);
    }
  }

  /** No entry begins with them. */
  predicate Unmarked(es: Entries) {
    forall key :: key in es ==> !("OVRF" <= es[key])
  }

  /** So all entries can be read if no primary key in them does. */
  lemma UnmarkedReadable(es: Entries)
    requires forall c, v, pk {:trigger pk in Pks(es, c, v)} :: pk in Pks(es, c, v) ==> !("OVRF" <= pk)
    ensures Unmarked(es) && Readable(es)
  {
    forall key | key in es ensures !("OVRF" <= es[key]) && !LooksLikeHandle(es[key]) {
      HandleText(es[key]);
      assert Split(es[key])[0] in Pks(es, key.0, key.1);
      if "OVRF" <= es[key] {
        FirstKey(es[key]);
      }
    }
  }

  // ---- Many entries at once ----

  /** The entries after a primary key has been added under all of some columns and values. */
  function EntriesWith(es: Entries, keys: set<(string, string)>, pk: string): Entries {
    es + map key | key in keys :: Lengthened(es, key.0, key.1, pk)
  }

  /** The entries after it has been removed there. */
  function EntriesWithout(es: Entries, keys: set<(string, string)>, pk: string): Entries {
    map key | key in es && (key in keys ==> Shortened(es[key], pk).Some?) ::
      if key in keys then Shortened(es[key], pk).value else es[key]
  }

  /** A key that does not begin like a handle can be added, whatever it contains. */
  lemma UnmarkedWith(es: Entries, keys: set<(string, string)>, pk: string)
    requires Unmarked(es) && !("OVRF" <= pk)
    ensures Unmarked(EntriesWith(es, keys, pk)) && Readable(EntriesWith(es, keys, pk))
  {
    var es' := EntriesWith(es, keys, pk);
    forall key | key in es' ensures !("OVRF" <= es'[key]) && !LooksLikeHandle(es'[key]) {
      HandleText(es'[key]);
      if key in es && es'[key] == es[key] + [SEP] + pk {
        assert "OVRF"[..4] == "OVRF" && (|es[key]| < 4 ==> es'[key][|es[key]|] == SEP && "OVRF"[|es[key]|] != SEP);
        assert |es[key]| >= 4 ==> es'[key][..4] == es[key][..4];
      }
    }
  }

  lemma UnmarkedWithout(es: Entries, keys: set<(string, string)>, pk: string)
    requires forall c, v, p {:trigger p in Pks(es, c, v)} :: p in Pks(es, c, v) ==> !("OVRF" <= p)
    ensures Readable(EntriesWithout(es, keys, pk))
  {
    var es' := EntriesWithout(es, keys, pk);
    forall c, v, p {:trigger p in Pks(es', c, v)} | p in Pks(es', c, v) ensures !("OVRF" <= p) {
      ShortenedPks(es[(c, v)], pk);
      OthersIn(Split(es[(c, v)]), pk, p);
      assert p in Pks(es, c, v);
    }
    UnmarkedReadable(es');
  }

  lemma WithNone(es: Entries, pk: string)
    ensures EntriesWith(es, {}, pk) == es && EntriesWithout(es, {}, pk) == es
  {
  }

  /** One more. A key that is there already changes nothing, and is not looked at twice. */
  lemma WithNext(table: string, es: Entries, keys: set<(string, string)>, c: string, v: string, pk: string, unique: bool)
    requires SEP !in pk
    ensures var now := EntriesWith(es, keys, pk);
            var added := Added(table, now, c, v, pk, unique);
            if (c, v) in keys then added == Stored(now)
            else if added.Stored? then added.es == EntriesWith(es, keys + {(c, v)}, pk)
            else added == Added(table, es, c, v, pk, unique)
  {
    if (c, v) in keys {
      LengthenedPks(es, c, v, pk);
    } else {
      WithOne(es, keys, (c, v), pk);
      if (c, v) in es && pk in Split(es[(c, v)]) {
        assert EntriesWith(es, keys, pk)[(c, v) := es[(c, v)]] == EntriesWith(es, keys, pk);
      }
    }
  }

  lemma WithOne(es: Entries, keys: set<(string, string)>, key: (string, string), pk: string)
    requires key !in keys
    ensures var now := EntriesWith(es, keys, pk);
            && (key in now <==> key in es) && (key in now && key in es ==> now[key] == es[key])
            && EntriesWith(es, keys + {key}, pk) == now[key := Lengthened(es, key.0, key.1, pk)]
  {
  }

  lemma WithoutNext(es: Entries, keys: set<(string, string)>, c: string, v: string, pk: string)
    ensures Removed(EntriesWithout(es, keys, pk), c, v, pk) == EntriesWithout(es, keys + {(c, v)}, pk)
  {
    if (c, v) in keys {
      assert keys + {(c, v)} == keys;
      WithoutAgain(es, keys, (c, v), pk);
    } else {
      WithoutOne(es, keys, (c, v), pk);
    }
  }

  lemma WithoutAgain(es: Entries, keys: set<(string, string)>, key: (string, string), pk: string)
    requires key in keys
    ensures Removed(EntriesWithout(es, keys, pk), key.0, key.1, pk) == EntriesWithout(es, keys, pk)
  {
    var now := EntriesWithout(es, keys, pk);
    if key in now {
      ShortenedTwice(es[key], pk);
      assert now[key := now[key]] == now;
    }
  }

  lemma WithoutOne(es: Entries, keys: set<(string, string)>, key: (string, string), pk: string)
    requires key !in keys
    ensures Removed(EntriesWithout(es, keys, pk), key.0, key.1, pk) == EntriesWithout(es, keys + {key}, pk)
  {
    var now, next := EntriesWithout(es, keys, pk), EntriesWithout(es, keys + {key}, pk);
    assert key in now <==> key in es;
    assert forall k :: k != key ==> (k in next <==> k in now) && (k in next && k in now ==> next[k] == now[k]);
  }

  // ---- Agreement with the rows ----

  ghost predicate Matches(rows: map<string, Row>, ci: nat, pk: string, v: string) {
    pk in rows && ci < |rows[pk]| && rows[pk][ci] == v
  }

  /** The index of a column: for every value the primary keys of the rows that have it, each once. */
  ghost predicate ColumnAgrees(rows: map<string, Row>, es: Entries, c: string, ci: nat) {
    forall v {:trigger Pks(es, c, v)} ::
      && Distinct(Pks(es, c, v))
      && (forall pk {:trigger pk in Pks(es, c, v)} {:trigger Matches(rows, ci, pk, v)} ::
            pk in Pks(es, c, v) <==> Matches(rows, ci, pk, v))
  }

  /** No index of a column that the row has agrees with a row whose key contains the separator. */
  lemma SeparatorDisagrees(rows: map<string, Row>, es: Entries, c: string, ci: nat, pk: string)
    requires SEP in pk && pk in rows && ci < |rows[pk]|
    ensures !ColumnAgrees(rows, es, c, ci)
  {
    NeverListed(es, c, rows[pk][ci], pk);
    assert Matches(rows, ci, pk, rows[pk][ci]);
  }

  /** Nor does one without an entry for the value of a row. */
  lemma MissingDisagrees(rows: map<string, Row>, es: Entries, c: string, ci: nat, pk: string)
    requires pk in rows && ci < |rows[pk]| && pk !in Pks(es, c, rows[pk][ci])
    ensures !ColumnAgrees(rows, es, c, ci)
  {
    assert Matches(rows, ci, pk, rows[pk][ci]);
  }

  /** A row is added to the index of a column, or was there already. If it is stored, the index agrees with the rows
      exactly if the key does not contain the separator; otherwise it lacks the row. */
  lemma AddToColumn(table: string, rows: map<string, Row>, es: Entries, c: string, ci: nat, pk: string, row: Row,
                    unique: bool)
    requires pk !in rows && ci < |row|
    requires ColumnAgrees(rows, es, c, ci) || ColumnAgrees(rows[pk := row], es, c, ci)
    ensures var added := Added(table, es, c, row[ci], pk, unique);
            && (added.Stored? ==> (ColumnAgrees(rows[pk := row], added.es, c, ci) <==> SEP !in pk))
            && (added.ValueTaken? <==>
                  unique && ColumnAgrees(rows, es, c, ci) && exists other :: Matches(rows, ci, other, row[ci]))
            && (!added.Stored? ==> !ColumnAgrees(rows[pk := row], es, c, ci))
  {
    var v := row[ci];
    var added := Added(table, es, c, v, pk, unique);
    AddedPks(table, es, c, v, pk, unique);
    if SEP in pk {
      SeparatorDisagrees(rows[pk := row], es, c, ci, pk);
      if added.Stored? {
        SeparatorDisagrees(rows[pk := row], added.es, c, ci, pk);
      }
    }
    assert Matches(rows[pk := row], ci, pk, v) && !Matches(rows, ci, pk, v);
    assert pk in Pks(es, c, v) <==> !ColumnAgrees(rows, es, c, ci);
    if ColumnAgrees(rows, es, c, ci) && Pks(es, c, v) != [] {
      assert Pks(es, c, v)[0] in Pks(es, c, v);
      assert Matches(rows, ci, Pks(es, c, v)[0], v);
    }
    if added.Stored? && ColumnAgrees(rows, es, c, ci) && SEP !in pk {
      AddedAgrees(rows, es, added.es, c, ci, pk, row);
    }
  }

  lemma AddedAgrees(rows: map<string, Row>, es: Entries, es': Entries, c: string, ci: nat, pk: string, row: Row)
    requires pk !in rows && ci < |row| && ColumnAgrees(rows, es, c, ci)
    requires Pks(es', c, row[ci]) == Pks(es, c, row[ci]) + [pk]
    requires forall v :: v != row[ci] ==> Pks(es', c, v) == Pks(es, c, v)
    ensures ColumnAgrees(rows[pk := row], es', c, ci)
  {
    forall v
      ensures Distinct(Pks(es', c, v))
      ensures forall p :: p in Pks(es', c, v) <==> Matches(rows[pk := row], ci, p, v)
    {
      assert Distinct(Pks(es, c, v));
      assert forall p :: p in Pks(es, c, v) <==> Matches(rows, ci, p, v);
      assert !Matches(rows, ci, pk, v);
      assert forall p :: p in Pks(es', c, v) <==> p in Pks(es, c, v) || (p == pk && v == row[ci]);
    }
  }

  /** A row is removed from the index of a column, or was not there. */
  lemma RemoveFromColumn(rows: map<string, Row>, es: Entries, c: string, ci: nat, pk: string)
    requires pk in rows && ci < |rows[pk]|
    requires ColumnAgrees(rows, es, c, ci) || ColumnAgrees(rows - {pk}, es, c, ci)
    ensures ColumnAgrees(rows - {pk}, Removed(es, c, rows[pk][ci], pk), c, ci)
  {
    RemovedPks(es, c, rows[pk][ci], pk);
    RemovedAgrees(rows, es, Removed(es, c, rows[pk][ci], pk), c, ci, pk);
  }

  lemma RemovedAgrees(rows: map<string, Row>, es: Entries, es': Entries, c: string, ci: nat, pk: string)
    requires pk in rows && ci < |rows[pk]|
    requires ColumnAgrees(rows, es, c, ci) || ColumnAgrees(rows - {pk}, es, c, ci)
    requires Pks(es', c, rows[pk][ci]) == Others(Pks(es, c, rows[pk][ci]), pk)
    requires forall v :: v != rows[pk][ci] ==> Pks(es', c, v) == Pks(es, c, v)
    ensures ColumnAgrees(rows - {pk}, es', c, ci)
  {
    var v0 := rows[pk][ci];
    forall v
      ensures Distinct(Pks(es', c, v))
      ensures forall p :: p in Pks(es', c, v) <==> Matches(rows - {pk}, ci, p, v)
    {
      assert Distinct(Pks(es, c, v));
      assert forall p :: Matches(rows - {pk}, ci, p, v) <==> p != pk && Matches(rows, ci, p, v);
      assert v != v0 ==> !Matches(rows, ci, pk, v);
      OthersAre(Pks(es, c, v), pk);
    }
  }

  /** The index of another column is not touched. */
  lemma OtherColumn(rows: map<string, Row>, es: Entries, es': Entries, c: string, ci: nat)
    requires ColumnAgrees(rows, es, c, ci) && forall v :: Pks(es', c, v) == Pks(es, c, v)
    ensures ColumnAgrees(rows, es', c, ci)
  {
    forall v
      ensures Distinct(Pks(es', c, v)) && forall p :: p in Pks(es', c, v) <==> Matches(rows, ci, p, v)
    {
      assert Pks(es', c, v) == Pks(es, c, v);
    }
  }

  // ---- All indexes of a table ----

  /** The first position of a column. */
  function Position(columns: seq<string>, c: string): (i: nat)
    requires c in columns
    ensures i < |columns| && columns[i] == c
  {
    PositionFrom(columns, c, 0)
  }

  function PositionFrom(columns: seq<string>, c: string, from: nat): (i: nat)
    requires exists j :: from <= j < |columns| && columns[j] == c
    ensures i < |columns| && columns[i] == c
    decreases |columns| - from
  {
    if columns[from] == c then from else PositionFrom(columns, c, from + 1)
  }

  /** Where a row is entered: its values in those columns of the table that are indexed. */
  function RowEntries(columns: seq<string>, indexed: set<string>, row: Row): set<(string, string)>
    requires |row| == |columns|
  {
    set c | c in indexed && c in columns :: (c, row[Position(columns, c)])
  }

  /** Every index holds exactly what the rows say, and there are no entries for columns without index. */
  ghost predicate Agrees(rows: map<string, Row>, columns: seq<string>, indexed: set<string>, es: Entries) {
    && (forall key {:trigger key in es} :: key in es ==> key.0 in indexed && key.0 in columns)
    && (forall c {:trigger c in indexed} :: c in indexed && c in columns ==>
          ColumnAgrees(rows, es, c, Position(columns, c)))
  }

  /** The row with a new key in all indexes. */
  lemma AgreesWith(rows: map<string, Row>, columns: seq<string>, indexed: set<string>, es: Entries, pk: string, row: Row)
    requires Agrees(rows, columns, indexed, es) && SEP !in pk && pk !in rows && |row| == |columns|
    ensures Agrees(rows[pk := row], columns, indexed, EntriesWith(es, RowEntries(columns, indexed, row), pk))
  {
    var es' := EntriesWith(es, RowEntries(columns, indexed, row), pk);
    forall c | c in indexed && c in columns ensures ColumnAgrees(rows[pk := row], es', c, Position(columns, c)) {
      var ci := Position(columns, c);
      assert ColumnAgrees(rows, es, c, ci);
      assert (c, row[ci]) in RowEntries(columns, indexed, row);
      assert !Matches(rows, ci, pk, row[ci]);
      assert pk !in Pks(es, c, row[ci]);
      LengthenedPks(es, c, row[ci], pk);
      forall v | v != row[ci] ensures Pks(es', c, v) == Pks(es, c, v) {
        assert (c, v) !in RowEntries(columns, indexed, row);
      }
      AddedAgrees(rows, es, es', c, ci, pk, row);
    }
  }

  /** The row with key `pk` out of all indexes. */
  lemma AgreesWithout(rows: map<string, Row>, columns: seq<string>, indexed: set<string>, es: Entries, pk: string)
    requires Agrees(rows, columns, indexed, es) && pk in rows && |rows[pk]| == |columns|
    ensures Agrees(rows - {pk}, columns, indexed, EntriesWithout(es, RowEntries(columns, indexed, rows[pk]), pk))
  {
    var keys := RowEntries(columns, indexed, rows[pk]);
    var es' := EntriesWithout(es, keys, pk);
    forall c | c in indexed && c in columns ensures ColumnAgrees(rows - {pk}, es', c, Position(columns, c)) {
      var ci := Position(columns, c);
      assert (c, rows[pk][ci]) in keys;
      if (c, rows[pk][ci]) in es {
        ShortenedPks(es[(c, rows[pk][ci])], pk);
      }
      forall v | v != rows[pk][ci] ensures Pks(es', c, v) == Pks(es, c, v) {
        assert (c, v) !in keys;
      }
      RemovedAgrees(rows, es, es', c, ci, pk);
    }
  }

  /** The entries after a row has got another value in column `c`. */
  function Changed(es: Entries, c: string, was: string, val: string, pk: string): Entries {
    EntriesWith(EntriesWithout(es, {(c, was)}, pk), {(c, val)}, pk)
  }

  lemma AgreesChanged(rows: map<string, Row>, columns: seq<string>, indexed: set<string>, es: Entries, c: string,
                      pk: string, val: string)
    requires Agrees(rows, columns, indexed, es) && c in indexed && c in columns
    requires pk in rows && |rows[pk]| == |columns| && SEP !in pk
    ensures var ci := Position(columns, c);
            Agrees(rows[pk := rows[pk][ci := val]], columns, indexed, Changed(es, c, rows[pk][ci], val, pk))
  {
    var ci := Position(columns, c);
    var row, es' := rows[pk][ci := val], Changed(es, c, rows[pk][ci], val, pk);
    ChangedColumn(rows, es, c, ci, pk, val);
    forall d | d in indexed && d in columns && d != c ensures ColumnAgrees(rows[pk := row], es', d, Position(columns, d)) {
      assert forall v: string :: (d, v).0 != c;
      OtherColumn(rows, es, es', d, Position(columns, d));
      ChangedAgrees(rows, es', d, Position(columns, d), pk, row);
    }
  }

  lemma ChangedColumn(rows: map<string, Row>, es: Entries, c: string, ci: nat, pk: string, val: string)
    requires ColumnAgrees(rows, es, c, ci) && pk in rows && ci < |rows[pk]| && SEP !in pk
    ensures ColumnAgrees(rows[pk := rows[pk][ci := val]], Changed(es, c, rows[pk][ci], val, pk), c, ci)
  {
    var row, es' := rows[pk][ci := val], EntriesWithout(es, {(c, rows[pk][ci])}, pk);
    GoneFromColumn(rows, es, c, ci, pk);
    assert !Matches(rows - {pk}, ci, pk, val) && pk !in Pks(es', c, val);
    OneMore(rows - {pk}, es', c, ci, pk, row);
    assert (rows - {pk})[pk := row] == rows[pk := row];
  }

  lemma GoneFromColumn(rows: map<string, Row>, es: Entries, c: string, ci: nat, pk: string)
    requires ColumnAgrees(rows, es, c, ci) && pk in rows && ci < |rows[pk]|
    ensures ColumnAgrees(rows - {pk}, EntriesWithout(es, {(c, rows[pk][ci])}, pk), c, ci)
  {
    WithNone(es, pk);
    WithoutNext(es, {}, c, rows[pk][ci], pk);
    assert {} + {(c, rows[pk][ci])} == {(c, rows[pk][ci])};
    RemoveFromColumn(rows, es, c, ci, pk);
  }

  lemma OneMore(rows: map<string, Row>, es: Entries, c: string, ci: nat, pk: string, row: Row)
    requires ColumnAgrees(rows, es, c, ci) && pk !in rows && ci < |row| && SEP !in pk
    ensures ColumnAgrees(rows[pk := row], EntriesWith(es, {(c, row[ci])}, pk), c, ci)
  {
    assert !Matches(rows, ci, pk, row[ci]) && pk !in Pks(es, c, row[ci]);
    LengthenedPks(es, c, row[ci], pk);
    AddedAgrees(rows, es, EntriesWith(es, {(c, row[ci])}, pk), c, ci, pk, row);
  }

  lemma ChangedAgrees(rows: map<string, Row>, es: Entries, c: string, ci: nat, pk: string, row: Row)
    requires ColumnAgrees(rows, es, c, ci) && pk in rows && ci < |row| && ci < |rows[pk]| && row[ci] == rows[pk][ci]
    ensures ColumnAgrees(rows[pk := row], es, c, ci)
  {
    assert forall p, v :: Matches(rows[pk := row], ci, p, v) == Matches(rows, ci, p, v);
  }

  /** A column without index may change freely. */
  lemma AgreesUnindexed(rows: map<string, Row>, columns: seq<string>, indexed: set<string>, es: Entries, c: string,
                        pk: string, val: string)
    requires Agrees(rows, columns, indexed, es) && c !in indexed && c in columns && pk in rows && |rows[pk]| == |columns|
    ensures Agrees(rows[pk := rows[pk][Position(columns, c) := val]], columns, indexed, es)
  {
    var row := rows[pk][Position(columns, c) := val];
    forall d | d in indexed && d in columns ensures ColumnAgrees(rows[pk := row], es, d, Position(columns, d)) {
      ChangedAgrees(rows, es, d, Position(columns, d), pk, row);
    }
  }

  lemma RowEntriesNext(columns: seq<string>, done: set<string>, c: string, row: Row)
    requires |row| == |columns| && c in columns
    ensures RowEntries(columns, done + {c}, row) == RowEntries(columns, done, row) + {(c, row[Position(columns, c)])}
    ensures (c, row[Position(columns, c)]) in RowEntries(columns, done, row) <==> c in done
  {
  }

  lemma AllDone(indexes: map<string, string>, columns: seq<string>, done: set<string>)
    requires done <= indexes.Values
    requires forall name {:trigger indexes[name]} :: name in indexes && indexes[name] in columns ==>
               indexes[name] in done
    ensures forall c :: c in indexes.Values && c in columns ==> c in done
    ensures forall row: Row :: |row| == |columns| ==>
              RowEntries(columns, done, row) == RowEntries(columns, indexes.Values, row)
  {
    forall c | c in indexes.Values && c in columns ensures c in done {
      var name :| name in indexes && indexes[name] == c;
    }
  }

  /** Some index of the row's values has an entry key that is too long. */
  ghost predicate TooLong(table: string, columns: seq<string>, indexed: set<string>, row: Row)
    requires |row| == |columns|
  {
    exists c :: c in indexed && c in columns && !KeyFits(EntryKey(table, c, row[Position(columns, c)]))
  }

  /** One round of a loop that adds a row to all indexes: the row is entered under one more column, or was there. It
      fails, leaving the index without the row, if a UNIQUE value is taken or the entry key is too long. */
  lemma AddRound(table: string, rows: map<string, Row>, columns: seq<string>, indexed: set<string>, es: Entries,
                 done: set<string>, c: string, pk: string, row: Row, unique: bool)
    requires |row| == |columns| && Agrees(rows, columns, indexed, es) && SEP !in pk && pk !in rows
    requires c in indexed && c in columns
    ensures var v, now := row[Position(columns, c)], EntriesWith(es, RowEntries(columns, done, row), pk);
            var added := Added(table, now, c, v, pk, unique);
            && (added.Stored? ==> added.es == EntriesWith(es, RowEntries(columns, done + {c}, row), pk))
            && (added.Stored? && c !in done ==>
                  !(unique && Taken(rows, columns, c, row)) && KeyFits(EntryKey(table, c, v)))
            && (added.ValueTaken? ==> unique && Taken(rows, columns, c, row))
            && (added.Oversize? ==> !KeyFits(EntryKey(table, c, v)))
            && (!added.Stored? ==> !Agrees(rows[pk := row], columns, indexed, now))
  {
    var ci := Position(columns, c);
    var keys := RowEntries(columns, done, row);
    var now := EntriesWith(es, keys, pk);
    RowEntriesNext(columns, done, c, row);
    WithNext(table, es, keys, c, row[ci], pk, unique);
    if c !in done {
      assert ColumnAgrees(rows, es, c, ci);
      AddToColumn(table, rows, es, c, ci, pk, row, unique);
      assert !Matches(rows, ci, pk, row[ci]) && pk !in Pks(es, c, row[ci]);
      assert Pks(now, c, row[ci]) == Pks(es, c, row[ci]);
      MissingDisagrees(rows[pk := row], now, c, ci, pk);
    } else {
      assert keys + {(c, row[ci])} == keys;
    }
  }

  /** An entry that looks like a handle when it is read on the way was there before, or is there at the end. */
  lemma ReadOnTheWay(es: Entries, keys: set<(string, string)>, all: set<(string, string)>, key: (string, string),
                     pk: string)
    requires keys <= all
    ensures key in EntriesWith(es, keys, pk) && LooksLikeHandle(EntriesWith(es, keys, pk)[key]) && Readable(es) ==>
              !Readable(EntriesWith(es, all, pk))
    ensures key in EntriesWithout(es, keys, pk) && LooksLikeHandle(EntriesWithout(es, keys, pk)[key]) && Readable(es) ==>
              !Readable(EntriesWithout(es, all, pk))
  {
    if key in EntriesWith(es, keys, pk) && LooksLikeHandle(EntriesWith(es, keys, pk)[key]) && Readable(es) {
      assert key in EntriesWith(es, all, pk) && EntriesWith(es, all, pk)[key] == EntriesWith(es, keys, pk)[key];
    }
    if key in EntriesWithout(es, keys, pk) && LooksLikeHandle(EntriesWithout(es, keys, pk)[key]) && Readable(es) {
      assert EntriesWithout(es, all, pk)[key] == EntriesWithout(es, keys, pk)[key];
    }
  }

  /** Some index is for a column that the table has. */
  ghost predicate AnyIndexed(columns: seq<string>, indexed: set<string>) {
    exists c :: c in indexed && c in columns
  }

  /** Some column in `unique` has two indexes. */
  ghost predicate TwiceIndexed(indexes: map<string, string>, columns: seq<string>, unique: set<string>) {
    exists m, n :: m in indexes && n in indexes && m != n && indexes[m] == indexes[n] && indexes[m] in columns &&
      indexes[m] in unique
  }

  /** The columns in `done` are those of some of the indexes in `names`. */
  ghost predicate Met(indexes: map<string, string>, names: set<string>, done: set<string>) {
    names <= indexes.Keys && forall c {:trigger c in done} :: c in done ==> exists n :: n in names && indexes[n] == c
  }

  lemma MetNext(indexes: map<string, string>, names: set<string>, done: set<string>, name: string)
    requires Met(indexes, names, done) && name in indexes
    ensures Met(indexes, names + {name}, done) && Met(indexes, names + {name}, done + {indexes[name]})
  {
    forall c | c in done + {indexes[name]} ensures exists n :: n in names + {name} && indexes[n] == c {
      if c in done {
        var n :| n in names && indexes[n] == c;
        assert n in names + {name};
      } else {
        assert name in names + {name};
      }
    }
  }

  /** Meeting a column again means that it has two indexes. */
  lemma MetAgain(indexes: map<string, string>, names: set<string>, columns: seq<string>, done: set<string>, name: string)
    requires Met(indexes, names, done) && name in indexes && name !in names && indexes[name] in columns
    ensures indexes[name] in done ==> TwiceIndexed(indexes, columns, indexes.Values)
  {
    if indexes[name] in done {
      var n :| n in names && indexes[n] == indexes[name];
    }
  }

  /** The entries for columns not in `done` are as before. */
  ghost predicate Untouched(es: Entries, es': Entries, done: set<string>) {
    forall key {:trigger key in es'} :: key in es' && key.0 !in done ==> key in es && es[key] == es'[key]
  }

  lemma UntouchedNext(table: string, es: Entries, es': Entries, done: set<string>, c: string, v: string, pk: string,
                      unique: bool)
    requires Readable(es) && Untouched(es, es', done)
    ensures var added := Added(table, es', c, v, pk, unique); added.Stored? ==> Untouched(es, added.es, done + {c})
    ensures (c, v) in es' && LooksLikeHandle(es'[(c, v)]) ==> c in done
  {
    assert (c, v).0 == c;
  }

  /** The indexes in `names` are for the columns in `done`, no two of them for the same UNIQUE column. */
  ghost predicate Seen(indexes: map<string, string>, names: set<string>, columns: seq<string>, unique: set<string>,
                       done: set<string>) {
    && names <= indexes.Keys
    && (forall n {:trigger indexes[n]} :: n in names && indexes[n] in columns ==> indexes[n] in done)
    && (forall c {:trigger c in done} :: c in done ==> c in columns && exists n :: n in names && indexes[n] == c)
    && (forall m, n {:trigger indexes[m], indexes[n]} ::
          m in names && n in names && m != n && indexes[m] in columns && indexes[m] in unique ==> indexes[m] != indexes[n])
  }

  lemma SeenNext(indexes: map<string, string>, names: set<string>, columns: seq<string>, unique: set<string>,
                 done: set<string>, name: string)
    requires Seen(indexes, names, columns, unique, done) && name in indexes && name !in names
    requires indexes[name] in columns && indexes[name] in unique ==> indexes[name] !in done
    ensures Seen(indexes, names + {name}, columns, unique,
                 if indexes[name] in columns then done + {indexes[name]} else done)
  {
    var c := indexes[name];
    forall d | d in done ensures exists n :: n in names + {name} && indexes[n] == d {
      var n :| n in names && indexes[n] == d;
      assert n in names + {name};
    }
    assert name in names + {name};
  }

  /** Meeting a UNIQUE column again means that it has two indexes. */
  lemma SeenAgain(indexes: map<string, string>, names: set<string>, columns: seq<string>, unique: set<string>,
                  done: set<string>, name: string)
    requires Seen(indexes, names, columns, unique, done) && name in indexes && name !in names
    ensures indexes[name] in done && indexes[name] in unique ==> TwiceIndexed(indexes, columns, unique)
  {
    if indexes[name] in done && indexes[name] in unique {
      var n :| n in names && indexes[n] == indexes[name];
    }
  }

  lemma AllSeen(indexes: map<string, string>, columns: seq<string>, unique: set<string>, done: set<string>)
    requires Seen(indexes, indexes.Keys, columns, unique, done)
    ensures !TwiceIndexed(indexes, columns, unique)
    ensures forall c :: c in indexes.Values && c in columns ==> c in done
  {
    AllDone(indexes, columns, done);
  }

  /** On the way to adding a row whose key contains the separator: the columns in `done` have parts of the key. */
  ghost predicate Spoiling(rows: map<string, Row>, columns: seq<string>, indexed: set<string>, es: Entries,
                           done: set<string>, row: Row)
    requires |row| == |columns|
  {
    forall c {:trigger c in indexed} :: c in indexed && c in columns ==>
      if c in done then Pks(es, c, row[Position(columns, c)]) != []
      else ColumnAgrees(rows, es, c, Position(columns, c))
  }

  /** One round of a loop that adds such a row. A second index of a UNIQUE column does not find the key it has just
      added, and takes its parts for those of another row. */
  lemma SpoilRound(table: string, rows: map<string, Row>, columns: seq<string>, indexed: set<string>, es: Entries,
                   done: set<string>, c: string, pk: string, row: Row, unique: bool)
    requires |row| == |columns| && Spoiling(rows, columns, indexed, es, done, row)
    requires c in indexed && c in columns && SEP in pk && pk !in rows
    ensures var v := row[Position(columns, c)];
            var added := Added(table, es, c, v, pk, unique);
            && (added.ValueTaken? <==> unique && (c in done || Taken(rows, columns, c, row)))
            && (added.Oversize? ==> !KeyFits(EntryKey(table, c, v)))
            && (added.Stored? ==>
                  KeyFits(EntryKey(table, c, v)) && Spoiling(rows, columns, indexed, added.es, done + {c}, row))
  {
    var ci := Position(columns, c);
    var added := Added(table, es, c, row[ci], pk, unique);
    AddedPks(table, es, c, row[ci], pk, unique);
    if c !in done {
      AddToColumn(table, rows, es, c, ci, pk, row, unique);
    }
    if added.Stored? {
      SpoilMore(rows, columns, indexed, es, added.es, done, c, row);
    }
  }

  lemma SpoilMore(rows: map<string, Row>, columns: seq<string>, indexed: set<string>, es: Entries, es': Entries,
                  done: set<string>, c: string, row: Row)
    requires |row| == |columns| && Spoiling(rows, columns, indexed, es, done, row)
    requires c in columns && Pks(es', c, row[Position(columns, c)]) != []
    requires forall key: (string, string) :: key.0 != c ==>
               (key in es' <==> key in es) && (key in es' && key in es ==> es'[key] == es[key])
    ensures Spoiling(rows, columns, indexed, es', done + {c}, row)
  {
    forall d | d in indexed && d in columns
      ensures if d in done + {c} then Pks(es', d, row[Position(columns, d)]) != []
              else ColumnAgrees(rows, es', d, Position(columns, d))
    {
      if d != c {
        assert forall v: string :: (d, v).0 != c;
        assert Pks(es', d, row[Position(columns, d)]) == Pks(es, d, row[Position(columns, d)]);
        if d !in done {
          OtherColumn(rows, es, es', d, Position(columns, d));
        }
      }
    }
  }

  // ---- UNIQUE ----

  function Lower(c: char): char {
    if 'A' <= c <= 'Z' then (c as int + 32) as char else c
  }

  /** The names are equal up to the case of ASCII letters. */
  predicate SameName(a: string, b: string) {
    |a| == |b| && forall i :: 0 <= i < |a| ==> Lower(a[i]) == Lower(b[i])
  }

  /** The one is the capital letter of the other. */
  predicate IsCapital(c: char, d: char) {
    'A' <= c <= 'Z' && d as int - 'a' as int == c as int - 'A' as int
  }

  /** That is: at every position they have the same character, or a capital and its small letter. */
  lemma SameNameMeans(a: string, b: string)
    ensures SameName(a, b) <==>
            && |a| == |b|
            && forall i :: 0 <= i < |a| ==> a[i] == b[i] || IsCapital(a[i], b[i]) || IsCapital(b[i], a[i])
  {
    if |a| == |b| {
      forall i | 0 <= i < |a|
        ensures Lower(a[i]) == Lower(b[i]) <==> a[i] == b[i] || IsCapital(a[i], b[i]) || IsCapital(b[i], a[i])
      {
        SameLetter(a[i], b[i]);
      }
    }
  }

  lemma SameLetter(c: char, d: char)
    ensures Lower(c) == Lower(d) <==> c == d || IsCapital(c, d) || IsCapital(d, c)
  {
    assert c as int == d as int ==> c == d;
  }

  /** INSERT takes a column for UNIQUE if the first column whose name is equal up to case is declared so. */
  predicate TakenForUnique(columns: seq<string>, declared: set<string>, c: string) {
    exists i :: 0 <= i < |columns| && SameName(columns[i], c) && columns[i] in declared &&
      forall j :: 0 <= j < i ==> !SameName(columns[j], c)
  }

  /** The indexed columns that INSERT takes for UNIQUE. */
  ghost function Checked(columns: seq<string>, declared: set<string>, indexed: set<string>): set<string> {
    set c | c in indexed && c in columns && TakenForUnique(columns, declared, c)
  }

  /** The columns declared UNIQUE that INSERT takes for UNIQUE too. */
  ghost function Enforced(columns: seq<string>, declared: set<string>): set<string> {
    Checked(columns, declared, declared)
  }

  /** Those are all of them if no two columns differ in case only. */
  lemma CaseApart(columns: seq<string>, declared: set<string>)
    requires forall i, j :: 0 <= i < |columns| && 0 <= j < |columns| && SameName(columns[i], columns[j]) ==>
               columns[i] == columns[j]
    ensures forall c :: c in columns ==> (TakenForUnique(columns, declared, c) <==> c in declared)
  {
    forall c | c in columns ensures TakenForUnique(columns, declared, c) <==> c in declared {
      var i := Position(columns, c);
      FirstPosition(columns, c, 0);
      assert forall j :: 0 <= j < |columns| && SameName(columns[j], c) ==> columns[j] == columns[i];
      assert SameName(columns[i], c);
    }
  }

  lemma FirstPosition(columns: seq<string>, c: string, from: nat)
    requires exists j :: from <= j < |columns| && columns[j] == c
    ensures forall j :: from <= j < PositionFrom(columns, c, from) ==> columns[j] != c
    decreases |columns| - from
  {
    if columns[from] != c {
      FirstPosition(columns, c, from + 1);
    }
  }

  /** Some row has the value in column `c` that `row` has. */
  ghost predicate Taken(rows: map<string, Row>, columns: seq<string>, c: string, row: Row)
    requires |row| == |columns| && c in columns
  {
    exists other :: Matches(rows, Position(columns, c), other, row[Position(columns, c)])
  }

  /** Some row has the value that `row` has in some UNIQUE column. */
  ghost predicate Repeats(rows: map<string, Row>, columns: seq<string>, unique: set<string>, row: Row)
    requires |row| == |columns|
  {
    exists c :: c in unique && c in columns && Taken(rows, columns, c, row)
  }

  ghost predicate ColumnUnique(rows: map<string, Row>, ci: nat) {
    forall v, p, q {:trigger Matches(rows, ci, p, v), Matches(rows, ci, q, v)} ::
      Matches(rows, ci, p, v) && Matches(rows, ci, q, v) ==> p == q
  }

  /** No value occurs twice in a UNIQUE column. */
  ghost predicate UniqueHeld(rows: map<string, Row>, columns: seq<string>, unique: set<string>) {
    forall c {:trigger c in unique} :: c in unique && c in columns ==> ColumnUnique(rows, Position(columns, c))
  }

  lemma FewerUnique(rows: map<string, Row>, ci: nat, pk: string)
    requires ColumnUnique(rows, ci)
    ensures ColumnUnique(rows - {pk}, ci)
  {
    assert forall p, v :: Matches(rows - {pk}, ci, p, v) ==> Matches(rows, ci, p, v);
  }

  lemma FreshUnique(rows: map<string, Row>, ci: nat, pk: string, row: Row)
    requires ColumnUnique(rows, ci) && pk !in rows && ci < |row|
    requires forall other :: !Matches(rows, ci, other, row[ci])
    ensures ColumnUnique(rows[pk := row], ci)
  {
    var after := rows[pk := row];
    forall v, p, q | Matches(after, ci, p, v) && Matches(after, ci, q, v) ensures p == q {
      assert p != pk ==> Matches(rows, ci, p, v);
      assert q != pk ==> Matches(rows, ci, q, v);
    }
  }

  /** A changed row: its other columns keep their values, so those stay unique. */
  lemma ChangedUnique(rows: map<string, Row>, ci: nat, pk: string, row: Row)
    requires ColumnUnique(rows, ci) && pk in rows && ci < |row| && ci < |rows[pk]| && row[ci] == rows[pk][ci]
    ensures ColumnUnique(rows[pk := row], ci)
  {
    var after := rows[pk := row];
    forall v, p, q | Matches(after, ci, p, v) && Matches(after, ci, q, v) ensures p == q {
      assert Matches(rows, ci, p, v) && Matches(rows, ci, q, v);
    }
  }
}
