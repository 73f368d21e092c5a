/** Strings as the bytes the database stores. */
module Text {
  import opened Bytes
  import opened Nodes
  import opened Overflow

  /** The UTF-8 encoding of a character. */
  function CharBytes(c: char): (b: bytes)
    ensures 1 <= |b| <= 4
  {
    var n := c as int;
    if n < 0x80 then [n as byte]
    else if n < 0x800 then [(0xC0 + n / 0x40) as byte, (0x80 + n % 0x40) as byte]
    else if n < 0x10000 then
      [(0xE0 + n / 0x1000) as byte, (0x80 + n / 0x40 % 0x40) as byte, (0x80 + n % 0x40) as byte]
    else
      [(0xF0 + n / 0x40000) as byte, (0x80 + n / 0x1000 % 0x40) as byte, (0x80 + n / 0x40 % 0x40) as byte,
       (0x80 + n % 0x40) as byte]
  }

  /** The code point that the bytes of one character stand for: section 3 of RFC 3629 puts the tags 110, 1110 or 11110 in
      front of its high bits and 10 in front of each further six. */
  function CodePoint(b: bytes): int
    requires 1 <= |b| <= 4
  {
    if |b| == 1 then b[0] as int
    else if |b| == 2 then (b[0] as int - 0xC0) * 0x40 + (b[1] as int - 0x80)
    else if |b| == 3 then (b[0] as int - 0xE0) * 0x1000 + (b[1] as int - 0x80) * 0x40 + (b[2] as int - 0x80)
    else
      (b[0] as int - 0xF0) * 0x40000 + (b[1] as int - 0x80) * 0x1000 + (b[2] as int - 0x80) * 0x40 + (b[3] as int - 0x80)
  }

  /** A character takes one byte up to U+007F, two up to U+07FF, three up to U+FFFF and four above, and they stand for it. */
  lemma CharEncodes(c: char)
    ensures var n, b := c as int, CharBytes(c);
            && CodePoint(b) == n
            && (|b| == 1 <==> n <= 0x7F) && (|b| == 2 <==> 0x80 <= n <= 0x7FF)
            && (|b| == 3 <==> 0x800 <= n <= 0xFFFF) && (|b| == 4 <==> 0x10000 <= n)
  {
    Digits(c as int);
  }

  function Utf8(s: string): bytes {
    if s == "" then [] else Utf8(s[..|s| - 1]) + CharBytes(s[|s| - 1])
  }

  lemma {:induction false} Utf8Concat(a: string, b: string)
    ensures Utf8(a + b) == Utf8(a) + Utf8(b)
  {
    if b == "" {
      assert a + b == a;
    } else {
      var c := b[..|b| - 1];
      assert (a + b)[..|a + b| - 1] == a + c;
      Utf8Concat(a, c);
      AppendAssociative(Utf8(a), Utf8(c), CharBytes(b[|b| - 1]));
    }
  }

  // ---- Different strings have different bytes ----

  /** A byte that does not begin a character. */
  predicate Continues(b: byte) {
    0x80 <= b < 0xC0
  }

  lemma CharShape(c: char)
    ensures !Continues(CharBytes(c)[0]) && forall i :: 1 <= i < |CharBytes(c)| ==> Continues(CharBytes(c)[i])
  {
  }

  lemma CharsApart(c: char, d: char)
    requires CharBytes(c) == CharBytes(d)
    ensures c == d
  {
    var m, n := c as int, d as int;
    assert m == n by {
      Digits(m);
      Digits(n);
    }
  }

  lemma Digits(n: nat)
    requires n < 0x110000
    ensures n == 0x40 * (n / 0x40) + n % 0x40
    ensures n == 0x1000 * (n / 0x1000) + 0x40 * (n / 0x40 % 0x40) + n % 0x40
    ensures n == 0x40000 * (n / 0x40000) + 0x1000 * (n / 0x1000 % 0x40) + 0x40 * (n / 0x40 % 0x40) + n % 0x40
  {
  }

  /** Where the last character begins. */
  lemma LastBegins(a: bytes, c: char)
    ensures !Continues((a + CharBytes(c))[|a|])
    ensures forall i :: |a| < i < |a + CharBytes(c)| ==> Continues((a + CharBytes(c))[i])
  {
    CharShape(c);
    assert forall i :: |a| <= i < |a + CharBytes(c)| ==> (a + CharBytes(c))[i] == CharBytes(c)[i - |a|];
  }

  /** Equal bytes end with the same character. */
  lemma SameLast(a: bytes, c: char, b: bytes, d: char)
    requires a + CharBytes(c) == b + CharBytes(d)
    ensures a == b && c == d
  {
    var x, y := CharBytes(c), CharBytes(d);
    var s := a + x;
    LastBegins(a, c);
    LastBegins(b, d);
    assert |a| == |b|;
    assert a == s[..|a|] && b == s[..|b|] && x == s[|a|..] && y == s[|b|..];
    CharsApart(c, d);
  }

  lemma {:induction false} Utf8Injective(s: string, t: string)
    requires Utf8(s) == Utf8(t)
    ensures s == t
  {
    if s != "" && t != "" {
      SameLast(Utf8(s[..|s| - 1]), s[|s| - 1], Utf8(t[..|t| - 1]), t[|t| - 1]);
      Utf8Injective(s[..|s| - 1], t[..|t| - 1]);
      assert s == s[..|s| - 1] + [s[|s| - 1]] && t == t[..|t| - 1] + [t[|t| - 1]];
    }
  }

  // ---- What the database does with a string ----

  /** The database takes it as a key. */
  predicate KeyFits(k: string) {
    |Utf8(k)| <= MAX_KEY_SIZE
  }

  /** As a stored value it is taken for an overflow handle. */
  predicate LooksLikeHandle(s: string) {
    IsHandle(Utf8(s))
  }

  lemma {:induction false} AtLeastOneByte(s: string)
    ensures |Utf8(s)| >= |s|
  {
    if s != "" {
      AtLeastOneByte(s[..|s| - 1]);
    }
  }

  /** Bytes below 128 at the beginning are characters at the beginning. */
  lemma {:induction false} FirstChars(s: string, k: nat)
    requires k <= |Utf8(s)| && forall i :: 0 <= i < k ==> Utf8(s)[i] < 0x80
    ensures k <= |s| && forall i :: 0 <= i < k ==> s[i] as int == Utf8(s)[i] as int
  {
    if s != "" {
      var before, c := s[..|s| - 1], s[|s| - 1];
      AtLeastOneByte(before);
      assert forall i :: 0 <= i < |Utf8(before)| ==> Utf8(before)[i] == Utf8(s)[i];
      if k <= |Utf8(before)| {
        FirstChars(before, k);
      } else {
        FirstChars(before, |Utf8(before)|);
        assert Utf8(s)[|Utf8(before)|] == CharBytes(c)[0];
      }
    }
  }

  lemma {:induction false} FirstBytes(s: string, k: nat)
    requires k <= |s| && forall i :: 0 <= i < k ==> s[i] as int < 0x80
    ensures k <= |Utf8(s)| && forall i :: 0 <= i < k ==> Utf8(s)[i] as int == s[i] as int
  {
    if |s| > k {
      FirstBytes(s[..|s| - 1], k);
    } else if k > 0 {
      FirstBytes(s[..k - 1], k - 1);
      ShortBytes(s[..k - 1]);
    }
  }

  lemma {:induction false} ShortBytes(s: string)
    requires forall i :: 0 <= i < |s| ==> s[i] as int < 0x80
    ensures |Utf8(s)| == |s|
  {
    if s != "" {
      ShortBytes(s[..|s| - 1]);
    }
  }

  /** A text looks like a handle exactly if it begins with the magic letters and is twelve bytes long. */
  lemma HandleText(s: string)
    ensures LooksLikeHandle(s) <==> "OVRF" <= s && |Utf8(s)| == 12
  {
    if LooksLikeHandle(s) {
      assert forall i :: 0 <= i < 4 ==> Utf8(s)[i] == Utf8(s)[..4][i] == MAGIC[i];
      FirstChars(s, 4);
      assert s[..4] == "OVRF";
    }
    if "OVRF" <= s {
      assert forall i :: 0 <= i < 4 ==> s[i] == "OVRF"[i];
      FirstBytes(s, 4);
      assert Utf8(s)[..4] == MAGIC;
    }
  }
}
