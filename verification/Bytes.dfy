/** Byte strings: the order keys are compared in, and little-endian integers. */
module Bytes {
  newtype byte = x: int | 0 <= x < 256
  type bytes = seq<byte>

  const U32_MAX: nat := 0xFFFF_FFFF
  const TWO_32: nat := 0x1_0000_0000
  const TWO_64: nat := 0x1_0000_0000_0000_0000

  // ---- Lexicographic order ----

  /** Byte-wise lexicographic order, the order of Rust's `Ord` on `[u8]`. */
  predicate Less(a: bytes, b: bytes) {
    LessFrom(a, b, 0)
  }

  /** The order decided by the bytes from position `i` on. */
  predicate LessFrom(a: bytes, b: bytes, i: nat)
    requires i <= |a| && i <= |b|
    decreases |b| - i
  {
    i < |b| && (i == |a| || a[i] < b[i] || (a[i] == b[i] && LessFrom(a, b, i + 1)))
  }

  lemma {:induction false} LessFromTransitive(a: bytes, b: bytes, c: bytes, i: nat)
    requires i <= |a| && i <= |b| && i <= |c|
    requires LessFrom(a, b, i) && LessFrom(b, c, i)
    ensures LessFrom(a, c, i)
    decreases |b| - i
  {
    if i < |a| && a[i] == b[i] == c[i] {
      LessFromTransitive(a, b, c, i + 1);
    }
  }

  lemma {:induction false} LessFromTotal(a: bytes, b: bytes, i: nat)
    requires i <= |a| && i <= |b| && a[..i] == b[..i]
    ensures a == b || LessFrom(a, b, i) || LessFrom(b, a, i)
    ensures !(LessFrom(a, b, i) && LessFrom(b, a, i))
    ensures a == b ==> !LessFrom(a, b, i)
    decreases |a| - i
  {
    if i < |a| && i < |b| && a[i] == b[i] {
      assert a[..i + 1] == a[..i] + [a[i]];
      assert b[..i + 1] == b[..i] + [b[i]];
      LessFromTotal(a, b, i + 1);
    } else if i == |a| == |b| {
      assert a == a[..i] && b == b[..i];
    }
  }

  /** `Less` is a strict total order. */
  lemma LessIsStrictTotalOrder()
    ensures forall a, b, c {:trigger Less(a, b), Less(b, c)} :: Less(a, b) && Less(b, c) ==> Less(a, c)
    ensures forall a, b {:trigger Less(a, b)} :: a == b || Less(a, b) || Less(b, a)
    ensures forall a, b {:trigger Less(a, b)} :: !(Less(a, b) && Less(b, a))
    ensures forall a, b {:trigger Less(a, b)} :: a == b ==> !Less(a, b)
  {
    forall a, b, c | Less(a, b) && Less(b, c) ensures Less(a, c) {
      LessFromTransitive(a, b, c, 0);
    }
    forall a, b
      ensures a == b || Less(a, b) || Less(b, a)
      ensures !(Less(a, b) && Less(b, a))
      ensures a == b ==> !Less(a, b)
    {
      LessFromTotal(a, b, 0);
    }
  }

  /** The one is a proper beginning of the other, or has the smaller byte, as a number, where they first differ. */
  ghost predicate Lexicographic(a: bytes, b: bytes) {
    || (a <= b && a != b)
    || exists i :: 0 <= i < |a| && i < |b| && a[..i] == b[..i] && a[i] as int < b[i] as int
  }

  lemma {:induction false} FromDecides(a: bytes, b: bytes, i: nat)
    requires i <= |a| && i <= |b| && a[..i] == b[..i]
    ensures LessFrom(a, b, i) <==> Lexicographic(a, b)
    decreases |b| - i
  {
    forall j | 0 <= j < i ensures a[j] == b[j] {
      assert a[j] == a[..i][j] == b[..i][j];
    }
    if i < |a| && i < |b| {
      forall j | i < j <= |a| && j <= |b| && a[..j] == b[..j] ensures a[i] == b[i] {
        assert a[i] == a[..j][i] == b[..j][i];
      }
      if a[i] == b[i] {
        assert a[..i + 1] == a[..i] + [a[i]] && b[..i + 1] == b[..i] + [b[i]];
        FromDecides(a, b, i + 1);
      }
    }
  }

  /** `Less` is the lexicographic order of unsigned bytes. */
  lemma LessIsLexicographic(a: bytes, b: bytes)
    ensures Less(a, b) <==> Lexicographic(a, b)
  {
    FromDecides(a, b, 0);
  }

  /** The keys are in lexicographic order, each once. */
  ghost predicate Increasing(keys: seq<bytes>) {
    forall i, j {:trigger Lexicographic(keys[i], keys[j])} :: 0 <= i < j < |keys| ==> Lexicographic(keys[i], keys[j])
  }

  lemma SortedIncreasing(keys: seq<bytes>)
    requires forall i, j :: 0 <= i < j < |keys| ==> Less(keys[i], keys[j])
    ensures Increasing(keys)
  {
    forall i, j | 0 <= i < j < |keys| ensures Lexicographic(keys[i], keys[j]) {
      LessIsLexicographic(keys[i], keys[j]);
    }
  }

  /** A byte string that extends `p` is not below `p`. */
  lemma {:induction false} PrefixNotAbove(p: bytes, k: bytes, i: nat)
    requires p <= k && i <= |p|
    ensures !LessFrom(k, p, i)
    decreases |p| - i
  {
    if i < |p| {
      assert p[i] == k[i];
      PrefixNotAbove(p, k, i + 1);
    }
  }

  /** Between two strings, the first of which is `p`, lies no string that leaves the prefix `p` and is
      followed by one that has it: the strings extending `p` form one interval starting at `p`. */
  lemma {:induction false} PrefixInterval(p: bytes, k: bytes, l: bytes, i: nat)
    requires i <= |p| && i <= |k| && i <= |l|
    requires p[..i] == k[..i]
    requires LessFrom(p, k, i) && LessFrom(k, l, i) && p <= l
    ensures p <= k
    decreases |p| - i
  {
    if i < |p| {
      assert l[i] == p[i];
      if i < |k| && k[i] == p[i] {
        assert p[..i + 1] == p[..i] + [p[i]] == k[..i + 1];
        PrefixInterval(p, k, l, i + 1);
      }
    } else {
      assert p == p[..i];
    }
  }

  // ---- Little-endian integers ----

  function Pow256(k: nat): (p: nat)
    ensures p > 0
  {
    if k == 0 then 1 else 256 * Pow256(k - 1)
  }

  /** `n` without its `i` low bytes. */
  function Shifted(n: nat, i: nat): nat {
    if i == 0 then n else Shifted(n, i - 1) / 256
  }

  function Digit(n: nat, i: nat): byte {
    (Shifted(n, i) % 256) as byte
  }

  /** The `k` low bytes of `n`, least significant first: a cast to the `k`-byte unsigned type followed by
      `to_le_bytes`. */
  function LE(n: nat, k: nat): (r: bytes)
    ensures |r| == k
  {
    seq(k, i requires 0 <= i => Digit(n, i))
  }

  /** `from_le_bytes`. */
  function FromLE(s: bytes): nat {
    FromLEAt(s, 0)
  }

  function FromLEAt(s: bytes, i: nat): nat
    requires i <= |s|
    decreases |s| - i
  {
    if i == |s| then 0 else s[i] as nat + 256 * FromLEAt(s, i + 1)
  }

  /** Reading back a written integer gives its value modulo the range of the type. */
  lemma FromLEOfLE(n: nat, k: nat)
    ensures FromLE(LE(n, k)) == n % Pow256(k)
  {
    FromLEAtOfLE(n, k, 0);
  }

  lemma {:induction false} FromLEAtOfLE(n: nat, k: nat, i: nat)
    requires i <= k
    ensures FromLEAt(LE(n, k), i) == Shifted(n, i) % Pow256(k - i)
    decreases k - i
  {
    if i < k {
      FromLEAtOfLE(n, k, i + 1);
      var s, m, high := LE(n, k), Shifted(n, i), Pow256(k - i - 1);
      ModuloByDigits(m, high);
      FromLEStep(s, i, m, high);
    }
  }

  lemma FromLEStep(s: bytes, i: nat, m: nat, high: nat)
    requires i < |s| && high > 0 && s[i] as nat == m % 256
    requires FromLEAt(s, i + 1) == m / 256 % high
    requires m % (256 * high) == m % 256 + 256 * (m / 256 % high)
    ensures FromLEAt(s, i) == m % (256 * high)
  {
  }

  lemma ModuloByDigits(n: nat, m: nat)
    requires m > 0
    ensures n % (256 * m) == n % 256 + 256 * (n / 256 % m)
  {
    var q, r, low := n / 256 / m, n / 256 % m, n % 256;
    Regroup(n, 256, m, q, r, low);
    assert m * 256 == 256 * m;
    DivisionUnique(n, m * 256, q, r * 256 + low);
  }

  lemma Regroup(n: nat, a: nat, b: nat, q: nat, r: nat, low: nat)
    requires r < b && low < a && n == (q * b + r) * a + low
    ensures b * a > 0 && n == q * (b * a) + (r * a + low) && r * a + low < b * a
  {
    Distribute(q * b, r, a);
    Associate(q, b, a);
    MultiplyMonotone(r + 1, b, a);
    Distribute(r, 1, a);
  }

  lemma Distribute(x: nat, y: nat, a: nat)
    ensures (x + y) * a == x * a + y * a
  {
  }

  lemma Associate(x: nat, y: nat, z: nat)
    ensures (x * y) * z == x * (y * z)
  {
  }

  lemma DivisionUnique(n: nat, d: nat, q: nat, r: nat)
    requires r < d && n == q * d + r
    ensures n / d == q && n % d == r
  {
    QuotientUnique(n / d, q, d, n % d, r);
  }

  lemma QuotientUnique(p: nat, q: nat, d: nat, s: nat, r: nat)
    requires r < d && s < d && p * d + s == q * d + r
    ensures p == q && s == r
  {
    MultiplyMonotone(q + 1, p, d);
    MultiplyMonotone(p + 1, q, d);
  }

  lemma MultiplyMonotone(a: nat, b: nat, d: nat)
    ensures a <= b ==> a * d <= b * d
  {
  }

  lemma Pow256Values()
    ensures Pow256(2) == 0x1_0000 && Pow256(4) == TWO_32 && Pow256(8) == TWO_64
  {
    assert Pow256(4) == 256 * Pow256(3) && Pow256(3) == 256 * Pow256(2);
    assert Pow256(8) == 256 * Pow256(7) && Pow256(7) == 256 * Pow256(6)
           && Pow256(6) == 256 * Pow256(5) && Pow256(5) == 256 * Pow256(4);
  }

  lemma FromLE16(n: nat)
    requires n < 0x1_0000
    ensures FromLE(LE(n, 2)) == n
  {
    FromLEOfLE(n, 2);
    Pow256Values();
  }

  lemma FromLE32(n: nat)
    ensures FromLE(LE(n, 4)) == n % TWO_32
  {
    FromLEOfLE(n, 4);
    Pow256Values();
  }

  lemma FromLE64(n: nat)
    requires n < TWO_64
    ensures FromLE(LE(n, 8)) == n
  {
    FromLEOfLE(n, 8);
    Pow256Values();
  }

  // ---- Fields of a byte string ----

  /** The bytes of `s` from `off` on start with `b`. */
  ghost predicate HoldsAt(s: bytes, off: nat, b: bytes) {
    off + |b| <= |s| && s[off..off + |b|] == b
  }

  lemma HoldsSplit(s: bytes, off: nat, a: bytes, b: bytes)
    requires HoldsAt(s, off, a + b)
    ensures HoldsAt(s, off, a) && HoldsAt(s, off + |a|, b)
  {
    assert s[off..off + |a|] == s[off..off + |a + b|][..|a|];
    assert s[off + |a|..off + |a| + |b|] == s[off..off + |a + b|][|a|..];
  }

  /** A 32-bit length followed by the bytes. */
  function Field(b: bytes): (r: bytes)
    ensures |r| == 4 + |b|
  {
    LE(|b|, 4) + b
  }

  /** A field in a byte string gives back its length and its bytes. */
  lemma FieldHeld(s: bytes, off: nat, b: bytes)
    requires HoldsAt(s, off, Field(b)) && |b| < TWO_32
    ensures off + 4 + |b| <= |s| && FromLE(s[off..off + 4]) == |b| && s[off + 4..off + 4 + |b|] == b
  {
    HoldsSplit(s, off, LE(|b|, 4), b);
    FromLE32(|b|);
  }

  lemma SplitRest(s: bytes, off: nat, a: bytes, b: bytes)
    requires off <= |s| && s[off..] == a + b
    ensures HoldsAt(s, off, a) && s[off + |a|..] == b
  {
    assert s[off..off + |a|] == s[off..][..|a|];
    assert s[off + |a|..] == s[off..][|a|..];
  }

  lemma AppendAssociative(a: bytes, b: bytes, c: bytes)
    ensures (a + b) + c == a + (b + c)
  {
  }
}
