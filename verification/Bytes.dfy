/** Big-endian integers, length-prefixed strings and their self-delimiting property. */
module Bytes {
  import opened Orders

  const TWO16 := 0x1_0000
  const TWO32 := 0x1_0000_0000
  const TWO64 := 0x1_0000_0000_0000_0000

  function Pow256(n: nat): (p: nat)
    ensures p > 0
  {
    if n == 0 then 1 else 256 * Pow256(n - 1)
  }

  /** `to_be_bytes` of an `n`-byte unsigned integer; higher bits are cut off. */
  function BigEndian(v: nat, n: nat): (b: Text)
    ensures |b| == n
  {
    if n == 0 then [] else BigEndian(v / 256, n - 1) + [v % 256]
  }

  lemma {:induction false} BigEndianInjective(a: nat, b: nat, n: nat)
    requires a < Pow256(n) && b < Pow256(n) && BigEndian(a, n) == BigEndian(b, n)
    ensures a == b
  {
    if n > 0 {
      var x, y := BigEndian(a, n), BigEndian(b, n);
      assert x[n - 1] == a % 256 && y[n - 1] == b % 256;
      assert x[..n - 1] == BigEndian(a / 256, n - 1) && y[..n - 1] == BigEndian(b / 256, n - 1);
      BigEndianInjective(a / 256, b / 256, n - 1);
    }
  }

  lemma Widths()
    ensures Pow256(2) == TWO16 && Pow256(4) == TWO32 && Pow256(8) == TWO64
  {
  }

  lemma Regroup(a: Text, b: Text, c: Text)
    ensures (a + b) + c == a + (b + c)
  {
  }

  /** Two equal streams that start with fields of equal length agree on field and rest. */
  lemma CancelFixed(x: Text, y: Text, r: Text, s: Text)
    requires |x| == |y| && x + r == y + s
    ensures x == y && r == s
  {
    assert x == (x + r)[..|x|] && y == (y + s)[..|y|];
    assert r == (x + r)[|x|..] && s == (y + s)[|y|..];
  }

  lemma CancelWidth(a: nat, b: nat, n: nat, r: Text, s: Text)
    requires a < Pow256(n) && b < Pow256(n) && BigEndian(a, n) + r == BigEndian(b, n) + s
    ensures a == b && r == s
  {
    CancelFixed(BigEndian(a, n), BigEndian(b, n), r, s);
    BigEndianInjective(a, b, n);
  }

  /** The `as u16`, `as u32` and `as u64` casts keep only the low bits. */
  function Cut(v: nat, n: nat): nat { if v < Pow256(n) then v else v % Pow256(n) }

  function Unsigned(v: nat, n: nat): (b: Text)
    ensures |b| == n
  {
    BigEndian(Cut(v, n), n)
  }

  lemma CancelUnsigned(a: nat, b: nat, n: nat, r: Text, s: Text)
    requires a < Pow256(n) && b < Pow256(n) && Unsigned(a, n) + r == Unsigned(b, n) + s
    ensures a == b && r == s
  {
    CancelWidth(a, b, n, r, s);
  }

  function U16(v: nat): (b: Text) ensures |b| == 2 { Unsigned(v, 2) }
  function U32(v: nat): (b: Text) ensures |b| == 4 { Unsigned(v, 4) }
  function U64(v: nat): (b: Text) ensures |b| == 8 { Unsigned(v, 8) }

  lemma CancelU16(a: nat, b: nat, r: Text, s: Text)
    requires a < TWO16 && b < TWO16 && U16(a) + r == U16(b) + s
    ensures a == b && r == s
  {
    Widths();
    CancelUnsigned(a, b, 2, r, s);
  }

  lemma CancelU32(a: nat, b: nat, r: Text, s: Text)
    requires a < TWO32 && b < TWO32 && U32(a) + r == U32(b) + s
    ensures a == b && r == s
  {
    Widths();
    CancelUnsigned(a, b, 4, r, s);
  }

  lemma CancelU64(a: nat, b: nat, r: Text, s: Text)
    requires a < TWO64 && b < TWO64 && U64(a) + r == U64(b) + s
    ensures a == b && r == s
  {
    Widths();
    CancelUnsigned(a, b, 8, r, s);
  }

  /** A string behind its 32-bit length, cast as the source casts it. */
  function Text32(t: Text): Text { U32(|t|) + t }

  lemma CancelText32(a: Text, b: Text, r: Text, s: Text)
    requires |a| < TWO32 && |b| < TWO32 && Text32(a) + r == Text32(b) + s
    ensures a == b && r == s
  {
    Regroup(U32(|a|), a, r);
    Regroup(U32(|b|), b, s);
    CancelU32(|a|, |b|, a + r, b + s);
    CancelFixed(a, b, r, s);
  }

  /** A value behind its 64-bit length. */
  function Framed(t: Text): Text { U64(|t|) + t }

  lemma CancelFramed(a: Text, b: Text, r: Text, s: Text)
    requires |a| < TWO64 && |b| < TWO64 && Framed(a) + r == Framed(b) + s
    ensures a == b && r == s
  {
    Regroup(U64(|a|), a, r);
    Regroup(U64(|b|), b, s);
    CancelU64(|a|, |b|, a + r, b + s);
    CancelFixed(a, b, r, s);
  }

  datatype Algorithm = Blake3 | Sha256

  /** A tagged 256-bit digest with the byte size of its source. */
  datatype Digest = Digest(algorithm: Algorithm, hash: Text, size: nat)

  predicate ValidDigest(d: Digest) { |d.hash| == 32 && d.size < TWO64 }

  /** `DigestAlgorithm::canonical_tag`. */
  function AlgorithmTag(a: Algorithm): Byte { if a == Blake3 then 1 else 2 }

  function DigestBytes(d: Digest): Text { [AlgorithmTag(d.algorithm)] + (U64(d.size) + d.hash) }

  lemma CancelDigest(a: Digest, b: Digest, r: Text, s: Text)
    requires ValidDigest(a) && ValidDigest(b) && DigestBytes(a) + r == DigestBytes(b) + s
    ensures a == b && r == s
  {
    CancelFixed(DigestBytes(a), DigestBytes(b), r, s);
    var x, y := U64(a.size) + a.hash, U64(b.size) + b.hash;
    CancelFixed([AlgorithmTag(a.algorithm)], [AlgorithmTag(b.algorithm)], x, y);
    assert [AlgorithmTag(a.algorithm)][0] == [AlgorithmTag(b.algorithm)][0];
    CancelU64(a.size, b.size, a.hash, b.hash);
  }

  /** The encodings of a list, one after the other. */
  function ConcatMap<T>(f: T -> Text, xs: seq<T>): Text {
    if xs == [] then [] else f(xs[0]) + ConcatMap(f, xs[1..])
  }

  /** No encoding of a fitting value can be confused with another one followed by something else. */
  ghost predicate SelfDelimiting<T(!new)>(f: T -> Text, fits: T -> bool) {
    forall x, y, r, s :: fits(x) && fits(y) && f(x) + r == f(y) + s ==> x == y && r == s
  }

  lemma {:induction false} CancelList<T(!new)>(f: T -> Text, fits: T -> bool, a: seq<T>, b: seq<T>, r: Text, s: Text)
    requires SelfDelimiting(f, fits) && |a| == |b| && ConcatMap(f, a) + r == ConcatMap(f, b) + s
    requires (forall i :: 0 <= i < |a| ==> fits(a[i])) && (forall i :: 0 <= i < |b| ==> fits(b[i]))
    ensures a == b && r == s
  {
    if a != [] {
      var x, y := ConcatMap(f, a[1..]), ConcatMap(f, b[1..]);
      assert (f(a[0]) + x) + r == f(a[0]) + (x + r);
      assert (f(b[0]) + y) + s == f(b[0]) + (y + s);
      CancelList(f, fits, a[1..], b[1..], r, s);
    } else {
      assert [] + r == r && [] + s == s;
    }
  }

  lemma {:induction false} ConcatOne<T>(f: T -> Text, xs: seq<T>, x: T)
    ensures ConcatMap(f, xs + [x]) == ConcatMap(f, xs) + f(x)
  {
    if xs == [] {
      assert [x][1..] == [];
    } else {
      assert (xs + [x])[1..] == xs[1..] + [x];
      ConcatOne(f, xs[1..], x);
    }
  }
}
