/** Bytes as the C++ code sees them: `char` data, little-endian PODs, and the line terminator. */
module Bytes {
  newtype byte = x: int | 0 <= x < 256
  type bytes = seq<byte>

  const CR: byte := 13
  const LF: byte := 10
  const CRLF: bytes := [CR, LF]

  /** What one past the largest `unsigned int` is. */
  const TWO_32: int := 0x1_0000_0000
  const INT_MAX: int := 0x7FFF_FFFF

  datatype Option<+T> = None | Some(value: T)

  /** The concatenation of a list of byte strings. */
  function Concat(parts: seq<bytes>): bytes
  {
    if parts == [] then [] else parts[0] + Concat(parts[1..])
  }

  lemma {:induction false} ConcatAppend(a: seq<bytes>, b: seq<bytes>)
    ensures Concat(a + b) == Concat(a) + Concat(b)
  {
    if a == [] {
      assert a + b == b;
    } else {
      assert (a + b)[1..] == a[1..] + b;
      ConcatAppend(a[1..], b);
    }
  }

  lemma ConcatSnoc(a: seq<bytes>, x: bytes)
    ensures Concat(a + [x]) == Concat(a) + x
  {
    ConcatAppend(a, [x]);
    assert Concat([x]) == x + Concat([]);
  }

  /** Cutting `a + b` within `a`, or at its end. */
  lemma CutLeft(a: bytes, b: bytes, k: nat)
    requires k <= |a|
    ensures (a + b)[..k] == a[..k]
    ensures (a + b)[k..] == a[k..] + b
  {
  }

  /** Cutting `a + b` within `b`, or at its start. */
  lemma CutRight(a: bytes, b: bytes, k: nat)
    requires k <= |b|
    ensures (a + b)[..|a| + k] == a + b[..k]
    ensures (a + b)[|a| + k..] == b[k..]
  {
  }

  lemma PrefixBehind(a: bytes, b: bytes, t: bytes) returns (v: bytes)
    requires t <= a + b && |a| <= |t|
    ensures t == a + v && v <= b
  {
    v := t[|a|..];
    assert t == (a + b)[..|t|];
    CutRight(a, b, |v|);
  }

  lemma PrefixWithin(a: bytes, b: bytes, t: bytes)
    requires t <= a + b && |t| < |a|
    ensures t < a
  {
  }

  lemma Regroup(a: bytes, b: bytes, c: bytes)
    ensures (a + b) + c == a + (b + c)
  {
  }

  /** Bytes taken with nothing kept from before, the last two of them dropped. */
  lemma NothingKept(v: bytes, k: nat)
    requires 2 <= k
    ensures [] + v == v
    ensures k <= |v| ==> ([] + v[..k])[..k - 2] == v[..k - 2]
  {
  }

  /** `memchr`: the first position of `c`, or the length when there is none. */
  function IndexOf(s: bytes, c: byte): (k: nat)
    ensures k <= |s|
    ensures c !in s[..k]
    ensures k < |s| ==> s[k] == c
  {
    if s == [] then 0
    else if s[0] == c then 0
    else
      var k := 1 + IndexOf(s[1..], c);
      assert s[..k] == [s[0]] + s[1..][..k - 1];
      k
  }

  /** The position `memchr` finds is the only one that fits its description. */
  lemma IndexOfUnique(s: bytes, c: byte, k: nat)
    requires k <= |s| && c !in s[..k] && (k < |s| ==> s[k] == c)
    ensures IndexOf(s, c) == k
  {
  }

  /** Bytes without `c` put in front only move the position `memchr` finds. */
  lemma IndexOfAfter(w: bytes, s: bytes, c: byte)
    requires c !in w
    ensures IndexOf(w + s, c) == |w| + IndexOf(s, c)
  {
    var k := |w| + IndexOf(s, c);
    assert (w + s)[..k] == w + s[..IndexOf(s, c)];
    IndexOfUnique(w + s, c, k);
  }

  /** A position found does not move when more bytes arrive. */
  lemma IndexOfBefore(s: bytes, t: bytes, c: byte)
    requires IndexOf(s, c) < |s|
    ensures IndexOf(s + t, c) == IndexOf(s, c)
  {
    var k := IndexOf(s, c);
    assert (s + t)[..k] == s[..k];
    IndexOfUnique(s + t, c, k);
  }

  /** `sizeof(unsigned int)` bytes of `n`, low byte first; higher bits are lost, as in the cast. */
  function Le32(n: nat): (b: bytes)
    ensures |b| == 4
  {
    [(n % 256) as byte, (n / 256 % 256) as byte, (n / 65536 % 256) as byte, (n / 16777216 % 256) as byte]
  }

  /** The `unsigned int` at `at`. */
  function WordAt(b: bytes, at: nat): (n: nat)
    requires at + 4 <= |b|
    ensures n < TWO_32
  {
    b[at] as nat + 256 * b[at + 1] as nat + 65536 * b[at + 2] as nat + 16777216 * b[at + 3] as nat
  }

  function FromLe32(b: bytes): (n: nat)
    requires |b| == 4
    ensures n < TWO_32
  {
    WordAt(b, 0)
  }

  lemma Divisions(n: nat)
    ensures n / 65536 == n / 256 / 256
    ensures n / 16777216 == n / 256 / 256 / 256
    ensures n / TWO_32 == n / 256 / 256 / 256 / 256
  {
  }

  /** Reading a written `unsigned int` gives it back modulo 2^32. */
  lemma Le32RoundTrip(n: nat)
    ensures FromLe32(Le32(n)) == n % TWO_32
  {
    Divisions(n);
    var a := n / 256;
    var b := a / 256;
    var c := b / 256;
    assert n == 256 * a + n % 256 && a == 256 * b + a % 256 && b == 256 * c + b % 256;
    assert c == 256 * (c / 256) + c % 256;
    var m := FromLe32(Le32(n));
    assert n == m + TWO_32 * (c / 256);
  }

  /** Low byte first: what the four bytes weigh. */
  lemma Le32Bytes(n: nat)
    ensures var b := Le32(n);
      b[0] as int + 256 * b[1] as int + 65536 * b[2] as int + 16777216 * b[3] as int == n % 0x1_0000_0000
  {
    Le32RoundTrip(n);
  }

  lemma Le32Fits(n: nat)
    requires n < TWO_32
    ensures FromLe32(Le32(n)) == n
  {
    Le32RoundTrip(n);
  }

  /** A signed `int` is stored in two's complement. */
  function LeInt(v: int): (b: bytes)
    ensures |b| == 4
  {
    Le32(v % TWO_32)
  }

  function FromLeInt(b: bytes): int
    requires |b| == 4
  {
    var n := FromLe32(b);
    if n <= INT_MAX then n else n - TWO_32
  }

  predicate IsInt(v: int) { -INT_MAX - 1 <= v <= INT_MAX }

  /** ASCII text as bytes. */
  function Ascii(s: string): (b: bytes)
    requires forall k :: 0 <= k < |s| ==> s[k] < 128 as char
    ensures |b| == |s| && forall k :: 0 <= k < |s| ==> b[k] as int == s[k] as int
  {
    seq(|s|, k requires 0 <= k < |s| => s[k] as int as byte)
  }

  lemma LeIntRoundTrip(v: int)
    ensures IsInt(v) <==> FromLeInt(LeInt(v)) == v
  {
    Le32RoundTrip(v % TWO_32);
  }
}
