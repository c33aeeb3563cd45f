/** Byte-string helpers with the meaning Python gives them: `int.from_bytes(b, "little")`,
    clamping slices, `bytes.replace(b"\x00", b"")` and the `"<i"` struct format. */
module Bytes {

  const TwoTo31: nat := 0x8000_0000
  const TwoTo32: nat := 0x1_0000_0000

  function Pow256(n: nat): (r: nat)
    ensures r >= 1
  {
    if n == 0 then 1 else 256 * Pow256(n - 1)
  }

  lemma {:induction false} Pow256Monotone(a: nat, b: nat)
    requires a <= b
    ensures Pow256(a) <= Pow256(b)
  {
    if a < b {
      Pow256Monotone(a, b - 1);
    }
  }

  function Zeros(n: nat): (r: seq<bv8>)
    ensures |r| == n
    ensures forall k :: 0 <= k < n ==> r[k] == 0
  {
    seq(n, _ => 0)
  }

  /** `int.from_bytes(b, "little")`: defined for every length, the empty string reads as 0. */
  function LittleEndian(b: seq<bv8>): (r: nat)
    ensures r < Pow256(|b|)
  {
    if |b| == 0 then 0 else b[0] as nat + 256 * LittleEndian(b[1..])
  }

  /** An unsigned 32-bit little-endian field. */
  function U32(b: seq<bv8>): (r: nat)
    requires |b| == 4
    ensures r < TwoTo32
  {
    assert Pow256(4) == TwoTo32;
    LittleEndian(b)
  }

  /** The `n` little-endian bytes of `v`; it inverts `LittleEndian` on values that fit. */
  function ToLittleEndian(v: nat, n: nat): (r: seq<bv8>)
    requires v < Pow256(n)
    ensures |r| == n
    ensures LittleEndian(r) == v
  {
    if n == 0 then []
    else
      DivModBound(v, Pow256(n - 1));
      var rest := ToLittleEndian(v / 256, n - 1);
      var low := v % 256;
      var r := [ByteOf(low)] + rest;
      assert r[1..] == rest;
      assert LittleEndian(r) == low + 256 * LittleEndian(rest);
      r
  }

  /** The byte whose value is `x`. It is built up one increment at a time rather than written
      `x as bv8`, because proving `(x as bv8) as nat == x` for every x below 256 is far more
      expensive for the verifier than this short recursion. */
  function ByteOf(x: nat): (b: bv8)
    requires x < 256
    ensures b as nat == x
  {
    if x == 0 then 0 else ByteOf(x - 1) + 1
  }

  lemma DivModBound(v: nat, m: nat)
    requires v < 256 * m
    ensures v / 256 < m
    ensures v == v % 256 + 256 * (v / 256)
  {
  }

  /** Python's `s[lo:hi]` for 0 <= lo <= hi: both ends are clamped to the length. */
  function PySlice(s: seq<bv8>, lo: nat, hi: nat): (r: seq<bv8>)
    requires lo <= hi
    ensures hi <= |s| ==> r == s[lo..hi]
    ensures |s| <= lo ==> r == []
    ensures |r| <= hi - lo
  {
    var a := if lo < |s| then lo else |s|;
    var b := if hi < |s| then hi else |s|;
    s[a..b]
  }

  predicate NulFree(s: seq<bv8>) {
    forall k :: 0 <= k < |s| ==> s[k] != 0
  }

  /** `s.replace(b"\x00", b"")`: every NUL byte removed, the others kept in order. */
  function StripNul(s: seq<bv8>): (r: seq<bv8>)
    ensures NulFree(r)
    ensures |r| <= |s|
  {
    if |s| == 0 then []
    else if s[0] == 0 then StripNul(s[1..])
    else [s[0]] + StripNul(s[1..])
  }

  /** A NUL-free string passes through unchanged. */
  lemma {:induction false} StripNulKeepsNulFree(s: seq<bv8>)
    requires NulFree(s)
    ensures StripNul(s) == s
  {
    if |s| > 0 {
      StripNulKeepsNulFree(s[1..]);
      assert s == [s[0]] + s[1..];
    }
  }

  /** NUL padding after a string disappears. */
  lemma {:induction false} StripNulPadding(s: seq<bv8>, n: nat)
    ensures StripNul(s + Zeros(n)) == StripNul(s)
  {
    if |s| == 0 {
      assert s + Zeros(n) == Zeros(n);
      StripNulZeros(n);
    } else {
      assert (s + Zeros(n))[1..] == s[1..] + Zeros(n);
      StripNulPadding(s[1..], n);
    }
  }

  lemma {:induction false} StripNulZeros(n: nat)
    ensures StripNul(Zeros(n)) == []
  {
    if n > 0 {
      assert Zeros(n)[1..] == Zeros(n - 1);
      StripNulZeros(n - 1);
    }
  }

  predicate InI32(v: int) {
    -(TwoTo31 as int) <= v < TwoTo31
  }

  /** The value `struct.unpack("<i", ...)` gives for the unsigned reading `u` of four bytes. */
  function ToSigned32(u: nat): (v: int)
    requires u < TwoTo32
    ensures InI32(v)
    ensures v % TwoTo32 == u
  {
    if u >= TwoTo31 then u - TwoTo32 else u
  }

  /** The four bytes `struct.pack("<i", v)` writes: two's complement, little-endian. */
  function I32Bytes(v: int): (r: seq<bv8>)
    requires InI32(v)
    ensures |r| == 4
    ensures ToSigned32(LittleEndian(r)) == v
    ensures v >= 0 ==> LittleEndian(r) == v
  {
    ToLittleEndian(if v < 0 then v + TwoTo32 else v, 4)
  }
}
