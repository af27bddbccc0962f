/** Bytes, unsigned 64-bit integers, their 8-byte little-endian encoding,
    and the effect of Go's built-in `copy` on a byte slice. */
module Bytes {

  type byte = b: int | 0 <= b < 256

  const TWO_64: int := 0x1_0000_0000_0000_0000

  type uint64 = x: int | 0 <= x < TWO_64

  /** `n` zero bytes: what Go's `make([]byte, n)` holds. */
  function Zeros(n: nat): (r: seq<byte>)
    ensures |r| == n
    ensures forall k :: 0 <= k < n ==> r[k] == 0
  {
    seq(n, _ => 0)
  }

  function Pow256(n: nat): (r: nat)
    ensures 0 < r
  {
    if n == 0 then 1 else 256 * Pow256(n - 1)
  }

  /** The unsigned value of `s`, read least-significant byte first. */
  function FromLittleEndian(s: seq<byte>): (r: nat)
    ensures r < Pow256(|s|)
  {
    if |s| == 0 then 0 else s[0] + 256 * FromLittleEndian(s[1..])
  }

  /** The `n` low-order bytes of `x`, least-significant byte first. */
  function ToLittleEndian(x: nat, n: nat): (r: seq<byte>)
    ensures |r| == n
  {
    if n == 0 then [] else [x % 256] + ToLittleEndian(x / 256, n - 1)
  }

  /** Encoding a value that fits in `n` bytes and decoding it gives the value back. */
  lemma {:induction false} FromToLittleEndian(x: nat, n: nat)
    requires x < Pow256(n)
    ensures FromLittleEndian(ToLittleEndian(x, n)) == x
  {
    if n > 0 {
      FromToLittleEndian(x / 256, n - 1);
      assert ToLittleEndian(x, n)[1..] == ToLittleEndian(x / 256, n - 1);
    }
  }

  /** Decoding `s` and encoding the value in |s| bytes gives `s` back. */
  lemma {:induction false} ToFromLittleEndian(s: seq<byte>)
    ensures ToLittleEndian(FromLittleEndian(s), |s|) == s
  {
    if |s| > 0 {
      ToFromLittleEndian(s[1..]);
      var x := FromLittleEndian(s);
      assert x % 256 == s[0] && x / 256 == FromLittleEndian(s[1..]);
      assert s == [s[0]] + s[1..];
    }
  }

  lemma Pow256Eight()
    ensures Pow256(8) == TWO_64
  {
    calc {
      Pow256(8);
      256 * Pow256(7);
      256 * 256 * Pow256(6);
      256 * 256 * 256 * 256 * Pow256(4);
      256 * 256 * 256 * 256 * 256 * 256 * 256 * 256 * Pow256(0);
    }
  }

  /** `bytesutil.Uint64ToBytesLittleEndian`: the 8-byte little-endian form
      of `x`, byte `k` holding bits 8k to 8k + 7. */
  function Uint64ToBytes(x: uint64): (r: seq<byte>)
    ensures |r| == 8
  {
    var x1 := x / 256;
    var x2 := x1 / 256;
    var x3 := x2 / 256;
    var x4 := x3 / 256;
    var x5 := x4 / 256;
    var x6 := x5 / 256;
    var x7 := x6 / 256;
    [x % 256, x1 % 256, x2 % 256, x3 % 256, x4 % 256, x5 % 256, x6 % 256, x7 % 256]
  }

  /** The 8-byte encoding is the general little-endian one at width 8. */
  lemma Uint64ToBytesIsLittleEndian(x: uint64)
    ensures Uint64ToBytes(x) == ToLittleEndian(x, 8)
  {
    var x1 := x / 256;
    var x2 := x1 / 256;
    var x3 := x2 / 256;
    var x4 := x3 / 256;
    var x5 := x4 / 256;
    var x6 := x5 / 256;
    var x7 := x6 / 256;
    assert ToLittleEndian(x7, 1) == [x7 % 256];
    assert ToLittleEndian(x6, 2) == [x6 % 256, x7 % 256];
    assert ToLittleEndian(x5, 3) == [x5 % 256, x6 % 256, x7 % 256];
    assert ToLittleEndian(x4, 4) == [x4 % 256, x5 % 256, x6 % 256, x7 % 256];
    assert ToLittleEndian(x3, 5) == [x3 % 256, x4 % 256, x5 % 256, x6 % 256, x7 % 256];
    assert ToLittleEndian(x2, 6) == [x2 % 256, x3 % 256, x4 % 256, x5 % 256, x6 % 256, x7 % 256];
    assert ToLittleEndian(x1, 7) == [x1 % 256, x2 % 256, x3 % 256, x4 % 256, x5 % 256, x6 % 256, x7 % 256];
  }

  /** `bytesutil.FromBytes8`: the value of an 8-byte little-endian word. */
  function BytesToUint64(s: seq<byte>): (r: uint64)
    requires |s| == 8
    ensures r % 256 == s[0]
  {
    Pow256Eight();
    FromLittleEndian(s)
  }

  lemma Uint64RoundTrip(x: uint64)
    ensures BytesToUint64(Uint64ToBytes(x)) == x
  {
    Uint64ToBytesIsLittleEndian(x);
    Pow256Eight();
    FromToLittleEndian(x, 8);
  }

  lemma BytesRoundTrip(s: seq<byte>)
    requires |s| == 8
    ensures Uint64ToBytes(BytesToUint64(s)) == s
  {
    Uint64ToBytesIsLittleEndian(BytesToUint64(s));
    ToFromLittleEndian(s);
  }

  /** Eight bytes decode to `x` exactly when they are the encoding of `x`. */
  lemma DecodesTo(s: seq<byte>, x: uint64)
    requires |s| == 8
    ensures BytesToUint64(s) == x <==> s == Uint64ToBytes(x)
  {
    BytesRoundTrip(s);
    Uint64RoundTrip(x);
  }

  /** Eight zero bytes encode zero. */
  lemma ZeroWord(s: seq<byte>)
    requires |s| == 8 && forall k :: 0 <= k < 8 ==> s[k] == 0
    ensures BytesToUint64(s) == 0
  {
    Uint64RoundTrip(0);
    assert Uint64ToBytes(0) == s;
  }

  /** The contents of `dst` after Go's `copy(dst, src)`: the first
      min(|dst|, |src|) bytes come from `src`, the others are left as they were. */
  function Copied(dst: seq<byte>, src: seq<byte>): (r: seq<byte>)
    ensures |r| == |dst|
    ensures forall k :: 0 <= k < |dst| ==> r[k] == if k < |src| then src[k] else dst[k]
  {
    if |src| >= |dst| then src[..|dst|] else src + dst[|src|..]
  }

  /** The `p`-th byte of `s`, or the zero that Go's zero-extension puts there. */
  function ByteOrZero(s: seq<byte>, p: nat): byte
  {
    if p < |s| then s[p] else 0
  }
}
