/** Validity bitmaps as sequences of booleans (true = valid slot), and the
    least-significant-bit-first packing of such a bitmap into bytes that the
    Arrow wire format uses. */
module Bitmaps {

  type Byte = b: int | 0 <= b < 256

  /** Number of unset (null) bits, `Bitmap::unset_bits`. */
  function CountUnset(bits: seq<bool>): (n: nat)
    ensures n <= |bits|
    ensures n == 0 <==> forall i :: 0 <= i < |bits| ==> bits[i]
  {
    if bits == [] then 0
    else
      var rest := CountUnset(bits[1..]);
      assert forall i :: 1 <= i < |bits| ==> bits[i] == bits[1..][i - 1];
      (if bits[0] then 0 else 1) + rest
  }

  /** A run of `n` valid bits. */
  function AllValid(n: nat): (bits: seq<bool>)
    ensures |bits| == n && CountUnset(bits) == 0
  {
    seq(n, _ => true)
  }

  /** A run of `n` null bits, `MutableBitmap::extend_constant(n, false)`. */
  function AllNull(n: nat): (bits: seq<bool>)
    ensures |bits| == n && CountUnset(bits) == n
  {
    if n == 0 then [] else [false] + AllNull(n - 1)
  }

  lemma {:induction false} CountUnsetAppend(a: seq<bool>, b: seq<bool>)
    ensures CountUnset(a + b) == CountUnset(a) + CountUnset(b)
  {
    if a == [] {
      assert a + b == b;
    } else {
      assert (a + b)[1..] == a[1..] + b;
      CountUnsetAppend(a[1..], b);
    }
  }

  function Pow2(k: nat): (p: nat)
    ensures p >= 1
  {
    if k == 0 then 1 else 2 * Pow2(k - 1)
  }

  /** The first `k` bits of `b`, least significant first. */
  function UnpackByte(b: nat, k: nat): (bits: seq<bool>)
    ensures |bits| == k
  {
    if k == 0 then [] else [b % 2 == 1] + UnpackByte(b / 2, k - 1)
  }

  /** Packs up to eight bits into one byte, the first bit least significant. */
  function PackByte(bits: seq<bool>): (b: nat)
    ensures b < Pow2(|bits|)
  {
    if bits == [] then 0 else (if bits[0] then 1 else 0) + 2 * PackByte(bits[1..])
  }

  lemma {:induction false} UnpackPackByte(bits: seq<bool>, k: nat)
    requires |bits| <= k
    ensures UnpackByte(PackByte(bits), k)[..|bits|] == bits
  {
    if bits != [] {
      var b := PackByte(bits);
      assert b % 2 == 1 <==> bits[0];
      assert b / 2 == PackByte(bits[1..]);
      UnpackPackByte(bits[1..], k - 1);
    }
  }

  /** The bits of a byte buffer, eight per byte, least significant first. */
  function BitsOf(bytes: seq<Byte>): (bits: seq<bool>)
    ensures |bits| == 8 * |bytes|
  {
    if bytes == [] then [] else UnpackByte(bytes[0], 8) + BitsOf(bytes[1..])
  }

  /** Packs a bitmap into `ceil(|bits| / 8)` bytes, padding the last byte with zeros. */
  function Pack(bits: seq<bool>): (bytes: seq<Byte>)
    ensures |bytes| == (|bits| + 7) / 8
  {
    if bits == [] then []
    else if |bits| <= 8 then
      assert Pow2(|bits|) <= 256 by { Pow2Bound(|bits|); }
      [PackByte(bits)]
    else
      assert Pow2(8) == 256;
      [PackByte(bits[..8])] + Pack(bits[8..])
  }

  lemma {:induction false} Pow2Bound(k: nat)
    requires k <= 8
    ensures Pow2(k) <= 256
    decreases 8 - k
  {
    if k < 8 {
      Pow2Bound(k + 1);
    }
  }

  /** Unpacking a packed bitmap gives back the bitmap, followed by padding. */
  lemma {:induction false} UnpackPack(bits: seq<bool>)
    ensures BitsOf(Pack(bits))[..|bits|] == bits
  {
    if bits == [] {
    } else if |bits| <= 8 {
      UnpackPackByte(bits, 8);
      assert BitsOf(Pack(bits)) == UnpackByte(PackByte(bits), 8) + [];
    } else {
      var head, tail := bits[..8], bits[8..];
      UnpackPackByte(head, 8);
      UnpackPack(tail);
      var packed := Pack(bits);
      assert packed[1..] == Pack(tail);
      assert BitsOf(packed) == UnpackByte(PackByte(head), 8) + BitsOf(Pack(tail));
      assert bits == head + tail;
    }
  }
}
