/**
 * Byte layouts of fixed-width unsigned integers. The host is little-endian: the
 * native bytes of a W-byte value `v` are LittleEndian(v, W).
 */
module ByteOrder {

  import opened CTypes

  /** 256 to the power n: one more than the largest n-byte value. */
  function Pow256(n: nat): (p: nat)
    ensures p >= 1
  {
    if n == 0 then 1 else 256 * Pow256(n - 1)
  }

  /** The w low-order bytes of v, least significant first (native layout on the host). */
  function LittleEndian(v: nat, w: nat): (b: seq<uint8>)
    ensures |b| == w
  {
    if w == 0 then [] else [(v % 256) as uint8] + LittleEndian(v / 256, w - 1)
  }

  /** The w low-order bytes of v, most significant first (network order). */
  function BigEndian(v: nat, w: nat): (b: seq<uint8>)
    ensures |b| == w
  {
    if w == 0 then [] else BigEndian(v / 256, w - 1) + [(v % 256) as uint8]
  }

  /** The value whose native (little-endian) bytes are `b`. */
  function FromLittleEndian(b: seq<uint8>): (v: nat)
    ensures v < Pow256(|b|)
  {
    if b == [] then 0 else b[0] as nat + 256 * FromLittleEndian(b[1..])
  }

  /** `s` back to front. */
  function Reverse(s: seq<uint8>): (r: seq<uint8>)
    ensures |r| == |s|
  {
    seq(|s|, i requires 0 <= i < |s| => s[|s| - 1 - i])
  }

  /** Reading back the native bytes of a value that fits in w bytes gives the value. */
  lemma {:induction false} LittleEndianRoundTrip(v: nat, w: nat)
    requires v < Pow256(w)
    ensures FromLittleEndian(LittleEndian(v, w)) == v
  {
    if w > 0 {
      assert v / 256 < Pow256(w - 1);
      LittleEndianRoundTrip(v / 256, w - 1);
      assert LittleEndian(v, w)[1..] == LittleEndian(v / 256, w - 1);
    }
  }

  /** Network order is native order reversed. */
  lemma {:induction false} BigEndianIsReversedLittleEndian(v: nat, w: nat)
    ensures BigEndian(v, w) == Reverse(LittleEndian(v, w))
  {
    if w > 0 {
      BigEndianIsReversedLittleEndian(v / 256, w - 1);
      var le := LittleEndian(v, w);
      assert le == [(v % 256) as uint8] + LittleEndian(v / 256, w - 1);
      assert Reverse(le) == Reverse(LittleEndian(v / 256, w - 1)) + [(v % 256) as uint8];
    }
  }

  /** The first n native bytes of a w-byte value are the n-byte native encoding of it. */
  lemma {:induction false} LittleEndianPrefix(v: nat, w: nat, n: nat)
    requires n <= w
    ensures LittleEndian(v, w)[..n] == LittleEndian(v, n)
  {
    if n > 0 {
      LittleEndianPrefix(v / 256, w - 1, n - 1);
      assert LittleEndian(v, w)[..n] == [(v % 256) as uint8] + LittleEndian(v / 256, w - 1)[..n - 1];
    }
  }

  /** Reversing twice restores the sequence. */
  lemma ReverseReverse(s: seq<uint8>)
    ensures Reverse(Reverse(s)) == s
  {
  }
}
