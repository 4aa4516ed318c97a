/**
 * The inline scalar marshalling of BleCharacteristic (wiring/inc/spark_wiring_ble.h):
 * setValue<T> reverses the native bytes of the value into a local buffer, truncated to
 * the maximum attribute value size, and getValue<T> reads bytes straight into the
 * value's storage. The native bytes of a T are given as a sequence of sizeof(T) bytes;
 * `maxAttrLen` is BLE_MAX_ATTR_VALUE_PACKET_SIZE.
 */
module WiringBleValue {

  import opened CTypes
  import opened ByteOrder

  /**
   * The bytes setValue<T>(val) hands to setValue(buf, len): the first
   * len = min(sizeof(T), maxAttrLen) native bytes of val, in reverse order.
   */
  function WireValue(native: seq<uint8>, maxAttrLen: nat): (wire: seq<uint8>)
    ensures |wire| == Min(|native|, maxAttrLen)
    ensures forall i :: 0 <= i < |wire| ==> wire[i] == native[|wire| - 1 - i]
  {
    Reverse(native[..Min(|native|, maxAttrLen)])
  }

  /** setValue<T>: fills the local buffer with the two-index loop and returns what it hands on. */
  method SetValue(native: seq<uint8>, maxAttrLen: nat) returns (handed: seq<uint8>)
    ensures handed == WireValue(native, maxAttrLen)
  {
    var buf := new uint8[maxAttrLen];
    var len := Min(|native|, maxAttrLen);
    // j is a size_t in the source; when len is 0 it wraps, but the loop body never runs.
    var i, j := 0, len - 1;
    while i < len
      invariant 0 <= i <= len
      invariant j == len - 1 - i
      invariant forall k :: 0 <= k < i ==> buf[k] == native[len - 1 - k]
    {
      buf[i] := native[j];
      i, j := i + 1, j - 1;
    }
    handed := buf[..len];
  }

  /** A value that fits the attribute goes on the wire most significant byte first. */
  lemma SetValueIsBigEndian(v: nat, w: nat, maxAttrLen: nat)
    requires w <= maxAttrLen
    ensures WireValue(LittleEndian(v, w), maxAttrLen) == BigEndian(v, w)
  {
    BigEndianIsReversedLittleEndian(v, w);
    assert LittleEndian(v, w)[..w] == LittleEndian(v, w);
  }

  /**
   * A value wider than the attribute keeps only its maxAttrLen low-order bytes (big-endian);
   * the most significant bytes are dropped.
   */
  lemma SetValueTruncates(v: nat, w: nat, maxAttrLen: nat)
    requires maxAttrLen < w
    ensures WireValue(LittleEndian(v, w), maxAttrLen) == BigEndian(v, maxAttrLen)
  {
    LittleEndianPrefix(v, w, maxAttrLen);
    BigEndianIsReversedLittleEndian(v, maxAttrLen);
  }

  /** The 32-bit value 0x01020304 is sent as 01 02 03 04. */
  lemma SetValueExample(maxAttrLen: nat)
    requires 4 <= maxAttrLen
    ensures WireValue(LittleEndian(0x01020304, 4), maxAttrLen) == [0x01, 0x02, 0x03, 0x04]
  {
    SetValueIsBigEndian(0x01020304, 4, maxAttrLen);
    assert BigEndian(0x01020304, 4) == [0x01, 0x02, 0x03, 0x04];
  }

  /**
   * getValue<T>(&val) as written: it asks getValue(buf, len) for exactly sizeof(T) = |storage|
   * bytes into val's own storage and does not reorder them. `attr` is the attribute's current
   * value; the first min(sizeof(T), |attr|) of its bytes land in the storage unchanged.
   */
  function GetValue(storage: seq<uint8>, attr: seq<uint8>): (after: seq<uint8>)
    ensures |after| == |storage|
    ensures forall i :: 0 <= i < Min(|storage|, |attr|) ==> after[i] == attr[i]
    ensures forall i :: Min(|storage|, |attr|) <= i < |storage| ==> after[i] == storage[i]
  {
    var n := Min(|storage|, |attr|);
    attr[..n] + storage[n..]
  }

  /**
   * Reading back a value written by setValue<T> leaves its network-order bytes in native
   * storage: on the little-endian host the value comes back byte-swapped.
   */
  lemma GetAfterSetIsBigEndian(v: nat, storage: seq<uint8>, maxAttrLen: nat)
    requires |storage| <= maxAttrLen
    ensures GetValue(storage, WireValue(LittleEndian(v, |storage|), maxAttrLen)) == BigEndian(v, |storage|)
  {
    var w := |storage|;
    SetValueIsBigEndian(v, w, maxAttrLen);
    assert GetValue(storage, BigEndian(v, w)) == BigEndian(v, w)[..w] + storage[w..];
  }

  /** Writing the uint16 0x0102 with setValue<T> and reading it with getValue<T> yields 0x0201. */
  lemma GetAfterSetSwapsBytes(maxAttrLen: nat)
    requires 2 <= maxAttrLen
    ensures FromLittleEndian(GetValue([0, 0], WireValue(LittleEndian(0x0102, 2), maxAttrLen))) == 0x0201
  {
    var storage: seq<uint8> := [0, 0];
    GetAfterSetIsBigEndian(0x0102, storage, maxAttrLen);
    var got := GetValue(storage, WireValue(LittleEndian(0x0102, 2), maxAttrLen));
    assert got == BigEndian(0x0102, 2) == [0x01, 0x02];
    assert got[1..] == [0x02] && got[1..][1..] == [];
    assert FromLittleEndian([0x02]) == 0x02;
    assert FromLittleEndian(got) == 0x01 + 256 * FromLittleEndian([0x02]);
  }

  /**
   * The read that undoes setValue<T>: the received bytes are reversed into the value's
   * storage, as setValue<T> reversed them on the way out.
   */
  function GetValueReversed(storage: seq<uint8>, attr: seq<uint8>): (after: seq<uint8>)
    ensures |after| == |storage|
    ensures forall i :: 0 <= i < Min(|storage|, |attr|) ==> after[i] == attr[Min(|storage|, |attr|) - 1 - i]
    ensures forall i :: Min(|storage|, |attr|) <= i < |storage| ==> after[i] == storage[i]
  {
    var n := Min(|storage|, |attr|);
    Reverse(attr[..n]) + storage[n..]
  }

  /** Writing with setValue<T> and reading with the reversing read returns the value. */
  lemma SetThenGetReversedRoundTrip(v: nat, storage: seq<uint8>, maxAttrLen: nat)
    requires |storage| <= maxAttrLen
    requires v < Pow256(|storage|)
    ensures FromLittleEndian(GetValueReversed(storage, WireValue(LittleEndian(v, |storage|), maxAttrLen))) == v
  {
    var w := |storage|;
    var le := LittleEndian(v, w);
    assert le[..w] == le;
    ReverseReverse(le);
    assert WireValue(le, maxAttrLen) == Reverse(le);
    assert Reverse(le)[..w] == Reverse(le) && storage[w..] == [];
    assert GetValueReversed(storage, Reverse(le)) == le;
    LittleEndianRoundTrip(v, w);
  }
}
