/**
 * BleAddress (wiring/inc/spark_wiring_ble.h): a hal_ble_addr_t, an address type and
 * BLE_SIG_ADDR_LEN address bytes, with inline assignment, indexing and equality.
 */
module WiringBleAddress {

  import opened CTypes

  /** BLE_SIG_ADDR_LEN: a Bluetooth device address is 48 bits long. */
  const BLE_SIG_ADDR_LEN: nat := 6

  type AddrBytes = s: seq<uint8> | |s| == BLE_SIG_ADDR_LEN witness [0, 0, 0, 0, 0, 0]

  /** hal_ble_addr_t, as a value (the right operand of operator=). */
  datatype HalAddress = HalAddress(addrType: uint8, addr: AddrBytes)

  /** memcmp(a, b, n) == 0 */
  function MemEqual(a: seq<uint8>, b: seq<uint8>, n: nat): (r: bool)
    requires n <= |a| && n <= |b|
    ensures r <==> a[..n] == b[..n]
  {
    if n == 0 then true
    else
      assert a[..n] == a[..n - 1] + [a[n - 1]] && b[..n] == b[..n - 1] + [b[n - 1]];
      a[n - 1] == b[n - 1] && MemEqual(a, b, n - 1)
  }

  class BleAddress {
    /** addr_type */
    var addrType: uint8
    /** addr[BLE_SIG_ADDR_LEN] */
    const addr: array<uint8>

    ghost predicate Valid()
      reads this
    {
      addr.Length == BLE_SIG_ADDR_LEN
    }

    /**
     * A value-initialised address, here only to allocate the byte array. BleAddress is a
     * POD with no constructor: an instance declared without an initialiser holds
     * indeterminate bytes, and only value-initialisation or static storage gives zeros.
     */
    constructor ()
      ensures Valid() && fresh(addr)
      ensures addrType == 0 && addr[..] == [0, 0, 0, 0, 0, 0]
    {
      addrType := 0;
      addr := new uint8[BLE_SIG_ADDR_LEN](_ => 0);
    }

    /** operator=(hal_ble_addr_t): copies the type and memcpy's the address bytes. */
    method Assign(h: HalAddress)
      requires Valid()
      modifies this, addr
      ensures Valid()
      ensures addrType == h.addrType && addr[..] == h.addr
    {
      addrType := h.addrType;
      for i := 0 to BLE_SIG_ADDR_LEN
        invariant addrType == h.addrType
        invariant forall k :: 0 <= k < i ==> addr[k] == h.addr[k]
      {
        addr[i] := h.addr[i];
      }
      assert addr[..] == h.addr;
    }

    /** operator[]: byte i of the address, 0 for an index past its end. */
    function At(i: uint8): (b: uint8)
      reads this, addr
      requires Valid()
      ensures i as nat < BLE_SIG_ADDR_LEN ==> b == addr[i]
      ensures i as nat >= BLE_SIG_ADDR_LEN ==> b == 0
    {
      if i as nat >= BLE_SIG_ADDR_LEN then 0 else addr[i]
    }

    /** operator==: same type and same BLE_SIG_ADDR_LEN bytes. */
    function Equals(other: BleAddress): (r: bool)
      reads this, addr, other, other.addr
      requires Valid() && other.Valid()
      ensures r <==> addrType == other.addrType && addr[..] == other.addr[..]
      ensures r <==> addrType == other.addrType && forall i: uint8 :: At(i) == other.At(i)
    {
      assert addr[..] == addr[..BLE_SIG_ADDR_LEN] && other.addr[..] == other.addr[..BLE_SIG_ADDR_LEN];
      assert (forall i: uint8 :: At(i) == other.At(i)) ==> addr[..] == other.addr[..] by {
        if forall i: uint8 :: At(i) == other.At(i) {
          forall k | 0 <= k < BLE_SIG_ADDR_LEN
            ensures addr[k] == other.addr[k]
          {
            assert At(k as uint8) == other.At(k as uint8);
          }
        }
      }
      addrType == other.addrType && MemEqual(addr[..], other.addr[..], BLE_SIG_ADDR_LEN)
    }
  }
}
