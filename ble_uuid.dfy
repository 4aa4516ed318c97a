/**
 * BleUuid (wiring/inc/spark_wiring_ble.h): a wrapper around the HAL's hal_ble_uuid_t with
 * inline classification and accessors, and the service-UUID dispatch of
 * BleAdvertisingData::appendServiceUUID.
 */
module WiringBleUuid {

  import opened CTypes
  import ByteOrder

  /** BLE_SIG_UUID_128BIT_LEN */
  const BLE_SIG_UUID_128BIT_LEN: nat := 16

  type Uuid128Bytes = s: seq<uint8> | |s| == BLE_SIG_UUID_128BIT_LEN
    witness [0, 0, 0, 0, 0, 0, 0, 0, 0, 0, 0, 0, 0, 0, 0, 0]

  /** BleUuidType */
  datatype BleUuidType = Short | Long

  /**
   * The type tag stored in hal_ble_uuid_t: the three HAL kinds, and any other stored value
   * (the HAL's numeric codes are opaque here).
   */
  datatype HalUuidType = Uuid16Bit | Uuid128BitShorted | Uuid128Bit | OtherUuidType(code: int)

  /** hal_ble_uuid_t: the type tag, the 16-bit value and the 128-bit value. */
  datatype HalUuid = HalUuid(uuidType: HalUuidType, uuid16: uint16, uuid128: Uuid128Bytes)

  /** The advertising data types appendServiceUUID chooses between. */
  datatype AdvertisingDataType = ServiceUuid16BitComplete | ServiceUuid128BitComplete

  /** The arguments appendServiceUUID passes to BleAdvertisingData::append. */
  datatype AppendCall = AppendCall(adType: AdvertisingDataType, payload: seq<uint8>, force: bool)

  datatype BleUuid = BleUuid(uuid: HalUuid) {

    /** type(): SHORT for a 16-bit or a shortened 128-bit HAL UUID, LONG for anything else. */
    function Type(): (t: BleUuidType)
      ensures t == Short <==> uuid.uuidType == Uuid16Bit || uuid.uuidType == Uuid128BitShorted
      ensures t == Long <==> !(uuid.uuidType == Uuid16Bit || uuid.uuidType == Uuid128BitShorted)
    {
      if uuid.uuidType == Uuid16Bit || uuid.uuidType == Uuid128BitShorted then Short else Long
    }

    /** shorted(): the stored 16-bit value, whatever the type tag says. */
    function Shorted(): (u: uint16)
      ensures u == uuid.uuid16
    {
      uuid.uuid16
    }

    /** full(): the stored 128-bit bytes, in stored order, whatever the type tag says. */
    function Full(): (b: seq<uint8>)
      ensures |b| == BLE_SIG_UUID_128BIT_LEN
      ensures forall i :: 0 <= i < BLE_SIG_UUID_128BIT_LEN ==> b[i] == uuid.uuid128[i]
    {
      uuid.uuid128
    }

    /** full(uint8_t uuid128[16]): memcpy's the stored 128-bit bytes into the caller's buffer. */
    method FullInto(out: array<uint8>)
      requires out.Length == BLE_SIG_UUID_128BIT_LEN
      modifies out
      ensures out[..] == Full()
    {
      for i := 0 to BLE_SIG_UUID_128BIT_LEN
        invariant forall k :: 0 <= k < i ==> out[k] == uuid.uuid128[k]
      {
        out[i] := uuid.uuid128[i];
      }
      assert out[..] == uuid.uuid128;
    }
  }

  /**
   * appendServiceUUID(uuid, force): the call it makes to append, whose return value it
   * returns. A SHORT UUID is appended as a complete 16-bit service UUID list holding the two
   * native (little-endian) bytes of shorted(); a LONG one as a complete 128-bit list holding
   * the 16 bytes of full(). `force` is passed through.
   */
  function AppendServiceUuid(uuid: BleUuid, force: bool): (c: AppendCall)
    ensures c.force == force
    ensures uuid.Type() == Short ==>
              && c.adType == ServiceUuid16BitComplete
              && |c.payload| == 2
              && c.payload[0] as nat == uuid.Shorted() as nat % 256
              && c.payload[1] as nat == uuid.Shorted() as nat / 256
              && ByteOrder.FromLittleEndian(c.payload) == uuid.Shorted() as nat
    ensures uuid.Type() == Long ==>
              && c.adType == ServiceUuid128BitComplete
              && c.payload == uuid.Full()
  {
    if uuid.Type() == Short then
      var u := uuid.Shorted() as nat;
      ByteOrder.LittleEndianRoundTrip(u, 2);
      AppendCall(ServiceUuid16BitComplete, ByteOrder.LittleEndian(u, 2), force)
    else
      AppendCall(ServiceUuid128BitComplete, uuid.Full(), force)
  }
}
