# Diagnostic-source registry and BLE wire helpers, modelled in Dafny

This project models two pieces of the Device OS firmware:

- **The diagnostic-source registry** (`services/src/diagnostics.cpp`). This is the `Diagnostics` service behind the `diag_*` C entry points. It keeps the registered `diag_source` pointers in a vector sorted by 16-bit id and finds positions with a lower-bound search. It accepts new sources only while the service is disabled, and serves lookups and enumerations only once the service is enabled. Its `command` entry point handles ENABLE on every platform and RESET on platform 3 only. The model is the class `DiagnosticsService.Diagnostics`. It holds the sorted list as a `seq<Source>` field, the enabled flag as a `bool` and the platform id as a constant. Its invariant is that ids strictly ascend.
- **The inline wire-level helpers of the BLE wiring API** (`wiring/inc/spark_wiring_ble.h`). These are:
  - the flag operators of `BleCharacteristicProperty` (`WiringBleProperty`);
  - `BleAddress` assignment, indexing and equality (`WiringBleAddress`, a class over a 6-byte array);
  - `BleUuid` classification and accessors, plus the AD type and payload `appendServiceUUID` chooses (`WiringBleUuid`);
  - the scalar marshalling `setValue<T>` and `getValue<T>` of `BleCharacteristic` (`WiringBleValue`).

The native bytes of a `T` are an explicit `seq<uint8>` of `sizeof(T)` bytes. The host is taken to be little-endian. `ByteOrder` gives the little- and big-endian layouts and the lemmas relating them.

The files are `ctypes.dfy`, `diagnostics.dfy`, `byte_order.dfy`, `ble_property.dfy`, `ble_address.dfy`, `ble_uuid.dfy` and `ble_value.dfy`.

## Model

| member | source | states |
|---|---|---|
| `DiagnosticsService.Diagnostics.constructor` | services/src/diagnostics.cpp:32-35 | A new registry is disabled, holds no sources and satisfies the ascending-id invariant. |
| `DiagnosticsService.LowerBound` | services/src/diagnostics.cpp:101-106 | The result is at most the list length. Every entry before it has an id below the target. The entry at it, if any, has an id at or above the target. |
| `DiagnosticsService.LowerBoundPartitions` | services/src/diagnostics.cpp:101-106 | On a sorted list, every entry at or after the lower bound has an id at or above the target. |
| `DiagnosticsService.LowerBoundUnique` | services/src/diagnostics.cpp:101-106 | Any index that splits the ids into "below the target" and "at or above it" equals the lower bound. |
| `DiagnosticsService.Diagnostics.IndexForId` | services/src/diagnostics.cpp:101-106 | The binary search returns the lower bound: ids before it are below the target, ids from it on are at or above it. |
| `DiagnosticsService.LowerBoundFindsId` | services/src/diagnostics.cpp:41-44 | On a sorted list an id is registered if and only if the entry at its lower bound carries it. This makes the duplicate test and the lookup test exact. |
| `DiagnosticsService.InsertShape` | services/src/diagnostics.cpp:45 | Vector insertion adds one entry, puts the new source at the index and keeps the old entries around it in order. |
| `DiagnosticsService.InsertKeepsAscending` | services/src/diagnostics.cpp:41-48 | Inserting a source between the smaller and the larger ids keeps the ids strictly ascending. |
| `DiagnosticsService.InsertAtLowerBound` | services/src/diagnostics.cpp:41-48 | A new id inserted at its lower bound: the list grows by one, the source sits at that index, the old entries keep their relative order, the ids stay strictly ascending and the id is now present. |
| `DiagnosticsService.Diagnostics.RegisterSource` | services/src/diagnostics.cpp:37-49 | When enabled it returns INVALID_STATE. For an id already present it returns ALREADY_EXISTS. When insertion fails it returns NO_MEMORY. On every failure the list is unchanged. Otherwise it returns success with the source inserted at its lower bound. The enabled flag and the invariant are kept. |
| `DiagnosticsService.AscendingOccursOnce` | services/src/diagnostics.cpp:55-59 | In a strictly ascending list every source occurs exactly once. |
| `DiagnosticsService.Diagnostics.EnumSources` | services/src/diagnostics.cpp:51-64 | When disabled it returns INVALID_STATE, visits nothing and writes no count. When enabled it returns success and visits the whole list in ascending id order, each source exactly once (none without a callback). It reports the list size as the count when a count pointer is given. |
| `DiagnosticsService.Diagnostics.GetSource` | services/src/diagnostics.cpp:66-78 | It never changes state. When disabled it returns INVALID_STATE. Otherwise it returns NOT_FOUND exactly when no entry has the id, else success. It yields a registered source with that id only on success and only when an out-pointer is given. |
| `DiagnosticsService.Diagnostics.Command` | services/src/diagnostics.cpp:80-95 | ENABLE sets enabled and leaves the list alone, so repeating it changes nothing. RESET on platform 3 clears the list and disables. Any other command, and RESET elsewhere, returns NOT_SUPPORTED and changes nothing. |
| `DiagnosticsService.DiagRegisterSource` | services/src/diagnostics.cpp:113-115 | Forwards to the global registry with the same outcome as RegisterSource. |
| `DiagnosticsService.DiagEnumSources` | services/src/diagnostics.cpp:117-119 | Forwards to the global registry with the same outcome as EnumSources. |
| `DiagnosticsService.DiagGetSource` | services/src/diagnostics.cpp:121-123 | Forwards to the global registry with the same outcome as GetSource. |
| `DiagnosticsService.DiagServiceCmd` | services/src/diagnostics.cpp:125-127 | Forwards to the global registry with the same outcome as Command. |
| `WiringBleProperty.PropertyAnd` | wiring/inc/spark_wiring_ble.h:71-76 | `operator&` yields the bitwise OR. A flag is set in the result exactly when it is set in either operand, and the result is the least property that includes both. |
| `WiringBleProperty.PropertyAndCommutative` | wiring/inc/spark_wiring_ble.h:71-76 | `operator&` is commutative. |
| `WiringBleProperty.PropertyAndIdempotent` | wiring/inc/spark_wiring_ble.h:71-76 | `a & a == a`. |
| `WiringBleProperty.PropertyAndOfDisjointFlags` | wiring/inc/spark_wiring_ble.h:71-76 | `READ & NOTIFY` is not NONE and has both flags set, although the two flags share no bit. |
| `WiringBleProperty.PropertyIntersection` | wiring/inc/spark_wiring_ble.h:71-76 | The intersection: a flag is set exactly when it is set in both operands, and the result is the greatest property included in both. |
| `WiringBleProperty.PropertyVar.OrAssign` | wiring/inc/spark_wiring_ble.h:78-84 | `operator\|=` updates the left operand to the same OR that `operator&` yields, so it then includes both operands, and returns the updated value. |
| `WiringBleAddress.MemEqual` | wiring/inc/spark_wiring_ble.h:165 | `memcmp(a, b, n) == 0` holds exactly when the first n bytes agree. |
| `WiringBleAddress.BleAddress.Assign` | wiring/inc/spark_wiring_ble.h:151-155 | After `a = h`, `a` holds h's type and all six of h's bytes. By Equals' contract it then compares equal to any address with those fields. |
| `WiringBleAddress.BleAddress.At` | wiring/inc/spark_wiring_ble.h:157-162 | `a[i]` is address byte i for `i < BLE_SIG_ADDR_LEN` and 0 otherwise. It never reads out of bounds. |
| `WiringBleAddress.BleAddress.Equals` | wiring/inc/spark_wiring_ble.h:164-169 | Equality holds exactly when the types match and all BLE_SIG_ADDR_LEN bytes match. Equivalently, the types match and every index answers alike. |
| `WiringBleUuid.BleUuid.Type` | wiring/inc/spark_wiring_ble.h:215-221 | SHORT exactly when the stored HAL type is 16-bit or shortened 128-bit. LONG exactly otherwise. |
| `WiringBleUuid.BleUuid.Shorted` | wiring/inc/spark_wiring_ble.h:231-233 | Returns the stored 16-bit value unconverted, whatever the type tag. |
| `WiringBleUuid.BleUuid.Full` | wiring/inc/spark_wiring_ble.h:239-241 | Returns the 16 stored 128-bit bytes in stored order, whatever the type tag. |
| `WiringBleUuid.BleUuid.FullInto` | wiring/inc/spark_wiring_ble.h:235-237 | The caller's 16-byte buffer receives exactly the bytes `full()` returns. |
| `WiringBleUuid.AppendServiceUuid` | wiring/inc/spark_wiring_ble.h:293-303 | `force` is passed through unchanged. A SHORT UUID gives type 16-bit-complete with the 2 native bytes of `shorted()` (low byte first; they decode back to it). A LONG UUID gives type 128-bit-complete with the 16 bytes of `full()`. |
| `ByteOrder.LittleEndianRoundTrip` | wiring/inc/spark_wiring_ble.h:297-298 | Decoding the native bytes of a value that fits the width gives back the value. |
| `ByteOrder.BigEndianIsReversedLittleEndian` | wiring/inc/spark_wiring_ble.h:376-378 | Network order is exactly native order reversed. |
| `ByteOrder.LittleEndianPrefix` | wiring/inc/spark_wiring_ble.h:375-377 | The first n native bytes of a wider value are its n-byte native encoding. |
| `WiringBleValue.WireValue` | wiring/inc/spark_wiring_ble.h:372-380 | `setValue<T>` hands on exactly `min(sizeof(T), BLE_MAX_ATTR_VALUE_PACKET_SIZE)` bytes, with `buf[i] = native[len-1-i]`, a pure reversal of the first `len` native bytes. |
| `WiringBleValue.SetValue` | wiring/inc/spark_wiring_ble.h:372-380 | The two-index loop fills the buffer with exactly WireValue of the native bytes. |
| `WiringBleValue.SetValueIsBigEndian` | wiring/inc/spark_wiring_ble.h:376-378 | On a little-endian host, a value that fits the attribute goes out most significant byte first. |
| `WiringBleValue.SetValueTruncates` | wiring/inc/spark_wiring_ble.h:374-377 | A value wider than the attribute keeps only its low-order bytes, big-endian, and loses its most significant bytes. |
| `WiringBleValue.SetValueExample` | wiring/inc/spark_wiring_ble.h:372-380 | The 32-bit value 0x01020304 is sent as 01 02 03 04. |
| `WiringBleValue.GetValue` | wiring/inc/spark_wiring_ble.h:362-366 | `getValue<T>` requests exactly `sizeof(T)` bytes into the value's storage. The bytes received land there in order, with no reordering, and the rest of the storage is untouched. |
| `WiringBleValue.GetAfterSetIsBigEndian` | wiring/inc/spark_wiring_ble.h:362-380 | Reading back a value written by `setValue<T>` leaves its big-endian bytes in native storage, so `getValue<T>` is not the inverse of `setValue<T>`. |
| `WiringBleValue.GetAfterSetSwapsBytes` | wiring/inc/spark_wiring_ble.h:362-380 | The uint16 0x0102 written with `setValue<T>` reads back through `getValue<T>` as 0x0201. |
| `WiringBleValue.GetValueReversed` | wiring/inc/spark_wiring_ble.h:362-366 | A read that reverses the received bytes into the value's storage. |
| `WiringBleValue.SetThenGetReversedRoundTrip` | wiring/inc/spark_wiring_ble.h:362-380 | Writing with `setValue<T>` and reading with the reversing read returns every value that fits the attribute. |

## Findings

| source | as written | input that shows it | evidently intended | confidence | as-written member | corrected member |
|---|---|---|---|---|---|---|
| wiring/inc/spark_wiring_ble.h:71-76 | `operator&` on `BleCharacteristicProperty` returns `lhs \| rhs` | `READ & NOTIFY` yields READ and NOTIFY both set, not NONE | the flag intersection `lhs & rhs`, or the same OR under a misnamed `operator\|` | medium, not executed | `WiringBleProperty.PropertyAndOfDisjointFlags` | `WiringBleProperty.PropertyIntersection` |
| wiring/inc/spark_wiring_ble.h:362-366 | `getValue<T>` copies the attribute bytes into the value without reordering, while `setValue<T>` reverses them | uint16 0x0102 written with `setValue<T>` reads back as 0x0201 | reverse on read, so that reading undoes writing | low, not executed | `WiringBleValue.GetAfterSetSwapsBytes` | `WiringBleValue.SetThenGetReversedRoundTrip` |

`WiringBleProperty.PropertyAnd` and `WiringBleValue.GetValue` model the code as written. Apart from `WiringBleProperty.PropertyVar.OrAssign`, which computes the same OR, and the lemmas that exhibit the findings, nothing in the model uses them, so the corrected definitions stand beside them.

For `operator&`, a second reading is just as plausible. The header defines no `operator|`, and the example application combines flags with `|` (user/tests/wiring/ble/heartrate_peripheral/application.cpp:28). That example is written against an older API (`BleAttribute`, `PROPERTY::`), which this header does not declare. It supports the reading that the OR is meant, under a misnamed operator, without proving it. Either way, `&` does not compute an intersection.

For `getValue<T>`, the header declares `setValue<T>` (lines 372-380) and `getValue<T>` (lines 362-366) as a write/read pair on the same characteristic value, and only the write reorders bytes. The byte swap shown also assumes that the out-of-line `setValue(buf, len)` and `getValue(buf, len)` store and return bytes unchanged. Their bodies are not part of this model.

## Left out

- `WiringBleValue.GetValue`: the out-of-line `getValue(buf, len)` is not part of this model. The model assumes it copies the first `min(len, attribute length)` attribute bytes into `buf` and leaves the rest untouched. Its `ssize_t` return is not modelled.
- `WiringBleValue.SetValue`: returns the bytes handed to the out-of-line `setValue(buf, len)`. That function and its `ssize_t` return are not part of this model.
- The value of `BLE_MAX_ATTR_VALUE_PACKET_SIZE` comes from the HAL headers, which are not part of this model. It is the parameter `maxAttrLen`.
- Host endianness is fixed to little-endian: the native bytes of a value are `ByteOrder.LittleEndian`.
- The `BleAdvertisingData` TLV engine (set, append, remove, get, locate, deviceName, serviceUUID, contains, clear) has no body in the header. `WiringBleUuid.AppendServiceUuid` therefore returns an `AppendCall` record that describes the call `appendServiceUUID` makes to `append`. The `size_t` that `append` returns, which `appendServiceUUID` passes back, is not modelled. Whether `append` merges into an existing record is not modelled.
- The `BleUuid` constructors (including the copy constructor used to build `tempUUID`), `isValid`, `operator==` and the iBeacon encoding have no body in the header and are not modelled. `AppendServiceUuid` takes the `BleUuid` directly.
- `hal_ble_uuid_t` is defined in the HAL, which is not part of this model. Its 16-bit and 128-bit values are independent fields here. If the HAL overlays them in a union, the model does not capture that aliasing.
- `WiringBleUuid.BleUuid.Full`: `full()` returns a pointer into the object's own `uuid_`, but the model returns the 16 bytes by value. Aliasing is therefore not captured: a later change through the mutable `UUID()` accessor would be visible through that pointer, and `UUID()` is not modelled.
- The HAL enumeration tables (advertising data types, event types, UUID type codes) are opaque distinct constants. The characteristic property flags use their Bluetooth Core Specification bit values.
- The `*this` that `BleAddress::operator=` returns is not modelled. `Assign` returns nothing, since the caller already holds the object.
- The reference that `operator|=` returns is modelled as the value `r` of `OrAssign`.
- `BleCharacteristicHandles::operator=` is a field-by-field copy outside the modelled helpers.
- `BleLocalDevice`, `BlePeerDevice`, `BleService`, `BleCharacteristic` construction and callbacks, scanning, connecting and advertising are thin wrappers over the radio HAL and are left out. So is the example application `user/tests/wiring/ble/heartrate_peripheral/application.cpp`.
- The numeric values of the `SYSTEM_ERROR_*` codes and of `DIAG_CMD_RESET` / `DIAG_CMD_ENABLE` live in headers that are not part of this model. They are datatype constructors here, and `Command.Other` stands for every other command code.
- `WiringBleUuid.AppendServiceUuid` takes `force` as an explicit argument. The C++ default `force = false` (wiring/inc/spark_wiring_ble.h:294) is not modelled.
- The `reserved` argument of every `diag_*` entry point is ignored by the source and is not modelled.
- `PLATFORM_ID` is a compile-time constant. It is the constructor parameter `platformId`.
- A failed `Vector::insert` is the boolean parameter `insertFails`. `reserve(32)` only sizes capacity and is not modelled.
- The `volatile` qualifier on `enabled_` is not modelled, because there is no concurrency here.
- The `enumSources` callback is modelled as the sequence of sources it is called with. Its `data` argument, and the unused `data` of `command`, are not modelled.
- A null `src` passed to `registerSource` is dereferenced by the source. Sources are values here, so that case does not arise.
- Sizes are unbounded integers: the `int` index of `indexForId` never overflows in the model.
