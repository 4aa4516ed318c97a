/**
 * BleCharacteristicProperty (wiring/inc/spark_wiring_ble.h): a uint8_t of characteristic
 * property flags, combined with the inline operator& and operator|=. The flag values are
 * the characteristic property bits of the Bluetooth Core Specification (Vol 3, Part G,
 * section 3.3.1.1), one bit each.
 */
module WiringBleProperty {

  /** The underlying uint8_t of BleCharacteristicProperty. */
  type Property = bv8

  const NONE: Property := 0x00
  const BROADCAST: Property := 0x01
  const READ: Property := 0x02
  const WRITE_WO_RSP: Property := 0x04
  const WRITE: Property := 0x08
  const NOTIFY: Property := 0x10
  const INDICATE: Property := 0x20
  const AUTH_SIGN_WRITES: Property := 0x40
  const EXTENDED_PROP: Property := 0x80

  /** The eight single-bit flags. */
  const FLAGS: set<Property> :=
    {BROADCAST, READ, WRITE_WO_RSP, WRITE, NOTIFY, INDICATE, AUTH_SIGN_WRITES, EXTENDED_PROP}

  /** Flag `f` is set in `p`. */
  predicate HasFlag(p: Property, f: Property)
  {
    p & f != 0
  }

  /** Every flag set in `q` is set in `p`. */
  predicate Includes(p: Property, q: Property)
  {
    p & q == q
  }

  /**
   * operator& as written: the result is the bitwise OR of the operands, that is, a flag is
   * set in it when it is set in either operand, and it is the smallest property that
   * includes both.
   */
  function PropertyAnd(lhs: Property, rhs: Property): (r: Property)
    ensures forall f :: f in FLAGS ==> (HasFlag(r, f) <==> HasFlag(lhs, f) || HasFlag(rhs, f))
    ensures Includes(r, lhs) && Includes(r, rhs)
    ensures forall p :: Includes(p, lhs) && Includes(p, rhs) ==> Includes(p, r)
  {
    lhs | rhs
  }

  /** operator& is commutative. */
  lemma PropertyAndCommutative(a: Property, b: Property)
    ensures PropertyAnd(a, b) == PropertyAnd(b, a)
  {
  }

  /** operator& is idempotent. */
  lemma PropertyAndIdempotent(a: Property)
    ensures PropertyAnd(a, a) == a
  {
  }

  /** READ & NOTIFY is not NONE although the two share no flag: operator& unites. */
  lemma PropertyAndOfDisjointFlags()
    ensures READ & NOTIFY == NONE
    ensures PropertyAnd(READ, NOTIFY) != NONE
    ensures HasFlag(PropertyAnd(READ, NOTIFY), READ) && HasFlag(PropertyAnd(READ, NOTIFY), NOTIFY)
  {
  }

  /**
   * The intersection an operator& is expected to compute: a flag is set in the result
   * when it is set in both operands, and it is the largest property included in both.
   */
  function PropertyIntersection(lhs: Property, rhs: Property): (r: Property)
    ensures forall f :: f in FLAGS ==> (HasFlag(r, f) <==> HasFlag(lhs, f) && HasFlag(rhs, f))
    ensures Includes(lhs, r) && Includes(rhs, r)
    ensures forall p :: Includes(lhs, p) && Includes(rhs, p) ==> Includes(r, p)
  {
    lhs & rhs
  }

  /** A variable of type BleCharacteristicProperty: the left operand of operator|=. */
  class PropertyVar {
    var value: Property

    constructor (value: Property)
      ensures this.value == value
    {
      this.value := value;
    }

    /** operator|=: the variable becomes the bitwise OR (the same value operator& yields). */
    method OrAssign(rhs: Property) returns (r: Property)
      modifies this
      ensures value == PropertyAnd(old(value), rhs)
      ensures Includes(value, old(value)) && Includes(value, rhs)
      ensures r == value
    {
      value := value | rhs;
      r := value;
    }
  }
}
