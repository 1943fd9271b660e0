/** The bits of a byte, the most significant one first. */
module Bytes {
  // A number below 256 survives as a byte.
  lemma MaskedByte(x: nat)
    requires x < 256
    ensures ((x as bv8) & 0xff) as int == x
  {
  }

  lemma ByteOfNumber(x: nat)
    requires x < 256
    ensures x as bv8 as int == x
  {
    MaskedByte(x);
    assert (x as bv8) & 0xff == x as bv8;
  }

  predicate Single(m: bv8) {
    m == 0x80 || m == 0x40 || m == 0x20 || m == 0x10 || m == 8 || m == 4 || m == 2 || m == 1
  }

  function BitMask(k: nat): (m: bv8)
    requires k < 8
    ensures Single(m)
  {
    match k
    case 0 => 0x80 case 1 => 0x40 case 2 => 0x20 case 3 => 0x10
    case 4 => 0x08 case 5 => 0x04 case 6 => 0x02 case _ => 0x01
  }

  predicate Has(b: bv8, m: bv8) {
    b & m != 0
  }

  predicate BitOf(b: bv8, k: nat)
    requires k < 8
  {
    Has(b, BitMask(k))
  }
}
