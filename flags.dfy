/** The scanner's flag register: one byte whose bits are individual booleans.
    Bit 0 says a tag is open, bit 1 that its name has started, bit 7 that the
    scanner is inside a quoted value; the remaining bits are reserved. */
module Flags {

  const OPEN_TAG: bv8 := 0
  const NAME_ISSUED: bv8 := 1
  const INSIDE_QUOTE: bv8 := 7

  /** The single-bit mask `1 << bit`. */
  function Mask(bit: bv8): bv8
    requires bit < 8
  {
    (1 as bv8) << bit
  }

  /** Reads one bit of the register: the bit-th binary digit of the byte. */
  function Bit(x: bv8, bit: bv8): (r: bool)
    requires bit < 8
    ensures r <==> (x >> bit) & 1 == 1
  {
    x & Mask(bit) > 0
  }

  /** The register with one bit forced to `v`; no other bit moves. */
  function WithBit(x: bv8, bit: bv8, v: bool): (r: bv8)
    requires bit < 8
    ensures Bit(r, bit) == v
    ensures forall other :: 0 <= other < 8 && other != bit ==> Bit(r, other) == Bit(x, other)
  {
    var r := if v then x | Mask(bit) else x & !Mask(bit);
    assert forall other :: 0 <= other < 8 && other != bit ==> Bit(r, other) == Bit(x, other) by {
      forall other | 0 <= other < 8 && other != bit
        ensures Bit(r, other) == Bit(x, other)
      {
        MaskLeavesOthers(x, bit, other);
      }
    }
    r
  }

  /** Setting or clearing one bit's mask leaves every other bit as it was. */
  lemma MaskLeavesOthers(x: bv8, bit: bv8, other: bv8)
    requires bit < 8 && other < 8 && other != bit
    ensures Bit(x | Mask(bit), other) == Bit(x, other)
    ensures Bit(x & !Mask(bit), other) == Bit(x, other)
  {
  }

  class HtmlFlags {
    var bits: bv8

    constructor (init: bv8)
      ensures bits == init
    {
      bits := init;
    }

    function GetBit(bit: bv8): bool
      requires bit < 8
      reads this
    {
      Bit(bits, bit)
    }

    method SetBit(bit: bv8, v: bool)
      requires bit < 8
      modifies this
      ensures bits == WithBit(old(bits), bit, v)
      ensures GetBit(bit) == v
      ensures forall other :: 0 <= other < 8 && other != bit ==> GetBit(other) == old(GetBit(other))
    {
      if v {
        bits := bits | Mask(bit);
      } else {
        bits := bits & !Mask(bit);
      }
    }

    method Reset()
      modifies this
      ensures bits == 0
      ensures forall bit :: 0 <= bit < 8 ==> !GetBit(bit)
    {
      bits := 0;
    }

    function GetOpenTag(): bool
      reads this
    {
      GetBit(OPEN_TAG)
    }

    function GetNameIssued(): bool
      reads this
    {
      GetBit(NAME_ISSUED)
    }

    function GetInsideQuote(): bool
      reads this
    {
      GetBit(INSIDE_QUOTE)
    }

    method SetOpenTag(v: bool)
      modifies this
      ensures bits == WithBit(old(bits), OPEN_TAG, v)
      ensures GetOpenTag() == v
      ensures GetNameIssued() == old(GetNameIssued()) && GetInsideQuote() == old(GetInsideQuote())
    {
      SetBit(OPEN_TAG, v);
    }

    method SetNameIssued(v: bool)
      modifies this
      ensures bits == WithBit(old(bits), NAME_ISSUED, v)
      ensures GetNameIssued() == v
      ensures GetOpenTag() == old(GetOpenTag()) && GetInsideQuote() == old(GetInsideQuote())
    {
      SetBit(NAME_ISSUED, v);
    }
  }
}
