/**
 * Decoding of one redirection-table entry from its low and high 32-bit
 * words, computed as the source computes it: each word is held in a signed
 * C `int`, shifted right and masked.
 *
 * Two places differ from the datasheet layout (section 3.2.4 of the Intel
 * 82093AA I/O APIC datasheet) and are modelled as written: the delivery
 * mode keeps only bits 9:8 (mask 0x3, so bit 10 is never seen), and the
 * destination field is read from bit 22 of the high word rather than bit 24.
 */
module Decode {

  import opened Words

  /** The values the source computes from one slot's two words. */
  datatype RedirectionEntry = RedirectionEntry(
    destinationField: nat,
    interruptMask: nat,
    triggerMode: nat,
    remoteIrr: nat,
    inputPinPolarity: nat,
    deliveryStatus: nat,
    destinationMode: nat,
    deliveryMode: nat,
    interruptVector: nat)

  /** `(x >> k) & (2^m - 1)` for the word held in a signed C `int`. */
  function Field(w: Word, k: nat, m: nat): (r: nat)
    requires k + m <= 32
    ensures r == Bits(w, k, m)
  {
    SignedExtractionAgrees(w, k, m);
    CShiftMask(w, k, m)
  }

  function Bit(w: Word, k: nat): nat
  {
    Bits(w, k, 1)
  }

  /**
   * The decode of one slot. Every flag is the corresponding bit of the
   * low word, the delivery mode is bits 9:8, the vector is the low byte,
   * and the destination field is 4 bits wide in physical mode and 8 bits
   * wide in logical mode, starting at bit 22 of the high word.
   */
  function DecodeEntry(low: Word, high: Word): (e: RedirectionEntry)
    ensures e.interruptMask == Bit(low, 16) && e.triggerMode == Bit(low, 15)
    ensures e.remoteIrr == Bit(low, 14) && e.inputPinPolarity == Bit(low, 13)
    ensures e.deliveryStatus == Bit(low, 12) && e.destinationMode == Bit(low, 11)
    ensures e.deliveryMode == (low / 0x100) % 4 && e.interruptVector == low % 0x100
    ensures e.destinationMode == 0 ==> e.destinationField == (high / 0x40_0000) % 0x10
    ensures e.destinationMode == 1 ==> e.destinationField == (high / 0x40_0000) % 0x100
    ensures WellFormed(e)
  {
    Pow2Values();
    var destinationMode := Field(low, 11, 1);
    RedirectionEntry(
      if destinationMode == 0 then Field(high, 22, 4) else Field(high, 22, 8),
      Field(low, 16, 1),
      Field(low, 15, 1),
      Field(low, 14, 1),
      Field(low, 13, 1),
      Field(low, 12, 1),
      destinationMode,
      Field(low, 8, 2),
      Field(low, 0, 8))
  }

  /** The ranges the decoded values can take. */
  predicate WellFormed(e: RedirectionEntry)
  {
    && e.interruptMask < 2 && e.triggerMode < 2 && e.remoteIrr < 2
    && e.inputPinPolarity < 2 && e.deliveryStatus < 2 && e.destinationMode < 2
    && e.deliveryMode < 4 && e.interruptVector < 0x100
    && e.destinationField < (if e.destinationMode == 0 then 0x10 else 0x100)
  }

  /** A low word carrying exactly the given fields in their bit positions. */
  function LowWordOf(e: RedirectionEntry): Word
    requires WellFormed(e)
  {
    e.interruptMask * 0x1_0000 + e.triggerMode * 0x8000 + e.remoteIrr * 0x4000
    + e.inputPinPolarity * 0x2000 + e.deliveryStatus * 0x1000
    + e.destinationMode * 0x800 + e.deliveryMode * 0x100 + e.interruptVector
  }

  /** A high word carrying the destination field where the source reads it. */
  function HighWordOf(e: RedirectionEntry): Word
    requires WellFormed(e)
  {
    e.destinationField * 0x40_0000
  }

  /**
   * Decoding inverts encoding: the nine fields occupy disjoint bit ranges
   * and each is read back from its own range.
   */
  lemma DecodeEncode(e: RedirectionEntry)
    requires WellFormed(e)
    ensures DecodeEntry(LowWordOf(e), HighWordOf(e)) == e
  {
    Pow2Values();
    var low, high := LowWordOf(e), HighWordOf(e);
    var mask, trig, irr, pol := e.interruptMask, e.triggerMode, e.remoteIrr, e.inputPinPolarity;
    var ds, dm, dlm, vec := e.deliveryStatus, e.destinationMode, e.deliveryMode, e.interruptVector;
    FieldOfLayout(low, mask * 0x100 + trig * 0x80 + irr * 0x40 + pol * 0x20 + ds * 0x10 + dm * 8 + dlm,
      vec, 0, 1, 0x100);
    FieldOfLayout(low, mask * 0x40 + trig * 0x20 + irr * 0x10 + pol * 8 + ds * 4 + dm * 2,
      dlm, vec, 0x100, 4);
    FieldOfLayout(low, mask * 0x10 + trig * 8 + irr * 4 + pol * 2 + ds,
      dm, dlm * 0x100 + vec, 0x800, 2);
    FieldOfLayout(low, mask * 8 + trig * 4 + irr * 2 + pol,
      ds, dm * 0x800 + dlm * 0x100 + vec, 0x1000, 2);
    FieldOfLayout(low, mask * 4 + trig * 2 + irr,
      pol, ds * 0x1000 + dm * 0x800 + dlm * 0x100 + vec, 0x2000, 2);
    FieldOfLayout(low, mask * 2 + trig,
      irr, pol * 0x2000 + ds * 0x1000 + dm * 0x800 + dlm * 0x100 + vec, 0x4000, 2);
    FieldOfLayout(low, mask,
      trig, irr * 0x4000 + pol * 0x2000 + ds * 0x1000 + dm * 0x800 + dlm * 0x100 + vec, 0x8000, 2);
    FieldOfLayout(low, 0,
      mask, trig * 0x8000 + irr * 0x4000 + pol * 0x2000 + ds * 0x1000 + dm * 0x800 + dlm * 0x100 + vec,
      0x1_0000, 2);
    if dm == 0 {
      FieldOfLayout(high, 0, e.destinationField, 0, 0x40_0000, 0x10);
    } else {
      FieldOfLayout(high, 0, e.destinationField, 0, 0x40_0000, 0x100);
    }
  }

  /**
   * Only the decoded bit ranges matter: two pairs of words that agree on
   * bits 16..11, 9:8 and 7:0 of the low word and on bits 29:22 of the high
   * word decode alike, whatever bit 10, bits 31:17 of the low word and the
   * rest of the high word hold.
   */
  lemma DecodeDependsOnlyOnFields(low: Word, high: Word, low': Word, high': Word)
    requires forall k :: 11 <= k <= 16 ==> Bit(low, k) == Bit(low', k)
    requires Bits(low, 8, 2) == Bits(low', 8, 2) && Bits(low, 0, 8) == Bits(low', 0, 8)
    requires Bits(high, 22, 8) == Bits(high', 22, 8)
    ensures DecodeEntry(low, high) == DecodeEntry(low', high')
  {
    Pow2Values();
    assert Bit(low, 11) == Bit(low', 11);
    assert Bit(low, 12) == Bit(low', 12) && Bit(low, 13) == Bit(low', 13);
    assert Bit(low, 14) == Bit(low', 14) && Bit(low, 15) == Bit(low', 15);
    assert Bit(low, 16) == Bit(low', 16);
    ModOfMod(high / 0x40_0000, 0x10, 0x10);
    ModOfMod(high' / 0x40_0000, 0x10, 0x10);
  }

  /** `delivery_mode_explain`: the label for a delivery-mode code, with its default. */
  function DeliveryModeLabel(mode: int): (name: string)
    ensures name == "Not supported" <==> !(0 <= mode < 8)
  {
    match mode
    case 0 => "Fixed"
    case 1 => "Lowest Priority"
    case 2 => "SMI"
    case 3 => "Reserved"
    case 4 => "NMI"
    case 5 => "INIT"
    case 6 => "Reserved"
    case 7 => "ExtINT"
    case _ => "Not supported"
  }

  /**
   * Because the mode is masked to two bits, only the first four labels can
   * ever be printed: "NMI", "INIT", "ExtINT", the second "Reserved" and the
   * "Not supported" default are unreachable.
   */
  lemma DeliveryModeReachable(low: Word, high: Word)
    ensures var name := DeliveryModeLabel(DecodeEntry(low, high).deliveryMode);
      name == ["Fixed", "Lowest Priority", "SMI", "Reserved"][(low / 0x100) % 4]
      && name != "NMI" && name != "INIT" && name != "ExtINT" && name != "Not supported"
  {
  }

  /**
   * Bit 10 (the top bit of the three-bit delivery-mode field) never affects
   * the decode: a low word with mode NMI (0b100) decodes as Fixed.
   */
  lemma DeliveryModeIgnoresBit10(low: Word, high: Word)
    requires Bit(low, 10) == 0
    ensures DecodeEntry(low + 0x400, high).deliveryMode == DecodeEntry(low, high).deliveryMode
    ensures DecodeEntry(low + 0x400, high).interruptVector == DecodeEntry(low, high).interruptVector
  {
    Pow2Values();
    assert low + 0x400 < 0x1_0000_0000;
    DivSubMultiple(low, -4, 0x100);
    ModSubMultiple(low / 0x100, -1, 4);
    ModSubMultiple(low, -4, 0x100);
  }

  lemma NmiReadsAsFixed()
    ensures DeliveryModeLabel(DecodeEntry(0x400, 0).deliveryMode) == "Fixed"
  {
  }

  /**
   * For the same high word, the physical-mode destination is the low four
   * bits of the logical-mode destination.
   */
  lemma PhysicalDestinationIsLogicalLowNibble(physical: Word, logical: Word, high: Word)
    requires Bit(physical, 11) == 0 && Bit(logical, 11) == 1
    ensures DecodeEntry(physical, high).destinationField
         == DecodeEntry(logical, high).destinationField % 0x10
    ensures DecodeEntry(physical, high).destinationField < 0x10
    ensures DecodeEntry(logical, high).destinationField < 0x100
  {
    ModOfMod(high / 0x40_0000, 0x10, 0x10);
  }

  /** A masked, edge-triggered, physical-mode entry with vector 0. */
  lemma MaskedSlotExample()
    ensures var e := DecodeEntry(0x0001_0000, 0);
      e.interruptMask == 1 && e.triggerMode == 0 && e.destinationMode == 0
      && e.interruptVector == 0 && e.deliveryMode == 0 && e.destinationField == 0
  {
    Pow2Values();
    assert 0x0001_0000 / 0x1_0000 == 1 && 0x0001_0000 / 0x8000 == 2 && 0x0001_0000 / 0x800 == 0x20;
  }
}
