/**
 * The text each read produces, as the source's fixed format strings
 * render it (ioapic_proc.c:36-46 for the simple registers, 68-126 for a
 * redirection-table slot), and the properties of that text: its size stays
 * far below the 10240-byte buffer, it splits into exactly the expected
 * lines in the fixed field order, and the numbers in it read back as the
 * register words they came from.
 */
module Render {

  import opened Words
  import opened Format
  import opened Addressing
  import opened Decode

  /** `BUFSIZE`: the size of the kernel-side buffer and the smallest accepted read. */
  const BufSize: nat := 10240

  /** The whole output of a simple-register read: "<name> : %08x\n". */
  function SimpleText(name: string, value: Word): (t: string)
    ensures |t| == |name| + 12
  {
    HexWord(value);
    name + " : " + HexPadded(value, 8) + "\n"
  }

  // ----- the lines of a redirection-table read, without their '\n' -----

  /** "I/O APIC redirection table%02d(offset:0x%02x) : 0x%08x%08x" with (slot, low index, high, low). */
  function HeaderLine(slot: nat, low: Word, high: Word): string
  {
    "I/O APIC redirection table" + DecPadded(slot, 2) + "(offset:0x" + HexPadded(LowIndex(slot), 2)
    + ") : 0x" + HexPadded(high, 8) + HexPadded(low, 8)
  }

  /** " Destination Field Logical Destination Address", shared by both destination formats. */
  const DestinationTitle: string := " Destination Field" + " Logical Destination Address"

  /**
   * " Destination Field Logical Destination Address(APIC ID): %x" in physical
   * mode (the source's wording, "Logical" included) and
   * " Destination Field Logical Destination Address(Set of Processors): %x"
   * in logical mode.
   */
  function DestinationLine(e: RedirectionEntry): string
  {
    if e.destinationMode == 0 then
      DestinationTitle + "(APIC ID): " + Hex(e.destinationField)
    else
      DestinationTitle + "(Set of Processors): " + Hex(e.destinationField)
  }

  /** "<title> : 0x%x(%s)" with the label chosen by `value ? whenSet : whenClear`. */
  function FlagLine(title: string, value: nat, whenSet: string, whenClear: string): string
  {
    title + " : 0x" + Labelled(value, if value != 0 then whenSet else whenClear)
  }

  /** "%x(%s)": a value in hexadecimal followed by its name in parentheses. */
  function Labelled(value: nat, name: string): string
  {
    Hex(value) + "(" + name + ")"
  }

  function MaskLine(e: RedirectionEntry): string
  {
    FlagLine(" Interrupt Mask", e.interruptMask, "Masked", "Not masked")
  }

  function TriggerLine(e: RedirectionEntry): string
  {
    FlagLine(" Trigger Mode", e.triggerMode, "Level", "Edge")
  }

  function PolarityLine(e: RedirectionEntry): string
  {
    FlagLine(" Interrupt Input Pin Polarity (INTPOL)", e.inputPinPolarity, "Low Active", "High Active")
  }

  /** The source prints "Send Pendign" (sic) for a pending delivery. */
  function DeliveryStatusLine(e: RedirectionEntry): string
  {
    FlagLine(" Delivery Status (DELIVS)", e.deliveryStatus, "Send Pendign", "IDLE")
  }

  function DestinationModeLine(e: RedirectionEntry): string
  {
    FlagLine(" Destination Mode (DESTMOD)", e.destinationMode, "Logical Mode", "Physical Mode")
  }

  function RemoteIrrLine(e: RedirectionEntry): string
  {
    " Remote IRR : 0x" + Hex(e.remoteIrr)
  }

  function DeliveryModeLine(e: RedirectionEntry): string
  {
    " Delivery Mode (DELMOD) : 0x" + Labelled(e.deliveryMode, DeliveryModeLabel(e.deliveryMode))
  }

  function VectorLine(e: RedirectionEntry): string
  {
    " Interrupt Vector (INTVEC): " + Dec(e.interruptVector)
  }

  /** The ten lines of a slot's report, in the order the source prints them. */
  function RedirectionLines(slot: nat, low: Word, high: Word): (lines: seq<string>)
    ensures |lines| == 10
  {
    var e := DecodeEntry(low, high);
    [ HeaderLine(slot, low, high),
      DestinationLine(e),
      MaskLine(e),
      TriggerLine(e),
      RemoteIrrLine(e),
      PolarityLine(e),
      DeliveryStatusLine(e),
      DestinationModeLine(e),
      DeliveryModeLine(e),
      VectorLine(e) ]
  }

  /** Lines each followed by '\n', appended one after another as the source's `sprintf` calls do. */
  function Terminated(lines: seq<string>): string
  {
    if lines == [] then [] else Terminated(lines[..|lines| - 1]) + lines[|lines| - 1] + "\n"
  }

  /** The whole output of a redirection-table read. */
  function RedirectionText(slot: nat, low: Word, high: Word): (t: string)
    requires slot < RedirectionSlots
    ensures 0 < |t| <= 810
  {
    LinesAreShort(slot, low, high);
    TerminatedLength(RedirectionLines(slot, low, high), 80);
    Terminated(RedirectionLines(slot, low, high))
  }

  // ----- reading the text back -----

  /** Position of the first '\n' of `s`, or |s| when there is none. */
  function LineEnd(s: string): (k: nat)
    ensures k <= |s| && (k < |s| ==> s[k] == '\n') && '\n' !in s[..k]
  {
    if s == [] || s[0] == '\n' then 0
    else
      var k' := LineEnd(s[1..]);
      assert s[..1 + k'] == [s[0]] + s[1..][..k'];
      1 + k'
  }

  /** The lines of a text, without their terminators. */
  function SplitLines(s: string): seq<string>
    decreases |s|
  {
    if s == [] then []
    else
      var k := LineEnd(s);
      [s[..k]] + (if k < |s| then SplitLines(s[k + 1..]) else [])
  }

  predicate NoNewlines(lines: seq<string>)
  {
    forall i :: 0 <= i < |lines| ==> '\n' !in lines[i]
  }

  lemma SplitLinesCons(a: string, rest: string)
    requires '\n' !in a
    ensures SplitLines(a + "\n" + rest) == [a] + SplitLines(rest)
  {
    var s := a + "\n" + rest;
    var k := LineEnd(s);
    assert s[|a|] == '\n';
    assert forall i :: 0 <= i < |a| ==> s[i] == a[i];
    assert s[..k] == a;
    assert s[k + 1..] == rest;
  }

  /** Appending line `k` extends the text of the first `k` lines. */
  lemma TerminatedSnoc(lines: seq<string>, k: nat)
    requires k < |lines|
    ensures Terminated(lines[..k + 1]) == Terminated(lines[..k]) + lines[k] + "\n"
  {
    assert lines[..k + 1][..k] == lines[..k];
  }

  lemma {:induction false} TerminatedCons(x: string, rest: seq<string>)
    ensures Terminated([x] + rest) == x + "\n" + Terminated(rest)
    decreases |rest|
  {
    if rest == [] {
      assert [x] + rest == [x];
      assert [x][..0] == [];
    } else {
      var r' := rest[..|rest| - 1];
      var y := rest[|rest| - 1];
      assert ([x] + rest)[..|rest|] == [x] + r';
      TerminatedCons(x, r');
    }
  }

  /** Splitting the appended lines recovers them exactly: no line leaks into the next. */
  lemma {:induction false} SplitTerminated(lines: seq<string>)
    requires NoNewlines(lines)
    ensures SplitLines(Terminated(lines)) == lines
    decreases |lines|
  {
    if lines != [] {
      var x, rest := lines[0], lines[1..];
      assert lines == [x] + rest;
      TerminatedCons(x, rest);
      SplitLinesCons(x, Terminated(rest));
      SplitTerminated(rest);
    }
  }

  lemma {:induction false} TerminatedLength(lines: seq<string>, m: nat)
    requires forall i :: 0 <= i < |lines| ==> |lines[i]| <= m
    ensures |Terminated(lines)| <= |lines| * (m + 1)
    ensures lines != [] ==> |Terminated(lines)| > 0
    decreases |lines|
  {
    if lines != [] {
      var init := lines[..|lines| - 1];
      TerminatedLength(init, m);
      MulDistrib(m + 1, |init|, 1);
    }
  }

  lemma DigitsNoNewline(s: string, base: nat)
    requires AllDigits(s, base)
    ensures '\n' !in s
  {
  }

  lemma HexNoNewline(n: nat)
    ensures '\n' !in Hex(n)
  {
    DigitsNoNewline(Hex(n), 16);
  }

  /** One hexadecimal digit below 16, at most two below 256, at most three decimal digits below 1000. */
  lemma SmallNumberWidths(n: nat)
    ensures n < 0x10 ==> |Hex(n)| == 1
    ensures n < 0x100 ==> |Hex(n)| <= 2
    ensures n < 1000 ==> |Dec(n)| <= 3
    ensures n < 100 ==> |DecPadded(n, 2)| == 2
  {
    Power16Of8();
    assert Power(10, 2) == 100;
    assert Power(10, 3) == 1000;
    if n < 0x10 { DigitsLength(n, 16, 1); }
    if n < 0x100 { DigitsLength(n, 16, 2); }
    if n < 1000 { DigitsLength(n, 10, 3); }
    if n < 100 { DigitsLength(n, 10, 2); }
  }

  /** The header's fixed text around its four numbers, for numbers of the printed widths. */
  lemma HeaderPieces(d: string, x: string, hi: string, lo: string)
    requires |d| == 2 && |x| == 2 && |hi| == 8 && |lo| == 8
    requires '\n' !in d && '\n' !in x && '\n' !in hi && '\n' !in lo
    ensures var h := "I/O APIC redirection table" + d + "(offset:0x" + x + ") : 0x" + hi + lo;
      && |h| == 62 && '\n' !in h
      && h[..26] == "I/O APIC redirection table" && h[26..28] == d
      && h[28..38] == "(offset:0x" && h[38..40] == x
      && h[40..46] == ") : 0x" && h[46..54] == hi && h[54..62] == lo && h[46..62] == hi + lo
  {
  }

  lemma HeaderLineShort(slot: nat, low: Word, high: Word)
    requires slot < RedirectionSlots
    ensures |HeaderLine(slot, low, high)| == 62 && '\n' !in HeaderLine(slot, low, high)
  {
    HeaderFacts(slot, low, high);
  }

  lemma HeaderFacts(slot: nat, low: Word, high: Word)
    requires slot < RedirectionSlots
    ensures var d, x, hi, lo := DecPadded(slot, 2), HexPadded(LowIndex(slot), 2), HexPadded(high, 8), HexPadded(low, 8);
      && |d| == 2 && |x| == 2 && |hi| == 8 && |lo| == 8
      && '\n' !in d && '\n' !in x && '\n' !in hi && '\n' !in lo
      && AllDigits(hi, 16) && AllDigits(lo, 16)
      && Value(d, 10) == slot && Value(x, 16) == LowIndex(slot)
      && Value(hi, 16) == high && Value(lo, 16) == low
      && HeaderLine(slot, low, high) == "I/O APIC redirection table" + d + "(offset:0x" + x + ") : 0x" + hi + lo
      && |HeaderLine(slot, low, high)| == 62 && '\n' !in HeaderLine(slot, low, high)
  {
    var d, x, hi, lo := DecPadded(slot, 2), HexPadded(LowIndex(slot), 2), HexPadded(high, 8), HexPadded(low, 8);
    HexWord(low);
    HexWord(high);
    Power16Of8();
    DigitsLength(LowIndex(slot), 16, 2);
    SmallNumberWidths(slot);
    PaddedRoundTrip(slot, 10, 2);
    PaddedRoundTrip(LowIndex(slot), 16, 2);
    DigitsNoNewline(d, 10);
    DigitsNoNewline(x, 16);
    DigitsNoNewline(hi, 16);
    DigitsNoNewline(lo, 16);
    HeaderPieces(d, x, hi, lo);
  }

  lemma FlagLineShort(title: string, value: nat, whenSet: string, whenClear: string)
    requires value < 0x10 && '\n' !in title && '\n' !in whenSet && '\n' !in whenClear
    ensures '\n' !in FlagLine(title, value, whenSet, whenClear)
    ensures |FlagLine(title, value, whenSet, whenClear)|
         == |title| + 8 + if value != 0 then |whenSet| else |whenClear|
  {
    SmallNumberWidths(value);
    HexNoNewline(value);
  }

  lemma DestinationLineShort(e: RedirectionEntry)
    requires WellFormed(e)
    ensures |DestinationLine(e)| <= 69 && '\n' !in DestinationLine(e)
  {
    SmallNumberWidths(e.destinationField);
    HexNoNewline(e.destinationField);
  }

  lemma RemoteIrrLineShort(e: RedirectionEntry)
    requires WellFormed(e)
    ensures |RemoteIrrLine(e)| == 17 && '\n' !in RemoteIrrLine(e)
  {
    SmallNumberWidths(e.remoteIrr);
    HexNoNewline(e.remoteIrr);
  }

  lemma DeliveryModeLineShort(e: RedirectionEntry)
    requires WellFormed(e)
    ensures |DeliveryModeLine(e)| <= 47 && '\n' !in DeliveryModeLine(e)
  {
    SmallNumberWidths(e.deliveryMode);
    HexNoNewline(e.deliveryMode);
    var name := DeliveryModeLabel(e.deliveryMode);
    assert |name| <= 15 && '\n' !in name by {
      if e.deliveryMode == 0 {
        assert name == "Fixed";
      } else if e.deliveryMode == 1 {
        assert name == "Lowest Priority";
      } else if e.deliveryMode == 2 {
        assert name == "SMI";
      } else {
        assert name == "Reserved";
      }
    }
  }

  lemma VectorLineShort(e: RedirectionEntry)
    requires WellFormed(e)
    ensures |VectorLine(e)| <= 31 && '\n' !in VectorLine(e)
  {
    SmallNumberWidths(e.interruptVector);
    DigitsNoNewline(Dec(e.interruptVector), 10);
  }

  lemma MaskLineShort(e: RedirectionEntry)
    requires WellFormed(e)
    ensures |MaskLine(e)| <= 80 && '\n' !in MaskLine(e)
  {
    FlagLineShort(" Interrupt Mask", e.interruptMask, "Masked", "Not masked");
  }

  lemma TriggerLineShort(e: RedirectionEntry)
    requires WellFormed(e)
    ensures |TriggerLine(e)| <= 80 && '\n' !in TriggerLine(e)
  {
    FlagLineShort(" Trigger Mode", e.triggerMode, "Level", "Edge");
  }

  lemma PolarityLineShort(e: RedirectionEntry)
    requires WellFormed(e)
    ensures |PolarityLine(e)| <= 80 && '\n' !in PolarityLine(e)
  {
    FlagLineShort(" Interrupt Input Pin Polarity (INTPOL)", e.inputPinPolarity, "Low Active", "High Active");
  }

  lemma DeliveryStatusLineShort(e: RedirectionEntry)
    requires WellFormed(e)
    ensures |DeliveryStatusLine(e)| <= 80 && '\n' !in DeliveryStatusLine(e)
  {
    FlagLineShort(" Delivery Status (DELIVS)", e.deliveryStatus, "Send Pendign", "IDLE");
  }

  lemma DestinationModeLineShort(e: RedirectionEntry)
    requires WellFormed(e)
    ensures |DestinationModeLine(e)| <= 80 && '\n' !in DestinationModeLine(e)
  {
    FlagLineShort(" Destination Mode (DESTMOD)", e.destinationMode, "Logical Mode", "Physical Mode");
  }

  /** Ten lines that are each newline-free and at most `m` long, as one sequence. */
  lemma TenShortLines(l0: string, l1: string, l2: string, l3: string, l4: string,
                      l5: string, l6: string, l7: string, l8: string, l9: string, m: nat)
    requires '\n' !in l0 && '\n' !in l1 && '\n' !in l2 && '\n' !in l3 && '\n' !in l4
    requires '\n' !in l5 && '\n' !in l6 && '\n' !in l7 && '\n' !in l8 && '\n' !in l9
    requires |l0| <= m && |l1| <= m && |l2| <= m && |l3| <= m && |l4| <= m
    requires |l5| <= m && |l6| <= m && |l7| <= m && |l8| <= m && |l9| <= m
    ensures var lines := [l0, l1, l2, l3, l4, l5, l6, l7, l8, l9];
      NoNewlines(lines) && forall i :: 0 <= i < |lines| ==> |lines[i]| <= m
  {
  }

  lemma LinesAreShort(slot: nat, low: Word, high: Word)
    requires slot < RedirectionSlots
    ensures NoNewlines(RedirectionLines(slot, low, high))
    ensures forall i :: 0 <= i < |RedirectionLines(slot, low, high)| ==> |RedirectionLines(slot, low, high)[i]| <= 80
    ensures |RedirectionLines(slot, low, high)| == 10
  {
    var e := DecodeEntry(low, high);
    HeaderLineShort(slot, low, high);
    DestinationLineShort(e);
    MaskLineShort(e);
    TriggerLineShort(e);
    RemoteIrrLineShort(e);
    PolarityLineShort(e);
    DeliveryStatusLineShort(e);
    DestinationModeLineShort(e);
    DeliveryModeLineShort(e);
    VectorLineShort(e);
    TenShortLines(HeaderLine(slot, low, high), DestinationLine(e), MaskLine(e), TriggerLine(e),
      RemoteIrrLine(e), PolarityLine(e), DeliveryStatusLine(e), DestinationModeLine(e),
      DeliveryModeLine(e), VectorLine(e), 80);
  }

  // ----- properties of the output -----

  /**
   * A slot's report is non-empty, far smaller than the buffer (at most 810
   * characters), and is exactly its ten lines in order, nothing more.
   */
  lemma RedirectionTextShape(slot: nat, low: Word, high: Word)
    requires slot < RedirectionSlots
    ensures 0 < |RedirectionText(slot, low, high)| <= 810 < BufSize
    ensures SplitLines(RedirectionText(slot, low, high)) == RedirectionLines(slot, low, high)
  {
    LinesAreShort(slot, low, high);
    SplitTerminated(RedirectionLines(slot, low, high));
  }

  /**
   * The header carries the slot (`%02d`), its low-word index (`%02x`) and the
   * 64-bit entry as sixteen hex digits, high word first, each readable back.
   */
  lemma HeaderLayout(slot: nat, low: Word, high: Word)
    requires slot < RedirectionSlots
    ensures var h := HeaderLine(slot, low, high);
      && |h| == 62
      && h[..26] == "I/O APIC redirection table"
      && AllDigits(h[26..28], 10) && Value(h[26..28], 10) == slot
      && h[28..38] == "(offset:0x"
      && AllDigits(h[38..40], 16) && Value(h[38..40], 16) == LowIndex(slot)
      && h[40..46] == ") : 0x"
      && AllDigits(h[46..62], 16)
      && Value(h[46..62], 16) == high * WordModulus + low
      && Value(h[46..54], 16) == high && Value(h[54..62], 16) == low
  {
    var d, x, hi, lo := DecPadded(slot, 2), HexPadded(LowIndex(slot), 2), HexPadded(high, 8), HexPadded(low, 8);
    HeaderFacts(slot, low, high);
    HeaderPieces(d, x, hi, lo);
    ValueConcat(hi, lo, 16);
    Power16Of8();
  }

  /**
   * The destination line depends on bit 11 (destination mode) of the low
   * word: physical mode prints bits 25:22 of the high word under the
   * "APIC ID" label, logical mode bits 29:22 under "Set of Processors".
   */
  lemma DestinationLineMeaning(slot: nat, low: Word, high: Word)
    ensures var line := RedirectionLines(slot, low, high)[1];
      if Bit(low, 11) == 0 then
        line == DestinationTitle + "(APIC ID): " + Hex((high / 0x40_0000) % 0x10)
      else
        line == DestinationTitle + "(Set of Processors): " + Hex((high / 0x40_0000) % 0x100)
  {
  }

  /** A value below 16 prints as its one digit. */
  lemma HexDigit(d: nat)
    requires d < 16
    ensures Hex(d) == [DigitChar(d)]
  {
  }

  /** A one-bit field prints as "<title> : 0x1(<whenSet>)" or "<title> : 0x0(<whenClear>)". */
  lemma FlagLineOfBit(title: string, value: nat, whenSet: string, whenClear: string)
    requires value < 2
    ensures FlagLine(title, value, whenSet, whenClear)
         == title + " : 0x" + if value == 1 then "1(" + whenSet + ")" else "0(" + whenClear + ")"
  {
    HexDigit(value);
  }

  /** A flag line shows its bit and the label that value selects. */
  lemma MaskLineMeaning(e: RedirectionEntry)
    requires WellFormed(e)
    ensures MaskLine(e) == " Interrupt Mask" + " : 0x" + (if e.interruptMask == 1 then "1(Masked)" else "0(Not masked)")
  {
    FlagLineOfBit(" Interrupt Mask", e.interruptMask, "Masked", "Not masked");
  }

  lemma TriggerLineMeaning(e: RedirectionEntry)
    requires WellFormed(e)
    ensures TriggerLine(e) == " Trigger Mode" + " : 0x" + (if e.triggerMode == 1 then "1(Level)" else "0(Edge)")
  {
    FlagLineOfBit(" Trigger Mode", e.triggerMode, "Level", "Edge");
  }

  lemma PolarityLineMeaning(e: RedirectionEntry)
    requires WellFormed(e)
    ensures PolarityLine(e) == " Interrupt Input Pin Polarity (INTPOL)" + " : 0x" + (if e.inputPinPolarity == 1 then "1(Low Active)" else "0(High Active)")
  {
    FlagLineOfBit(" Interrupt Input Pin Polarity (INTPOL)", e.inputPinPolarity, "Low Active", "High Active");
  }

  lemma DeliveryStatusLineMeaning(e: RedirectionEntry)
    requires WellFormed(e)
    ensures DeliveryStatusLine(e) == " Delivery Status (DELIVS)" + " : 0x" + (if e.deliveryStatus == 1 then "1(Send Pendign)" else "0(IDLE)")
  {
    FlagLineOfBit(" Delivery Status (DELIVS)", e.deliveryStatus, "Send Pendign", "IDLE");
  }

  lemma DestinationModeLineMeaning(e: RedirectionEntry)
    requires WellFormed(e)
    ensures DestinationModeLine(e) == " Destination Mode (DESTMOD)" + " : 0x" + (if e.destinationMode == 1 then "1(Logical Mode)" else "0(Physical Mode)")
  {
    FlagLineOfBit(" Destination Mode (DESTMOD)", e.destinationMode, "Logical Mode", "Physical Mode");
  }

  /** The remote-IRR line shows its bit with no label. */
  lemma RemoteIrrLineMeaning(e: RedirectionEntry)
    requires WellFormed(e)
    ensures RemoteIrrLine(e) == " Remote IRR : 0x" + (if e.remoteIrr == 1 then "1" else "0")
  {
    HexDigit(e.remoteIrr);
  }

  /** The delivery-mode line names one of the four two-bit modes, never the other labels. */
  lemma DeliveryModeLineMeaning(e: RedirectionEntry)
    requires WellFormed(e)
    ensures DeliveryModeLine(e) == " Delivery Mode (DELMOD) : 0x"
                                   + ["0(Fixed)", "1(Lowest Priority)", "2(SMI)", "3(Reserved)"][e.deliveryMode]
  {
    var m := e.deliveryMode;
    HexDigit(m);
    assert Labelled(m, DeliveryModeLabel(m))
        == ["0(Fixed)", "1(Lowest Priority)", "2(SMI)", "3(Reserved)"][m] by {
      if m == 0 {
      } else if m == 1 {
      } else if m == 2 {
      } else {
      }
    }
  }

  /**
   * Lines 3 to 6 of a slot's report, in terms of the low word: the mask,
   * trigger, remote IRR and polarity lines show bits 16 down to 13, each
   * flag with its matching label.
   */
  lemma UpperFlagLinesMeaning(slot: nat, low: Word, high: Word)
    ensures var lines := RedirectionLines(slot, low, high);
      && lines[2] == " Interrupt Mask" + " : 0x" + (if Bit(low, 16) == 1 then "1(Masked)" else "0(Not masked)")
      && lines[3] == " Trigger Mode" + " : 0x" + (if Bit(low, 15) == 1 then "1(Level)" else "0(Edge)")
      && lines[4] == " Remote IRR : 0x" + (if Bit(low, 14) == 1 then "1" else "0")
      && lines[5] == " Interrupt Input Pin Polarity (INTPOL)" + " : 0x"
                     + (if Bit(low, 13) == 1 then "1(Low Active)" else "0(High Active)")
  {
    var e := DecodeEntry(low, high);
    var lines := RedirectionLines(slot, low, high);
    assert lines[2] == MaskLine(e) && lines[3] == TriggerLine(e);
    assert lines[4] == RemoteIrrLine(e) && lines[5] == PolarityLine(e);
    MaskLineMeaning(e);
    TriggerLineMeaning(e);
    RemoteIrrLineMeaning(e);
    PolarityLineMeaning(e);
  }

  /**
   * Lines 7 to 9 of a slot's report, in terms of the low word: the delivery
   * status and destination mode lines show bits 12 and 11 with their
   * labels, and the delivery-mode line shows bits 9:8 and their name.
   */
  lemma LowerFieldLinesMeaning(slot: nat, low: Word, high: Word)
    ensures var lines := RedirectionLines(slot, low, high);
      && lines[6] == " Delivery Status (DELIVS)" + " : 0x"
                     + (if Bit(low, 12) == 1 then "1(Send Pendign)" else "0(IDLE)")
      && lines[7] == " Destination Mode (DESTMOD)" + " : 0x"
                     + (if Bit(low, 11) == 1 then "1(Logical Mode)" else "0(Physical Mode)")
      && lines[8] == " Delivery Mode (DELMOD) : 0x"
                     + ["0(Fixed)", "1(Lowest Priority)", "2(SMI)", "3(Reserved)"][(low / 0x100) % 4]
  {
    var e := DecodeEntry(low, high);
    var lines := RedirectionLines(slot, low, high);
    assert lines[6] == DeliveryStatusLine(e) && lines[7] == DestinationModeLine(e);
    assert lines[8] == DeliveryModeLine(e);
    DeliveryStatusLineMeaning(e);
    DestinationModeLineMeaning(e);
    DeliveryModeLineMeaning(e);
  }

  /** The vector line reads back as the low byte of the low word. */
  lemma VectorReadsBack(low: Word, high: Word)
    ensures var line := VectorLine(DecodeEntry(low, high));
      line[..28] == " Interrupt Vector (INTVEC): " && AllDigits(line[28..], 10)
      && Value(line[28..], 10) == low % 0x100
  {
    var line := VectorLine(DecodeEntry(low, high));
    assert line[28..] == Dec(low % 0x100);
    DigitsRoundTrip(low % 0x100, 10);
  }

  /**
   * A simple-register read prints the name, " : ", exactly eight lowercase
   * hex digits that read back as the register word (no "0x" prefix), and a
   * newline.
   */
  lemma SimpleTextLayout(name: string, value: Word)
    ensures var t := SimpleText(name, value);
      && |t| == |name| + 12
      && t[..|name|] == name && t[|name|..|name| + 3] == " : "
      && AllDigits(t[|name| + 3..|name| + 11], 16)
      && Value(t[|name| + 3..|name| + 11], 16) == value
      && t[|name| + 11] == '\n'
  {
    var t := SimpleText(name, value);
    HexWord(value);
    assert t[|name| + 3..|name| + 11] == HexPadded(value, 8);
  }

  lemma IdTextExample()
    ensures SimpleText("I/O APIC ID", 0x0A00_0000) == "I/O APIC ID : 0a000000\n"
  {
    assert Digits(0xA, 16) == "a";
    assert Digits(0xA0, 16) == "a0";
    assert Digits(0xA00, 16) == "a00";
    assert Digits(0xA000, 16) == "a000";
    assert Digits(0xA_0000, 16) == "a0000";
    assert Digits(0xA0_0000, 16) == "a00000";
    assert Digits(0xA00_0000, 16) == "a000000";
    assert Zeros(1) == "0";
  }
}
