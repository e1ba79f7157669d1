/**
 * Register indices written to the I/O APIC's index register (IOREGSEL)
 * before each read of its data window (IOWIN), as in section 3.1 of the
 * Intel 82093AA I/O APIC datasheet: IOAPICID, IOAPICVER and IOAPICARB are
 * registers 0, 1 and 2, and redirection-table slot n occupies the pair
 * 0x10 + 2n (low word, bits 31:0) and 0x11 + 2n (high word, bits 63:32).
 */
module Addressing {

  const IdIndex: nat := 0
  const VersionIndex: nat := 1
  const ArbitrationIndex: nat := 2

  /** Number of redirection-table slots the catalog exposes (0..23). */
  const RedirectionSlots: nat := 24

  /** Size of the index space of the modelled register file (0x00..0x3F). */
  const RegisterCount: nat := 0x40

  /** The index selected before reading the low word of a slot. */
  function LowIndex(slot: nat): (i: nat)
    ensures i >= 0x10 && i % 2 == 0
  {
    slot * 2 + 0x10
  }

  /** The index selected before reading the high word of a slot. */
  function HighIndex(slot: nat): (i: nat)
    ensures i >= 0x11 && i % 2 == 1
  {
    slot * 2 + 0x11
  }

  /** The slot a redirection-table index belongs to: the partner of the two above. */
  function SlotOf(index: nat): nat
    requires index >= 0x10
  {
    (index - 0x10) / 2
  }

  /** Both words of a slot address that slot, adjacently, low word first. */
  lemma SlotIndexRoundTrip(slot: nat)
    ensures SlotOf(LowIndex(slot)) == slot && SlotOf(HighIndex(slot)) == slot
    ensures HighIndex(slot) == LowIndex(slot) + 1
  {
  }

  /** Every index of the redirection window is the low or high word of exactly one slot. */
  lemma IndexBelongsToSlot(index: nat)
    requires 0x10 <= index < RegisterCount
    ensures SlotOf(index) < RedirectionSlots
    ensures index == LowIndex(SlotOf(index)) || index == HighIndex(SlotOf(index))
  {
  }

  /**
   * The 24 slots address exactly the window 0x10..0x3F, never one of the
   * three simple registers: slot 0 is 0x10/0x11 and slot 23 is 0x3E/0x3F.
   */
  lemma SlotIndicesInWindow(slot: nat)
    requires slot < RedirectionSlots
    ensures 0x10 <= LowIndex(slot) < HighIndex(slot) <= 0x3F
    ensures LowIndex(slot) > ArbitrationIndex
  {
  }

  lemma SlotIndicesEndpoints()
    ensures LowIndex(0) == 0x10 && HighIndex(0) == 0x11
    ensures LowIndex(23) == 0x3E && HighIndex(23) == 0x3F
  {
  }

  /** Different slots never share an index. */
  lemma SlotIndicesDisjoint(a: nat, b: nat)
    requires a != b
    ensures LowIndex(a) != LowIndex(b) && HighIndex(a) != HighIndex(b)
    ensures LowIndex(a) != HighIndex(b)
  {
  }
}
