/**
 * The memory-mapped I/O APIC as the driver sees it: an index register
 * (IOREGSEL, written by `writel(index, addr)`) and a data window (IOWIN,
 * read by `readl(addr + 0x10)`) onto a file of 32-bit registers, as in
 * section 3.1 of the Intel 82093AA I/O APIC datasheet.
 *
 * The device keeps a log of the bus accesses made to it, so that the order
 * "write the index, then read the data" can be stated and proved. The
 * register contents are fixed for the duration of a read (no other agent
 * changes them between two accesses).
 */
module Device {

  import opened Words
  import opened Addressing

  /** One access on the bus: an index write or a data-window read with the value it returned. */
  datatype Access = SelectIndex(index: nat) | DataRead(value: Word)

  class IoApic {
    /** The register file, indexed 0x00..0x3F (IOAPICID, IOAPICVER, IOAPICARB, IOREDTBL). */
    var regs: seq<Word>
    /** The index last written to IOREGSEL. */
    var selected: nat
    /** Every access made so far, oldest first. */
    var trace: seq<Access>

    predicate Valid()
      reads this
    {
      |regs| == RegisterCount && selected < RegisterCount
    }

    constructor (contents: seq<Word>)
      requires |contents| == RegisterCount
      ensures Valid() && regs == contents && selected == 0 && trace == []
    {
      regs := contents;
      selected := 0;
      trace := [];
    }

    /** `writel(index, addr)`: select a register; nothing is read. */
    method Select(index: nat)
      requires Valid() && index < RegisterCount
      modifies this
      ensures Valid() && regs == old(regs)
      ensures selected == index && trace == old(trace) + [SelectIndex(index)]
    {
      selected := index;
      trace := trace + [SelectIndex(index)];
    }

    /** `readl(addr + 0x10)`: the selected register's value. */
    method ReadWindow() returns (v: Word)
      requires Valid()
      modifies this
      ensures Valid() && regs == old(regs) && selected == old(selected)
      ensures v == regs[selected] && trace == old(trace) + [DataRead(v)]
    {
      v := regs[selected];
      trace := trace + [DataRead(v)];
    }
  }

  /**
   * Every data read in `t` comes directly after the index write that
   * selected it, and returned that register's value.
   */
  predicate ReadsFollowSelects(t: seq<Access>, regs: seq<Word>)
  {
    forall k :: 0 <= k < |t| && t[k].DataRead? ==>
      0 < k && t[k - 1].SelectIndex? && t[k - 1].index < |regs| && t[k].value == regs[t[k - 1].index]
  }

  /** The accesses of a simple-register read: select `index`, read it. */
  function RegisterAccesses(index: nat, regs: seq<Word>): seq<Access>
    requires index < |regs|
  {
    [SelectIndex(index), DataRead(regs[index])]
  }

  /** The accesses of a redirection-table read: the low word of the slot, then its high word. */
  function SlotAccesses(slot: nat, regs: seq<Word>): seq<Access>
    requires slot < RedirectionSlots && |regs| == RegisterCount
  {
    SlotIndicesInWindow(slot);
    [ SelectIndex(LowIndex(slot)), DataRead(regs[LowIndex(slot)]),
      SelectIndex(HighIndex(slot)), DataRead(regs[HighIndex(slot)]) ]
  }

  lemma RegisterAccessesOrdered(index: nat, regs: seq<Word>)
    requires index < |regs|
    ensures ReadsFollowSelects(RegisterAccesses(index, regs), regs)
    ensures |RegisterAccesses(index, regs)| == 2
  {
  }

  /**
   * A slot read makes four accesses, each read directly after its own index
   * write, at the two adjacent indices of the slot, inside 0x10..0x3F.
   */
  lemma SlotAccessesOrdered(slot: nat, regs: seq<Word>)
    requires slot < RedirectionSlots && |regs| == RegisterCount
    ensures var t := SlotAccesses(slot, regs);
      && ReadsFollowSelects(t, regs) && |t| == 4
      && t[0].SelectIndex? && t[2].SelectIndex?
      && 0x10 <= t[0].index && t[2].index == t[0].index + 1 <= 0x3F
      && t[1].DataRead? && t[3].DataRead?
  {
    SlotIndicesInWindow(slot);
  }

  /** Sessions of well-ordered accesses compose: a read never follows another session's last write. */
  lemma ReadsFollowSelectsAppend(t: seq<Access>, u: seq<Access>, regs: seq<Word>)
    requires ReadsFollowSelects(t, regs) && ReadsFollowSelects(u, regs)
    ensures ReadsFollowSelects(t + u, regs)
  {
    var tu := t + u;
    forall k | 0 <= k < |tu| && tu[k].DataRead?
      ensures 0 < k && tu[k - 1].SelectIndex? && tu[k - 1].index < |regs| && tu[k].value == regs[tu[k - 1].index]
    {
      if k < |t| {
        assert tu[k] == t[k] && tu[k - 1] == t[k - 1];
      } else {
        var j := k - |t|;
        assert tu[k] == u[j];
        assert u[j].DataRead?;
        assert tu[k - 1] == u[j - 1];
      }
    }
  }
}
