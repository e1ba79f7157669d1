/**
 * The fixed catalog of proc files (ioapic_proc.c:139-257 for the 27 read
 * wrappers, 259-369 for `ioapic_ops_list`, 371-400 for `ioapic_name_list`):
 * the same 27 positions in both tables, the three simple registers first,
 * then redirection-table slots 0 to 23.
 */
module Catalog {

  import opened Words
  import opened Format
  import opened Addressing
  import opened Render
  import opened Device
  import opened Proc

  /**
   * The `.read` handler of one `file_operations` entry: `ioapic_read` with
   * a register offset and the text of its message before " : %08x\n", or
   * `ioapic_read_redirection_table` with a slot number.
   */
  datatype Handler = RegisterRead(offset: nat, message: string) | SlotRead(slot: nat)

  /** Number of entries in each table. */
  const EntryCount: nat := 27

  /** `ioapic_ops_list`, by the handler each entry's `.read` wraps. */
  const OpsList: seq<Handler> := [
      RegisterRead(IdIndex, "I/O APIC ID"),
      RegisterRead(VersionIndex, "I/O APIC VERSION"),
      RegisterRead(ArbitrationIndex, "I/O APIC ARBITRATION"),
      SlotRead(0),
      SlotRead(1),
      SlotRead(2),
      SlotRead(3),
      SlotRead(4),
      SlotRead(5),
      SlotRead(6),
      SlotRead(7),
      SlotRead(8),
      SlotRead(9),
      SlotRead(10),
      SlotRead(11),
      SlotRead(12),
      SlotRead(13),
      SlotRead(14),
      SlotRead(15),
      SlotRead(16),
      SlotRead(17),
      SlotRead(18),
      SlotRead(19),
      SlotRead(20),
      SlotRead(21),
      SlotRead(22),
      SlotRead(23)
    ]

  /** `ioapic_name_list`: the file name each entry is created under. */
  const NameList: seq<string> := [
      "id",
      "version",
      "arbitration",
      "redirection_table_0",
      "redirection_table_1",
      "redirection_table_2",
      "redirection_table_3",
      "redirection_table_4",
      "redirection_table_5",
      "redirection_table_6",
      "redirection_table_7",
      "redirection_table_8",
      "redirection_table_9",
      "redirection_table_10",
      "redirection_table_11",
      "redirection_table_12",
      "redirection_table_13",
      "redirection_table_14",
      "redirection_table_15",
      "redirection_table_16",
      "redirection_table_17",
      "redirection_table_18",
      "redirection_table_19",
      "redirection_table_20",
      "redirection_table_21",
      "redirection_table_22",
      "redirection_table_23"
    ]

  /** The prefix of every redirection-table file name. */
  const SlotPrefix: string := "redirection_table_"

  /** A handler the read paths can run: a simple register, or one of the 24 slots. */
  predicate ValidHandler(h: Handler)
  {
    match h
    case RegisterRead(offset, message) => offset <= ArbitrationIndex && |message| + 12 < BufSize
    case SlotRead(slot) => slot < RedirectionSlots
  }

  /**
   * The name a handler should be published under, independently of the
   * table: the register's short name, or the slot number in decimal after
   * the prefix.
   */
  function HandlerName(h: Handler): string
    requires ValidHandler(h)
  {
    match h
    case RegisterRead(offset, _) => ["id", "version", "arbitration"][offset]
    case SlotRead(slot) => SlotPrefix + Dec(slot)
  }

  /** What a read through handler `h` returns on success, for the register file `regs`. */
  function EntryText(h: Handler, regs: seq<Word>): string
    requires ValidHandler(h) && |regs| == RegisterCount
  {
    match h
    case RegisterRead(offset, message) => SimpleText(message, regs[offset])
    case SlotRead(slot) =>
      SlotIndicesInWindow(slot);
      RedirectionText(slot, regs[LowIndex(slot)], regs[HighIndex(slot)])
  }

  /** The bus accesses a read through handler `h` makes. */
  function EntryAccesses(h: Handler, regs: seq<Word>): seq<Access>
    requires ValidHandler(h) && |regs| == RegisterCount
  {
    match h
    case RegisterRead(offset, _) => RegisterAccesses(offset, regs)
    case SlotRead(slot) => SlotAccesses(slot, regs)
  }

  /** The index a read through handler `h` leaves selected: the one it wrote last. */
  function LastSelected(h: Handler): (i: nat)
    requires ValidHandler(h)
    ensures i < RegisterCount
  {
    match h
    case RegisterRead(offset, _) => offset
    case SlotRead(slot) => SlotIndicesInWindow(slot); HighIndex(slot)
  }

  /** Both tables have 27 entries, and every handler can run. */
  lemma CatalogShape()
    ensures |OpsList| == |NameList| == EntryCount
    ensures forall k :: 0 <= k < EntryCount ==> ValidHandler(OpsList[k])
  {
  }

  /** Entries 0, 1 and 2 read registers 0, 1 and 2 and are named after them. */
  lemma SimpleEntries(k: nat)
    requires k < 3
    ensures OpsList[k].RegisterRead? && OpsList[k].offset == k
    ensures NameList[k] == HandlerName(OpsList[k])
  {
  }

  /** Entry 3 + n reads slot n. */
  lemma SlotHandlerEntry(n: nat)
    requires n < RedirectionSlots
    ensures OpsList[3 + n] == SlotRead(n)
  {
  }

  /** Entry 3 + n is named "redirection_table_<n>", n in decimal. */
  lemma SlotNameEntry(n: nat)
    requires n < RedirectionSlots
    ensures NameList[3 + n] == SlotPrefix + Dec(n)
  {
    DecBelow100(n);
    if n < 10 {
      SlotNameOneDigit(n);
    } else if n < 20 {
      DivUnique(n, 10, 1, n - 10);
      SlotNameTens(n, 1);
    } else {
      DivUnique(n, 10, 2, n - 20);
      SlotNameTens(n, 2);
    }
  }

  lemma SlotNameOneDigit(n: nat)
    requires n < 10
    ensures NameList[3 + n] == SlotPrefix + [DigitChar(n)]
  {
  }

  lemma SlotNameTens(n: nat, tens: nat)
    requires 1 <= tens <= 2 && tens * 10 <= n < RedirectionSlots && n < tens * 10 + 10
    ensures NameList[3 + n] == SlotPrefix + [DigitChar(tens), DigitChar(n - tens * 10)]
  {
  }

  lemma SlotEntry(n: nat)
    requires n < RedirectionSlots
    ensures OpsList[3 + n] == SlotRead(n)
    ensures NameList[3 + n] == SlotPrefix + Dec(n) == HandlerName(OpsList[3 + n])
  {
    SlotHandlerEntry(n);
    SlotNameEntry(n);
  }

  /** Every position pairs a name with the handler that name describes. */
  lemma NamesMatchHandlers(k: nat)
    requires k < EntryCount
    ensures ValidHandler(OpsList[k]) && NameList[k] == HandlerName(OpsList[k])
  {
    if k < 3 {
      SimpleEntries(k);
    } else {
      SlotEntry(k - 3);
    }
  }

  /** The three simple names start with 'i', 'v' and 'a'; no slot name does. */
  lemma SimpleNameInitial(k: nat)
    requires k < 3
    ensures |NameList[k]| > 0 && NameList[k][0] == "iva"[k]
  {
  }

  /** Two different slots are published under different names. */
  lemma SlotNamesDiffer(a: nat, b: nat)
    requires a < b < RedirectionSlots
    ensures NameList[3 + a] != NameList[3 + b]
  {
    SlotNameEntry(a);
    SlotNameEntry(b);
    if NameList[3 + a] == NameList[3 + b] {
      assert (SlotPrefix + Dec(a))[|SlotPrefix|..] == Dec(a);
      assert (SlotPrefix + Dec(b))[|SlotPrefix|..] == Dec(b);
      DigitsInjective(a, b, 10);
    }
  }

  /** A slot name starts with 'r', which no simple register name does. */
  lemma SimpleAndSlotNamesDiffer(k: nat, n: nat)
    requires k < 3 && n < RedirectionSlots
    ensures NameList[k] != NameList[3 + n]
  {
    SlotNameEntry(n);
    SimpleNameInitial(k);
    assert NameList[3 + n][0] == 'r';
  }

  /** No two entries share a file name. */
  lemma NamesUnique(i: nat, j: nat)
    requires i < j < EntryCount
    ensures NameList[i] != NameList[j]
  {
    if i >= 3 {
      SlotNamesDiffer(i - 3, j - 3);
    } else if j >= 3 {
      SimpleAndSlotNamesDiffer(i, j - 3);
    } else {
      SimpleNameInitial(i);
      SimpleNameInitial(j);
    }
  }

  /**
   * Whatever the handler, a successful read returns a non-empty text that
   * fits the buffer many times over, and its accesses read each register
   * right after selecting it.
   */
  lemma EntryOutputFits(h: Handler, regs: seq<Word>)
    requires ValidHandler(h) && |regs| == RegisterCount
    ensures 0 < |EntryText(h, regs)| < BufSize
    ensures ReadsFollowSelects(EntryAccesses(h, regs), regs)
  {
    match h
    case RegisterRead(offset, _) =>
      RegisterAccessesOrdered(offset, regs);
    case SlotRead(slot) =>
      SlotAccessesOrdered(slot, regs);
  }

  /**
   * The `.read` of a catalog entry: the wrapper calls `ioapic_read` with its
   * offset and message, or `ioapic_read_redirection_table` with its slot.
   */
  method ReadEntry(h: Handler, dev: IoApic, ubuf: array<char>, count: nat, ppos: FilePosition,
                   fault: bool) returns (ret: int)
    requires ValidHandler(h) && dev.Valid() && count <= ubuf.Length
    modifies dev, ubuf, ppos
    ensures !Admits(old(ppos.pos), count) ==>
      ret == 0 && unchanged(dev) && unchanged(ppos) && ubuf[..] == old(ubuf[..])
    ensures Admits(old(ppos.pos), count) ==>
      && dev.Valid() && dev.regs == old(dev.regs) && dev.selected == LastSelected(h)
      && dev.trace == old(dev.trace) + EntryAccesses(h, dev.regs)
    ensures Admits(old(ppos.pos), count) && !fault ==>
      var text := EntryText(h, dev.regs);
      ret == |text| > 0 && ppos.pos == ret && ubuf[..ret] == text && ubuf[ret..] == old(ubuf[ret..])
    ensures Admits(old(ppos.pos), count) && fault ==>
      ret == -EFAULT && ppos.pos == old(ppos.pos) && ubuf[..] == old(ubuf[..])
  {
    match h
    case RegisterRead(offset, message) =>
      ret := ReadRegister(dev, ubuf, count, ppos, offset, message, fault);
    case SlotRead(slot) =>
      ret := ReadRedirectionTable(dev, ubuf, count, ppos, slot, fault);
  }

  /**
   * Two reads of the same open file: the first delivers the whole text and
   * moves the position to its length, the second returns 0 and touches
   * neither the device nor the caller's buffer. Over the whole session every
   * data read still follows the index write that selected it.
   */
  method ReadTwice(h: Handler, dev: IoApic, ubuf: array<char>, ppos: FilePosition)
    returns (first: int, second: int)
    requires ValidHandler(h) && dev.Valid() && BufSize <= ubuf.Length && ppos.pos == 0
    requires ReadsFollowSelects(dev.trace, dev.regs)
    modifies dev, ubuf, ppos
    ensures dev.Valid()
    ensures first == |EntryText(h, dev.regs)| > 0 && ubuf[..first] == EntryText(h, dev.regs)
    ensures ubuf[first..] == old(ubuf[first..]) && dev.selected == LastSelected(h)
    ensures second == 0 && ppos.pos == first
    ensures dev.regs == old(dev.regs) && dev.trace == old(dev.trace) + EntryAccesses(h, dev.regs)
    ensures ReadsFollowSelects(dev.trace, dev.regs)
  {
    first := ReadEntry(h, dev, ubuf, BufSize, ppos, false);
    EntryOutputFits(h, dev.regs);
    ReadsFollowSelectsAppend(old(dev.trace), EntryAccesses(h, dev.regs), dev.regs);
    OneShot(first, BufSize);
    second := ReadEntry(h, dev, ubuf, BufSize, ppos, false);
  }
}
