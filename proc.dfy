/**
 * The two read handlers of the proc files (ioapic_proc.c:10-32 and 49-137):
 * the one-shot gate on the file position and the requested count, the
 * register accesses, the successive `sprintf` appends into a zeroed
 * 10240-character kernel buffer, the copy to the caller's buffer, and the
 * update of the file position.
 *
 * `copy_to_user` is a call into the kernel that this model cannot see: its
 * outcome is the parameter `fault`.
 */
module Proc {

  import opened Words
  import opened Addressing
  import opened Decode
  import opened Render
  import opened Device

  /** `EFAULT`, returned negated when the copy to the caller faults. */
  const EFAULT: int := 14

  /** `loff_t *ppos`: the position of an open proc file. */
  class FilePosition {
    var pos: int

    constructor (start: int)
      ensures pos == start
    {
      pos := start;
    }
  }

  /**
   * The one-shot gate: a read proceeds only from position 0 or below and only
   * when the caller offers at least a whole buffer.
   */
  predicate Admits(pos: int, count: nat)
  {
    pos <= 0 && count >= BufSize
  }

  /**
   * After a successful read the position is the (positive) length returned,
   * so every later read on the same file is refused, whatever its count.
   */
  lemma OneShot(len: int, count: nat)
    requires len > 0
    ensures !Admits(len, count)
  {
  }

  /**
   * `sprintf(buf + len, ...)` with the already rendered text `s`: writes `s`
   * and a terminating NUL at `len`, returns `|s|`, and leaves the text before
   * `len` alone.
   */
  method Sprintf(buf: array<char>, len: nat, s: string) returns (n: nat)
    requires len + |s| < buf.Length
    modifies buf
    ensures n == |s| && buf[..len] == old(buf[..len]) && buf[len..len + n] == s
    ensures buf[len + n] == '\0' && buf[len + n + 1..] == old(buf[len + n + 1..])
  {
    forall k | 0 <= k < |s| {
      buf[len + k] := s[k];
    }
    buf[len + |s|] := '\0';
    n := |s|;
  }

  /**
   * `copy_to_user(ubuf, buf, len)`: returns the number of characters left
   * uncopied, 0 when the copy succeeds. A fault copies nothing.
   */
  method CopyToUser(dst: array<char>, src: seq<char>, fault: bool) returns (notCopied: nat)
    requires |src| <= dst.Length
    modifies dst
    ensures notCopied == if fault then |src| else 0
    ensures !fault ==> dst[..|src|] == src && dst[|src|..] == old(dst[|src|..])
    ensures fault ==> dst[..] == old(dst[..])
  {
    if fault {
      notCopied := |src|;
    } else {
      forall k | 0 <= k < |src| {
        dst[k] := src[k];
      }
      notCopied := 0;
    }
  }

  /** `len += sprintf(buf + len, "<line>\n", ...)`: one more line after the text so far. */
  method AppendLine(buf: array<char>, len: nat, line: string) returns (len': nat)
    requires len + |line| + 1 < buf.Length
    modifies buf
    ensures len' == len + |line| + 1
    ensures buf[..len'] == old(buf[..len]) + line + "\n"
    ensures buf[len'] == '\0' && buf[len' + 1..] == old(buf[len' + 1..])
  {
    var n := Sprintf(buf, len, line + "\n");
    len' := len + n;
    assert buf[..len'] == buf[..len] + buf[len..len'];
  }

  /**
   * `ioapic_read`: one simple register. `name` is the text of the format
   * before " : %08x\n". A refused read touches nothing and returns 0; an
   * admitted one selects `offset`, reads it, renders `SimpleText`, and then
   * either delivers the text and moves the position to its length, or
   * returns -EFAULT with the position unchanged.
   */
  method ReadRegister(dev: IoApic, ubuf: array<char>, count: nat, ppos: FilePosition,
                      offset: nat, name: string, fault: bool) returns (ret: int)
    requires dev.Valid() && offset < RegisterCount && count <= ubuf.Length
    requires |name| + 12 < BufSize
    modifies dev, ubuf, ppos
    ensures !Admits(old(ppos.pos), count) ==>
      ret == 0 && unchanged(dev) && unchanged(ppos) && ubuf[..] == old(ubuf[..])
    ensures Admits(old(ppos.pos), count) ==>
      && dev.Valid() && dev.regs == old(dev.regs) && dev.selected == offset
      && dev.trace == old(dev.trace) + RegisterAccesses(offset, dev.regs)
    ensures Admits(old(ppos.pos), count) && !fault ==>
      var text := SimpleText(name, dev.regs[offset]);
      ret == |text| > 0 && ppos.pos == ret && ubuf[..ret] == text && ubuf[ret..] == old(ubuf[ret..])
    ensures Admits(old(ppos.pos), count) && fault ==>
      ret == -EFAULT && ppos.pos == old(ppos.pos) && ubuf[..] == old(ubuf[..])
  {
    if ppos.pos > 0 || count < BufSize {
      return 0;
    }
    var buf := new char[BufSize](_ => '\0');
    var len := 0;
    dev.Select(offset);
    var value := dev.ReadWindow();
    var n := Sprintf(buf, len, SimpleText(name, value));
    len := len + n;
    var notCopied := CopyToUser(ubuf, buf[..len], fault);
    if notCopied != 0 {
      return -EFAULT;
    }
    ppos.pos := len;
    return len;
  }

  /**
   * The ten `len += sprintf(buf + len, ...)` appends of a slot's report into
   * a fresh zeroed buffer, one line each, in order. The source writes the
   * ten calls out one after another; here they are one loop over the
   * rendered lines.
   */
  method WriteReport(lines: seq<string>) returns (buf: array<char>, len: nat)
    requires |lines| == 10 && forall i :: 0 <= i < |lines| ==> |lines[i]| <= 80
    ensures fresh(buf) && buf.Length == BufSize && len < BufSize
    ensures buf[..len] == Terminated(lines)
  {
    buf := new char[BufSize](_ => '\0');
    len := 0;
    for k := 0 to 10
      invariant len <= 81 * k && buf[..len] == Terminated(lines[..k])
    {
      len := AppendLine(buf, len, lines[k]);
      TerminatedSnoc(lines, k);
    }
    assert lines[..10] == lines;
  }

  /**
   * `writel(i + 0x10); lower = readl(...); writel(i + 0x11); upper = readl(...)`
   * with `i = slot * 2`: the slot's low word, then its high word.
   */
  method ReadSlotWords(dev: IoApic, slot: nat) returns (lower: Word, upper: Word)
    requires dev.Valid() && slot < RedirectionSlots
    modifies dev
    ensures dev.Valid() && dev.regs == old(dev.regs) && dev.selected == HighIndex(slot)
    ensures lower == dev.regs[LowIndex(slot)] && upper == dev.regs[HighIndex(slot)]
    ensures dev.trace == old(dev.trace) + SlotAccesses(slot, dev.regs)
  {
    var i := slot * 2;
    SlotIndicesInWindow(slot);
    dev.Select(i + 0x10);
    lower := dev.ReadWindow();
    dev.Select(i + 0x11);
    upper := dev.ReadWindow();
  }

  /** The report of one slot, rendered into a fresh buffer. */
  method RenderSlot(slot: nat, lower: Word, upper: Word) returns (buf: array<char>, len: nat)
    requires slot < RedirectionSlots
    ensures fresh(buf) && buf.Length == BufSize && len < BufSize
    ensures buf[..len] == RedirectionText(slot, lower, upper)
  {
    LinesAreShort(slot, lower, upper);
    buf, len := WriteReport(RedirectionLines(slot, lower, upper));
  }

  /**
   * `ioapic_read_redirection_table`: one slot. An admitted read selects and
   * reads the slot's low word, then its high word, and renders the ten lines
   * of `RedirectionLines` into the buffer one after another; the success and
   * failure outcomes are those of `ReadRegister`.
   */
  method ReadRedirectionTable(dev: IoApic, ubuf: array<char>, count: nat, ppos: FilePosition,
                              slot: nat, fault: bool) returns (ret: int)
    requires dev.Valid() && slot < RedirectionSlots && count <= ubuf.Length
    modifies dev, ubuf, ppos
    ensures !Admits(old(ppos.pos), count) ==>
      ret == 0 && unchanged(dev) && unchanged(ppos) && ubuf[..] == old(ubuf[..])
    ensures Admits(old(ppos.pos), count) ==>
      && dev.Valid() && dev.regs == old(dev.regs) && dev.selected == HighIndex(slot)
      && dev.trace == old(dev.trace) + SlotAccesses(slot, dev.regs)
    ensures Admits(old(ppos.pos), count) && !fault ==>
      var text := RedirectionText(slot, dev.regs[LowIndex(slot)], dev.regs[HighIndex(slot)]);
      ret == |text| > 0 && ppos.pos == ret && ubuf[..ret] == text && ubuf[ret..] == old(ubuf[ret..])
    ensures Admits(old(ppos.pos), count) && fault ==>
      ret == -EFAULT && ppos.pos == old(ppos.pos) && ubuf[..] == old(ubuf[..])
  {
    if ppos.pos > 0 || count < BufSize {
      return 0;
    }
    var lower, upper := ReadSlotWords(dev, slot);
    var buf, len := RenderSlot(slot, lower, upper);
    var notCopied := CopyToUser(ubuf, buf[..len], fault);
    if notCopied != 0 {
      return -EFAULT;
    }
    ppos.pos := len;
    return len;
  }
}
