# ioapic_proc: a verified model of the I/O APIC proc-file reader

`ioapic_proc.c` is a Linux kernel module that publishes the registers of
the first I/O APIC (the interrupt router at physical address 0xFEC00000)
as 27 read-only files under `/proc/ioapic/`: `id`, `version`,
`arbitration`, and `redirection_table_0` to `redirection_table_23`. A read
of a file selects a register through the index register (IOREGSEL),
reads it through the data window (IOWIN), renders it as text into a
zeroed 10240-byte kernel buffer, and copies the text to the caller. Each
file yields its text once: the read is refused when the file position is
positive or the caller offers fewer than 10240 bytes, and a successful read moves
the position to the length of the text.

The model has eight modules.

- `Words`: 32-bit register words, and the source's signed-`int` shift-and-mask
  extraction next to the unsigned one, proved equal.
- `Format`: the `%x`, `%08x`, `%02x`, `%d` and `%02d` renderings, with their
  read-back (`Value`) round trips.
- `Addressing`: register indices (0, 1, 2, and `2n + 0x10` / `2n + 0x11` for
  slot n).
- `Decode`: the nine fields of a redirection entry, the `delivery_mode`
  switch, and the encode/decode partner.
- `Render`: every line the two read handlers print, in order, and the
  layout, length and meaning of each.
- `Device` and `Proc`: the imperative read paths. The device is a class
  holding the register file, the selected index and a log of bus accesses.
  The file position is a class. The kernel and user buffers are arrays.
  `copy_to_user` succeeds or faults according to a parameter.
- `Catalog`: `ioapic_ops_list` and `ioapic_name_list` as constant
  sequences, one dispatching read method, and a two-read session.

## Behaviour as written

The model follows the code, including the places where it departs from
the Intel 82093AA datasheet or from what its output suggests:

- A simple-register read prints `"<LABEL> : %08x\n"`: eight hex digits,
  with no `0x` prefix, and a trailing newline (`Render.SimpleTextLayout`,
  `Render.IdTextExample`).
- Slot 23 uses indices 0x3E and 0x3F, the last pair of the 0x10..0x3F
  window (`Addressing.SlotIndicesEndpoints`).
- The delivery mode is masked with `0x3`, so only "Fixed", "Lowest
  Priority", "SMI" and "Reserved" can ever be printed. Bit 10 is ignored,
  so an NMI entry reads as Fixed (`Decode.DeliveryModeReachable`,
  `Decode.DeliveryModeIgnoresBit10`, `Decode.NmiReadsAsFixed`).
- The destination field is read from bit 22 of the high word, whereas the
  datasheet has it at bits 63:56 of the entry, which is bit 24 of the high
  word (`Decode.DecodeEntry`).
- The physical-mode destination line says "Logical Destination Address(APIC
  ID)", and the delivery-status label is spelled "Send Pendign". Both are
  kept verbatim.

## Model

| member | source | states |
|---|---|---|
| Words.ToCInt | ioapic_proc.c:61-67 | storing a 32-bit word into an `int` gives a value in the signed 32-bit range, congruent to the word modulo 2^32 |
| Words.SignedExtractionAgrees | ioapic_proc.c:70-84 | for every word and every field inside the 32 bits, the signed `(x >> k) & (2^m - 1)` equals the unsigned bit field (no sign-extension artefacts) |
| Words.CShiftMask | ioapic_proc.c:70-84 | `(x >> k) & (2^m - 1)` on the signed value: always in 0..2^m-1, even for a negative `int` (equal to `Words.Bits` by `Words.SignedExtractionAgrees`) |
| Words.Bits | ioapic_proc.c:70-84 | an m-bit field lies in 0..2^m-1 |
| Decode.Field | ioapic_proc.c:70-84 | the C shift-and-mask of a field is its unsigned bit field |
| Decode.DecodeEntry | ioapic_proc.c:70-86 | flags are bits 16..11 of the low word (each 0 or 1), the delivery mode is bits 9:8, the vector is the low byte (at most 255), and the destination is `(high >> 22) & 0xF` in physical mode or `& 0xFF` in logical mode |
| Decode.DecodeEncode | ioapic_proc.c:70-84 | decoding the words built from any well-formed entry gives back that entry |
| Decode.DecodeDependsOnlyOnFields | ioapic_proc.c:70-84 | two word pairs that agree on low bits 16..11, 9:8 and 7:0 and on high bits 29:22 decode to the same entry, whatever bit 10, low bits 31:17 and the other high bits hold |
| Decode.DeliveryModeLabel | ioapic_proc.c:95-123 | the `delivery_mode_explain` switch: the default "Not supported" is chosen exactly when the code is outside 0..7 (its reachable labels are stated by `Decode.DeliveryModeReachable`) |
| Decode.DeliveryModeReachable | ioapic_proc.c:76-123 | the printed label is always one of the four for codes 0..3; "NMI", "INIT", "ExtINT" and the "Not supported" default are unreachable |
| Decode.DeliveryModeIgnoresBit10 | ioapic_proc.c:76-77 | setting bit 10 of the low word changes neither the delivery mode nor the vector |
| Decode.NmiReadsAsFixed | ioapic_proc.c:76-123 | a low word with delivery-mode bits 0b100 (NMI) is labelled "Fixed" |
| Decode.PhysicalDestinationIsLogicalLowNibble | ioapic_proc.c:79-86 | for the same high word the physical destination is the logical one's low nibble; physical below 16, logical below 256 |
| Decode.MaskedSlotExample | ioapic_proc.c:70-84 | low 0x00010000, high 0 decodes as masked, edge-triggered, physical, Fixed, vector 0, destination 0 |
| Addressing.LowIndex | ioapic_proc.c:60-65 | the low-word index of a slot is even and at least 0x10 |
| Addressing.HighIndex | ioapic_proc.c:60-67 | the high-word index of a slot is odd and at least 0x11 |
| Addressing.SlotIndexRoundTrip | ioapic_proc.c:60-67 | both indices of a slot map back to the slot, and the high index follows the low one |
| Addressing.IndexBelongsToSlot | ioapic_proc.c:60-67 | every index in 0x10..0x3F is the low or the high index of the slot `SlotOf` gives it, and that slot is below 24 |
| Addressing.SlotIndicesInWindow | ioapic_proc.c:60-67 | for slots 0..23 both indices lie in 0x10..0x3F, above the arbitration register |
| Addressing.SlotIndicesEndpoints | ioapic_proc.c:60-67 | slot 0 uses 0x10/0x11 and slot 23 uses 0x3E/0x3F |
| Addressing.SlotIndicesDisjoint | ioapic_proc.c:60-67 | distinct slots never share an index |
| Format.Digits | ioapic_proc.c:82-126 | `%x` / `%d` without padding: at least one digit of the base, with a leading '0' exactly when the number is 0 (read-back in `Format.DigitsRoundTrip`) |
| Format.Padded | ioapic_proc.c:68 | `%0Nx` / `%0Nd`: exactly `max(N, digits)` digits of the base (read-back in `Format.PaddedRoundTrip`) |
| Format.Hex | ioapic_proc.c:82-125 | `%x`: `Format.Digits` in base 16 |
| Format.Dec | ioapic_proc.c:126 | `%d` of a non-negative value: `Format.Digits` in base 10 |
| Format.HexPadded | ioapic_proc.c:22-68 | `%02x` and `%08x`: `Format.Padded` in base 16 |
| Format.DecPadded | ioapic_proc.c:68 | `%02d`: `Format.Padded` in base 10 |
| Format.DigitsRoundTrip | ioapic_proc.c:82-126 | a number printed with `%x` or `%d` reads back as the same number |
| Format.PaddedRoundTrip | ioapic_proc.c:68 | a zero-padded `%02d` / `%02x` / `%08x` rendering reads back as the number |
| Format.HexWord | ioapic_proc.c:22 | `%08x` of a 32-bit word is exactly eight hex digits that read back as the word |
| Format.DigitsInjective | ioapic_proc.c:371-400 | distinct numbers print as distinct digit strings |
| Format.DecBelow100 | ioapic_proc.c:376-399 | a number below 100 prints in decimal as one or two digits, tens first |
| Render.SimpleText | ioapic_proc.c:22 | the output of a simple-register read is 12 characters longer than its label |
| Render.SimpleTextLayout | ioapic_proc.c:22-46 | the output is the label, " : ", eight hex digits that read back as the register word, and a newline |
| Render.IdTextExample | ioapic_proc.c:36 | ID register 0x0A000000 prints as "I/O APIC ID : 0a000000\n" |
| Render.RedirectionText | ioapic_proc.c:68-126 | the text of a slot read is non-empty and at most 810 characters |
| Render.RedirectionTextShape | ioapic_proc.c:18-126 | the text is below BUFSIZE, and cutting it at newlines gives back exactly the ten lines, in the source's order |
| Render.LinesAreShort | ioapic_proc.c:68-126 | none of the ten lines contains a newline, and each is at most 80 characters |
| Render.HeaderLine | ioapic_proc.c:68 | the header format with (slot, `i + 0x10`, upper, lower); its layout is stated by `Render.HeaderLayout` |
| Render.DestinationLine | ioapic_proc.c:79-86 | the destination line of either mode; stated by `Render.DestinationLineMeaning` |
| Render.FlagLine | ioapic_proc.c:88-93 | `"<title> : 0x%x(%s)"` with `value ? whenSet : whenClear`; stated by `Render.FlagLineOfBit` |
| Render.Labelled | ioapic_proc.c:88-125 | the `%x(%s)` tail shared by the flag and delivery-mode lines |
| Render.MaskLine | ioapic_proc.c:88 | the interrupt-mask line; stated by `Render.MaskLineMeaning` |
| Render.TriggerLine | ioapic_proc.c:89 | the trigger-mode line; stated by `Render.TriggerLineMeaning` |
| Render.RemoteIrrLine | ioapic_proc.c:90 | the remote IRR line; stated by `Render.RemoteIrrLineMeaning` |
| Render.PolarityLine | ioapic_proc.c:91 | the polarity line; stated by `Render.PolarityLineMeaning` |
| Render.DeliveryStatusLine | ioapic_proc.c:92 | the delivery-status line; stated by `Render.DeliveryStatusLineMeaning` |
| Render.DestinationModeLine | ioapic_proc.c:93 | the destination-mode line; stated by `Render.DestinationModeLineMeaning` |
| Render.DeliveryModeLine | ioapic_proc.c:125 | the delivery-mode line; stated by `Render.DeliveryModeLineMeaning` |
| Render.VectorLine | ioapic_proc.c:126 | the vector line in decimal; stated by `Render.VectorReadsBack` |
| Render.RedirectionLines | ioapic_proc.c:68-126 | the ten lines of a slot read, header first, vector last: always ten (their content in `Render.UpperFlagLinesMeaning`, `Render.LowerFieldLinesMeaning` and the line lemmas) |
| Render.Terminated | ioapic_proc.c:68-126 | the successive `len += sprintf(buf + len, "...\n")` appends as text; stated by `Render.TerminatedSnoc` and `Render.SplitTerminated` |
| Render.HeaderLineShort | ioapic_proc.c:68 | the header line is 62 characters with no newline |
| Render.HeaderLayout | ioapic_proc.c:68 | the header shows the slot as exactly two decimal digits (`%02d`) reading back as the slot, the low-word index as exactly two hex digits (`%02x`) reading back as the index, and sixteen hex digits that read back as `high * 2^32 + low` (high word first) |
| Render.DestinationLineMeaning | ioapic_proc.c:79-86 | line 2 uses the "APIC ID" title with bits 25:22 of the high word in physical mode, and the "Set of Processors" title with bits 29:22 in logical mode |
| Render.DestinationLineShort | ioapic_proc.c:82-85 | the destination line is at most 69 characters with no newline |
| Render.FlagLineOfBit | ioapic_proc.c:88-93 | a 0/1 flag prints as "title : 0x1(set label)" or "title : 0x0(clear label)" |
| Render.FlagLineShort | ioapic_proc.c:88-93 | a flag line with a one-digit value is its title plus 8 plus its label in length, with no newline |
| Render.MaskLineMeaning | ioapic_proc.c:88 | the mask line shows "0x1(Masked)" exactly when the mask bit is 1, otherwise "0x0(Not masked)" |
| Render.TriggerLineMeaning | ioapic_proc.c:89 | "0x1(Level)" exactly when the trigger bit is 1, otherwise "0x0(Edge)" |
| Render.RemoteIrrLineMeaning | ioapic_proc.c:90 | the remote IRR line shows "0x1" or "0x0" with no label |
| Render.PolarityLineMeaning | ioapic_proc.c:91 | "0x1(Low Active)" exactly when the polarity bit is 1, otherwise "0x0(High Active)" |
| Render.DeliveryStatusLineMeaning | ioapic_proc.c:92 | "0x1(Send Pendign)" exactly when the status bit is 1, otherwise "0x0(IDLE)" |
| Render.DestinationModeLineMeaning | ioapic_proc.c:93 | "0x1(Logical Mode)" exactly when the mode bit is 1, otherwise "0x0(Physical Mode)" |
| Render.DeliveryModeLineMeaning | ioapic_proc.c:95-125 | the delivery-mode line shows the code and its label, one of "0(Fixed)", "1(Lowest Priority)", "2(SMI)", "3(Reserved)" |
| Render.UpperFlagLinesMeaning | ioapic_proc.c:70-91 | lines 3 to 6 of a slot read show bits 16, 15, 14 and 13 of the low word, the mask, trigger and polarity flags with their labels |
| Render.LowerFieldLinesMeaning | ioapic_proc.c:74-125 | lines 7 to 9 show bits 12 and 11 of the low word with their labels, then bits 9:8 with their delivery-mode name |
| Render.VectorReadsBack | ioapic_proc.c:77-126 | the last line is " Interrupt Vector (INTVEC): " followed by decimal digits that read back as the low byte of the low word |
| Render.RemoteIrrLineShort | ioapic_proc.c:90 | the remote IRR line is 17 characters with no newline |
| Render.DeliveryModeLineShort | ioapic_proc.c:125 | the delivery-mode line is at most 47 characters with no newline |
| Render.VectorLineShort | ioapic_proc.c:126 | the vector line is at most 31 characters with no newline |
| Render.MaskLineShort | ioapic_proc.c:88 | the mask line is at most 80 characters with no newline |
| Render.TriggerLineShort | ioapic_proc.c:89 | the trigger line is at most 80 characters with no newline |
| Render.PolarityLineShort | ioapic_proc.c:91 | the polarity line is at most 80 characters with no newline |
| Render.DeliveryStatusLineShort | ioapic_proc.c:92 | the delivery-status line is at most 80 characters with no newline |
| Render.DestinationModeLineShort | ioapic_proc.c:93 | the destination-mode line is at most 80 characters with no newline |
| Render.TerminatedSnoc | ioapic_proc.c:68-126 | one more `len += sprintf(buf + len, "...\n")` appends that line and a newline to the text so far |
| Render.SplitTerminated | ioapic_proc.c:68-126 | newline-terminated lines without inner newlines split back into the same lines |
| Render.TerminatedLength | ioapic_proc.c:68-126 | n lines of at most m characters take at most n * (m + 1) characters, and more than zero when n > 0 |
| Device.IoApic.constructor | ioapic_proc.c:16 | a mapped device with the given register file, index 0 selected and no accesses yet |
| Device.IoApic.Select | ioapic_proc.c:21 | `writel(index, addr)` selects the index, logs an index write, and leaves the registers alone |
| Device.IoApic.ReadWindow | ioapic_proc.c:22 | `readl(addr + 0x10)` returns the selected register, logs the read with its value, and changes nothing else |
| Device.RegisterAccessesOrdered | ioapic_proc.c:21-22 | a simple-register read is one index write followed by the read of that register |
| Device.SlotAccessesOrdered | ioapic_proc.c:64-67 | a slot read is four accesses, each read right after its own index write, at two adjacent indices inside 0x10..0x3F, low first |
| Device.ReadsFollowSelectsAppend | ioapic_proc.c:21-67 | sessions of well-ordered accesses stay well ordered when they follow one another |
| Proc.Admits | ioapic_proc.c:12-14 | the gate of both handlers: a read proceeds only when `*ppos > 0` and `count < BUFSIZE` are both false (also lines 51-53) |
| Proc.OneShot | ioapic_proc.c:12-14 | once the position is a positive length, the gate refuses every later read, whatever its count |
| Proc.Sprintf | ioapic_proc.c:22 | `sprintf(buf + len, ...)` writes the text at `len` and a NUL after it, returns its length, and leaves the buffer before `len` and after the NUL unchanged |
| Proc.CopyToUser | ioapic_proc.c:25-28 | on success the caller's buffer starts with the text and is otherwise unchanged; on a fault nothing is copied and the whole length is reported as not copied |
| Proc.AppendLine | ioapic_proc.c:82-126 | one `len += sprintf(...)` of a line: the buffer's text grows by that line and a newline, a NUL follows at the new `len`, and the buffer after it is unchanged |
| Proc.ReadRegister | ioapic_proc.c:10-32 | a refused read returns 0 and changes nothing; otherwise it selects the register then reads it, and either delivers "<label> : %08x\n" and sets the position to its positive length, or returns -EFAULT (-14) with the position and buffer unchanged |
| Proc.WriteReport | ioapic_proc.c:56-126 | appending the ten lines into a fresh zeroed buffer leaves exactly the newline-terminated lines, in order, within BUFSIZE |
| Proc.ReadSlotWords | ioapic_proc.c:60-67 | selects `2n + 0x10` and reads the low word, then selects `2n + 0x11` and reads the high word, in that order |
| Proc.RenderSlot | ioapic_proc.c:55-126 | the kernel buffer holds exactly the slot's report text |
| Proc.ReadRedirectionTable | ioapic_proc.c:49-137 | a refused read returns 0 and changes nothing; otherwise it makes the four slot accesses, and either delivers the report and sets the position to its positive length, or returns -EFAULT (-14) with the position and buffer unchanged |
| Catalog.OpsList | ioapic_proc.c:259-369 | `ioapic_ops_list`: the ID, VERSION and ARBITRATION readers, then the readers of slots 0 to 23, in table order (its shape is stated by `Catalog.CatalogShape` and `Catalog.SlotEntry`) |
| Catalog.NameList | ioapic_proc.c:371-400 | `ioapic_name_list`: "id", "version", "arbitration", then "redirection_table_0" to "redirection_table_23" (stated by `Catalog.SlotNameEntry` and `Catalog.NamesUnique`) |
| Catalog.CatalogShape | ioapic_proc.c:259-400 | both tables have 27 entries, and every handler is runnable |
| Catalog.SimpleEntries | ioapic_proc.c:259-272 | entries 0..2 read registers 0, 1, 2 and are named "id", "version", "arbitration" |
| Catalog.SlotHandlerEntry | ioapic_proc.c:139-368 | entry 3 + n of the ops list reads slot n |
| Catalog.SlotNameEntry | ioapic_proc.c:376-399 | entry 3 + n of the name list is "redirection_table_" followed by n in decimal |
| Catalog.SlotNameOneDigit | ioapic_proc.c:376-385 | names of slots 0..9 end in the one digit of the slot |
| Catalog.SlotNameTens | ioapic_proc.c:386-399 | names of slots 10..23 end in the two digits of the slot |
| Catalog.SlotEntry | ioapic_proc.c:139-399 | entry 3 + n reads slot n and bears the name its handler should have |
| Catalog.NamesMatchHandlers | ioapic_proc.c:259-400 | at every position, the name is the one its handler should be published under |
| Catalog.SimpleNameInitial | ioapic_proc.c:373-375 | the three simple names start with 'i', 'v', 'a' |
| Catalog.NamesUnique | ioapic_proc.c:371-400 | no two entries of the name list are equal |
| Catalog.EntryOutputFits | ioapic_proc.c:10-137 | every entry's text is non-empty and below BUFSIZE, and its accesses read each register right after selecting it |
| Catalog.ReadEntry | ioapic_proc.c:34-257 | each `.read` wrapper has the gate, access, success and -EFAULT outcomes of the handler it calls, and an admitted read leaves selected the index it wrote last |
| Catalog.LastSelected | ioapic_proc.c:21-67 | the index a read leaves in IOREGSEL (the offset, or the slot's high-word index) is inside the register window |
| Catalog.ReadTwice | ioapic_proc.c:10-137 | from position 0 with a full buffer, the first read returns the whole text (length > 0), leaves the caller's buffer beyond it unchanged and sets the position to it; the second returns 0; the last-written index stays selected; the log grows by one read's accesses and stays well ordered |

## Left out

- Memory-mapped I/O (`ioremap`, `iounmap`, `writel`, `readl` at 0xFEC00000, lines 16, 21-24, 55, 64-67, 128) is modelled by the `Device.IoApic` object. A failing `ioremap` is not modelled.
- The register file is fixed for the whole read: another agent changing a register between two accesses is not modelled.
- Proc-fs registration and module lifecycle (`ioapic_proc_init`, `simple_cleanup`, `proc_mkdir`, `proc_create`, `remove_proc_entry`, lines 402-430) are not modelled. Neither are the `.owner` fields of the `file_operations` entries.
- `pr_info` on a copy fault (lines 26 and 131) is logging only and is not modelled.
- Concurrency between readers of the same file is not modelled.
- `sprintf` is not modelled as a general printf. Each fixed format string is rendered by its own function from the digit renderings in `Format`.
- `Proc.CopyToUser`: `copy_to_user` is a kernel call outside this model. Its outcome is the `fault` parameter, all or nothing: a partial copy is not modelled.
- `Proc.ReadRegister`: the `message` argument is modelled by its label (the text before " : %08x\n"). The rest of the format is fixed.
- `Proc.ReadRegister`, `Proc.ReadRedirectionTable`, `Catalog.ReadEntry`: `count <= ubuf.Length` is the read(2) rule that the caller's buffer holds `count` bytes. The source does not check it: `copy_to_user` writes only the `len` bytes of the text, so a caller whose buffer is shorter than `count` but still holds the text is served by the source, and that case is not modelled here. A copy that does fault is the `fault` parameter.
- `Proc.WriteReport`: the source writes out the ten `len += sprintf(...)` calls one after another. The model renders the ten lines first and appends them in one loop. The NUL terminator after each line is written but is not part of the delivered text.
- `Decode.DeliveryModeIgnoresBit10` states only that the delivery mode and the vector are unchanged, although no other field reads bit 10 either.
- The `ssize_t` and `loff_t` widths are not modelled: the text is at most 810 bytes, so no length or position overflows.
- The 10240-byte buffer on the kernel stack (`char buf[BUFSIZE]`) is modelled as a freshly allocated array. Stack exhaustion is not modelled.
