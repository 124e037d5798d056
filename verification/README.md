# G233 SPI controller: register writes and reset state

This project models the register side of the G233 SPI controller, a QEMU
system-bus device. It covers two things:

- the MMIO write handler `g233_spi_write`;
- the reset state that `g233_spi_realize` installs.

The device holds five 32-bit registers, indexed 0 to 4, plus a receive FIFO
and a transmit FIFO of 8 bytes each:

- CR1 (control 1), at index 0;
- CR2 (control 2, interrupt enables), at index 1;
- SR (status), at index 2;
- DR (data), at index 3;
- CSCTRL (chip-select control), at index 4.

A write at byte offset `addr` selects register `addr >> 2`. Its effect depends on the register:

- CR1 stores `value & 0x44`.
- CR2 stores `value & 0x40`.
- CSCTRL stores `value & 0xFF`.
- SR clears bit 2 (overrun) if the value has bit 2 set, and clears bit 3
  (transmit overflow) if it has bit 3 set. This is write-1-to-clear.
- DR masks the value to a byte and then drops it.
- Any other index does nothing.

Reset sets CR1 = CR2 = CSCTRL = 0, SR = 0x2 (transmit-empty) and DR = 0x0C, and
creates both FIFOs empty.

Modules:

- `Fifo8` (`fifo8.dfy`): the bounded byte queue, as far as the device uses it,
  which is creation only.
- `G233SpiState` (`g233_spi_state.dfy`) models three things:
  - the register enumeration (`Reg`, `Index`, `Decode`, `RegNum`);
  - the register file, exactly five `bv32` words;
  - the device state, a record of the register file and two separate FIFO
    fields, with `Get`/`Set` on single registers.
- `G233SpiBits` (`g233_spi_bits.dfy`) holds the bit-level operations:
  - `MaskedStore`, a masked store;
  - `ClearErrors`, the SR update as the handler writes it, with two
    conditional clears;
  - `ClearOnOne`, an independent write-1-to-clear reference for SR, and the
    lemmas relating the two.
- `G233Spi` (`g233_spi.dfy`) holds address decoding (`RegIndex`, `Target`),
  the write handler (`RegWrite`, `Write`), the reset state (`Reset`), and
  the invariant every reachable state keeps.
- `G233SpiTraces` (`g233_spi_traces.dfy`) covers sequences of writes:
  - `Run` applies writes in order;
  - the other lemmas cover concatenation, framing and reachability from reset.

Three facts follow from the code and are proved about traces:

- Nothing in the write path ever sets SR's error bits, so after reset the SR
  slot holds 0x2 whatever is written. Write-1-to-clear only clears error bits that
  are already set, and none are.
- The DR slot keeps 0x0C, because a DR write drops its byte.
- CR1, CR2 and CSCTRL never hold a bit outside their masks.

Two points about the code, which the model follows as written:

- **CR2 mask.** CR2 is meant to hold three interrupt-enable bits, bits 5 to
  7, which a mask of 0xF0 would keep. The handler masks with 0x40, so only
  bit 6 survives a write. The model uses 0x40.
- **Reads.** `g233_spi_read` has an empty body, so it returns no defined
  value. The model has no read operation; the lemmas speak of the stored
  words.

## Model

| member | source | states |
|---|---|---|
| G233SpiState.Index | include/hw/ssi/g233_spi.h:10-17 | each register has an index below REG_NUM (5), and only CR1 has index 0 |
| G233SpiState.Decode | include/hw/ssi/g233_spi.h:10-17 | an index names a register exactly when it is below REG_NUM, and the register it names has that index |
| G233SpiState.DecodeIndex | include/hw/ssi/g233_spi.h:10-17 | decoding a register's index gives back that register |
| G233SpiState.IndexInjective | include/hw/ssi/g233_spi.h:10-17 | two registers share an index exactly when they are the same register |
| G233SpiState.IndicesConsecutive | include/hw/ssi/g233_spi.h:10-17 | the enumerators are consecutive from CR1 = 0 to CSCTRL, and REG_NUM comes right after CSCTRL, so it is 5 |
| Fifo8.Create | hw/ssi/g233_spi.c:69-70 | a created FIFO is valid and empty, has the requested capacity, and is not full when the capacity is positive |
| G233Spi.Reset | hw/ssi/g233_spi.c:69-76 | after realize, CR1, CR2 and CSCTRL are 0, SR is 0x2 with both error bits clear, DR is 0x0C, both FIFOs are empty with capacity 8, and the invariant holds |
| G233Spi.Mask | hw/ssi/g233_spi.c:16-37 | the write masks of the stored registers, as written: 0x44 for CR1, 0x40 for CR2, 0xFF for CSCTRL; no contract of its own, `StoreWrite` states what a store under it keeps |
| G233Spi.RegIndex | hw/ssi/g233_spi.c:13 | `addr >> 2` is the index of the 4-byte word that contains the address, and it is below 0x40 inside the 0x100-byte window |
| G233Spi.Target | hw/ssi/g233_spi.c:13-16 | an address selects a register exactly when it lies in the first 5 words, and it lies inside the selected register's word |
| G233Spi.RegWrite | hw/ssi/g233_spi.c:22-29 | the handler's SR update equals the write-1-to-clear reference ClearOnOne |
| G233Spi.Write | hw/ssi/g233_spi.c:11-41 | a write changes no register other than the one it selects and neither FIFO; a DR write or an index past CSCTRL leaves the whole state unchanged |
| G233Spi.StoreWriteSets | hw/ssi/g233_spi.c:16-37 | a CR1, CR2 or CSCTRL write replaces that register by the value's bits under its mask and leaves everything else unchanged |
| G233Spi.StoreWrite | hw/ssi/g233_spi.c:16-37 | after a CR1, CR2 or CSCTRL write, the register holds the value's bits under its mask (0x44, 0x40 or 0xFF) and no other bit |
| G233Spi.CsctrlWriteIsByte | hw/ssi/g233_spi.c:34-37 | after a CSCTRL write, the register is below 0x100 |
| G233Spi.SrWriteSets | hw/ssi/g233_spi.c:22-29 | an SR write replaces SR by the old SR with the value's error bits cleared, and touches nothing else |
| G233Spi.SrWrite | hw/ssi/g233_spi.c:22-29 | an SR write only clears bits of the old SR, and a value with neither bit 2 nor bit 3 set changes nothing |
| G233Spi.RegWriteIdempotent | hw/ssi/g233_spi.c:16-37 | updating a register twice with the same value gives the same result as updating it once |
| G233Spi.WriteIdempotent | hw/ssi/g233_spi.c:11-41 | writing the same value to the same address twice gives the same state as writing it once |
| G233Spi.StoreLastWins | hw/ssi/g233_spi.c:16-37 | for CR1, CR2 and CSCTRL the last write wins, so an earlier write to the same register leaves no trace |
| G233Spi.SrWritesCombine | hw/ssi/g233_spi.c:22-29 | two SR writes have the same effect as one SR write of the OR of their values |
| G233Spi.WritesCommute | hw/ssi/g233_spi.c:13-40 | writes that select different registers can be applied in either order |
| G233Spi.WriteKeepsInvariant | hw/ssi/g233_spi.c:11-41 | every write keeps the invariant: stored registers within their masks, SR at 0x2, DR at 0x0C, both FIFOs fresh |
| G233SpiBits.MaskedStoreStores | hw/ssi/g233_spi.c:17-20 | a masked store keeps exactly the value's bits under the mask and clears every other bit |
| G233SpiBits.ClearErrors | hw/ssi/g233_spi.c:22-29 | the SR update as the handler writes it, clearing bit 2 and then bit 3 under two separate tests; no contract of its own, `ClearErrorsIsClearOnOne` proves it equal to `ClearOnOne` |
| G233SpiBits.ClearErrorsIsClearOnOne | hw/ssi/g233_spi.c:22-29 | the handler's two conditional clears, of bit 2 and then bit 3, are the same as clearing `value & 0xC` from SR |
| G233SpiBits.ClearOnOneWithin | hw/ssi/g233_spi.c:22-29 | write-1-to-clear never sets a bit |
| G233SpiBits.ClearOnOneKeepsOthers | hw/ssi/g233_spi.c:22-29 | every SR bit other than bits 2 and 3 is unchanged |
| G233SpiBits.ClearOnOneOverrun | hw/ssi/g233_spi.c:23-25 | bit 2 is set afterwards if and only if it was set before and the value's bit 2 is clear |
| G233SpiBits.ClearOnOneTxOverflow | hw/ssi/g233_spi.c:26-28 | bit 3 is set afterwards if and only if it was set before and the value's bit 3 is clear |
| G233SpiBits.ClearOnOneNoop | hw/ssi/g233_spi.c:22-29 | a value with neither bit 2 nor bit 3 set leaves SR unchanged |
| G233SpiBits.ClearOnOneBoth | hw/ssi/g233_spi.c:22-29 | a value with both bits 2 and 3 set leaves both error bits clear |
| G233SpiBits.ClearOnOneIdempotent | hw/ssi/g233_spi.c:22-29 | clearing twice with the same value is the same as clearing once |
| G233SpiBits.ClearOnOneCombine | hw/ssi/g233_spi.c:22-29 | clearing with v1 and then v2 is the same as clearing once with v1 OR v2 |
| G233SpiBits.ClearOnOneClean | hw/ssi/g233_spi.c:22-29 | an SR with neither error bit set is unchanged by any SR write |
| G233SpiTraces.Run | hw/ssi/g233_spi.c:11-41 | a sequence of writes never changes either FIFO and keeps the invariant |
| G233SpiTraces.RunConcat | hw/ssi/g233_spi.c:11-41 | running two write sequences one after the other is the same as running their concatenation |
| G233SpiTraces.RunFrame | hw/ssi/g233_spi.c:13-40 | a register that no write in the sequence selects keeps its value |
| G233SpiTraces.RunKeepsDr | hw/ssi/g233_spi.c:30-33 | no sequence of writes changes the DR slot |
| G233SpiTraces.Reachable | hw/ssi/g233_spi.c:11-76 | after reset (c:69-76) and any writes through the handler (c:11-41), the SR slot holds 0x2 with both error bits clear, DR is 0x0C, and the invariant holds |

## Left out

- `g233_spi_read`: its body is empty, so it defines no return value to model.
- The transfer engine, interrupt-level computation and chip-select gating are
  not in this model: the handler implements none of them. The DR write drops
  its byte, and no FIFO is ever pushed or popped.
- QEMU plumbing is not in this model:
  - `MemoryRegionOps` and the 4-byte `min_access_size`/`max_access_size`;
  - bus and IRQ creation in realize;
  - `class_init`, `instance_init`, type registration;
  - the `parent_obj`, `mmio`, `irq`, `cs_lines` and `spi` fields.

  The 0x100 window is kept as the precondition `addr < Window`.
- The `size` parameter is not modelled: the handler never reads it.
- G233Spi.Write: `value` is a `bv32`, not the handler's `uint64_t`. This loses
  nothing, for two reasons:
  - accesses are exactly 4 bytes;
  - every stored result depends only on bits 0 to 7 of the value.
- G233Spi.Write: offsets need not be 4-byte aligned. An unaligned offset
  decodes to the word that contains it, as `addr >> 2` does. QEMU rejects such
  accesses before the handler runs.
- G233Spi.Write: the handler names a device state `s` that it never declares.
  The model takes the device state behind the `opaque` argument as an explicit
  parameter and returns the new state.
- Fifo8: only creation is modelled. Push, pop and reset of a FIFO are never
  called by the modelled code.
- G233SpiState.State: the two FIFOs are separate fields of the state record.
  Their separateness is structural and is not a stated lemma.
