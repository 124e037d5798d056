/**
 The G233 SPI controller's register-write handler and the reset state it
 starts from. A write decodes `addr >> 2` to a register index; CR1, CR2 and
 CSCTRL store the written value under a fixed mask, SR applies
 write-1-to-clear to its two latched error bits, and a write to DR or to any
 index past the register file changes nothing.
 */
module G233Spi {
  import Fifo8
  import opened G233SpiState
  import opened G233SpiBits

  /** Size in bytes of the decoded MMIO window. */
  const Window: nat := 0x100

  /** Reset values of SR (bit 1, transmit-empty, set) and of the DR slot. */
  const ResetSr: bv32 := 0x2
  const ResetDr: bv32 := 0x0C

  /** Registers a write stores under a mask. */
  predicate IsStored(r: Reg) {
    r == Cr1 || r == Cr2 || r == Csctrl
  }

  /** The write mask of a stored register. */
  function Mask(r: Reg): bv32
    requires IsStored(r)
  {
    match r
    case Cr1 => 0x44
    case Cr2 => 0x40
    case Csctrl => 0xFF
  }

  /** The register index an address decodes to (`addr >> 2`): the 4-byte word the address falls in. */
  function RegIndex(addr: nat): (i: nat)
    requires addr < Window
    ensures 4 * i <= addr < 4 * i + 4
    ensures i < Window / 4
  {
    addr / 4
  }

  /** The register an address selects, or None for the indices past the register file. */
  function Target(addr: nat): (r: Option<Reg>)
    requires addr < Window
    ensures r.Some? <==> addr < 4 * RegNum
    ensures r.Some? ==> 4 * Index(r.value) <= addr < 4 * Index(r.value) + 4
  {
    Decode(RegIndex(addr))
  }

  /** The FIFO state the device creates: valid, empty, with capacity FifoCapacity. */
  predicate FreshFifo(f: Fifo8.Fifo) {
    f.Valid() && f.IsEmpty() && f.capacity == FifoCapacity
  }

  /**
   What holds of every state a reset device can reach by writes: the stored
   registers have no bit outside their mask, SR and the DR slot keep their
   reset values (nothing sets an error bit, so write-1-to-clear finds none to
   clear) and both FIFOs are as created.
   */
  predicate Invariant(st: State) {
    && Within(st.Get(Cr1), Mask(Cr1))
    && Within(st.Get(Cr2), Mask(Cr2))
    && Within(st.Get(Csctrl), Mask(Csctrl))
    && st.Get(Sr) == ResetSr
    && st.Get(Dr) == ResetDr
    && FreshFifo(st.rxFifo)
    && FreshFifo(st.txFifo)
  }

  /** The state after realize: the reset register values and two fresh FIFOs of capacity 8. */
  function Reset(): (st: State)
    ensures st.Get(Cr1) == 0 && st.Get(Cr2) == 0 && st.Get(Csctrl) == 0
    ensures st.Get(Sr) == ResetSr && st.Get(Sr) & 0xC == 0
    ensures st.Get(Dr) == ResetDr
    ensures FreshFifo(st.rxFifo) && FreshFifo(st.txFifo)
    ensures Invariant(st)
  {
    State([0x0000_0000, 0x0000_0000, 0x0000_0002, 0x0000_000C, 0x0000_0000],
          Fifo8.Create(FifoCapacity), Fifo8.Create(FifoCapacity))
  }

  /**
   The effect of a write on one register other than DR, given the register's
   current value: CR1, CR2 and CSCTRL store the value under their mask, SR clears
   the error bits the value has set.
   */
  function RegWrite(r: Reg, cur: bv32, value: bv32): (x: bv32)
    requires r != Dr
    ensures r == Sr ==> x == ClearOnOne(cur, value)
  {
    match r
    case Cr1 => MaskedStore(value, Mask(Cr1))
    case Cr2 => MaskedStore(value, Mask(Cr2))
    case Sr => ClearErrorsIsClearOnOne(cur, value); ClearErrors(cur, value)
    case Csctrl => MaskedStore(value, Mask(Csctrl))
  }

  /** A register write does the same again when repeated with the same value. */
  lemma RegWriteIdempotent(r: Reg, cur: bv32, value: bv32)
    requires r != Dr
    ensures RegWrite(r, RegWrite(r, cur, value), value) == RegWrite(r, cur, value)
  {
    if r == Sr {
      ClearOnOneIdempotent(cur, value);
    }
  }

  /** The register-write handler: the state after writing `value` at byte offset `addr`. */
  function Write(st: State, addr: nat, value: bv32): (r: State)
    requires addr < Window
    // only the selected register can change, and neither FIFO does
    ensures r.rxFifo == st.rxFifo && r.txFifo == st.txFifo
    ensures forall q :: Target(addr) != Some(q) ==> r.Get(q) == st.Get(q)
    // a DR write drops its byte; an index past the register file is ignored
    ensures Target(addr).None? || Target(addr) == Some(Dr) ==> r == st
  {
    match Target(addr)
    case None => st
    case Some(Dr) =>
      // the value is masked to a byte, and the byte is then dropped
      st
    case Some(q) => st.Set(q, RegWrite(q, st.Get(q), value))
  }

  /** A write to a stored register replaces it by the masked value and touches nothing else. */
  lemma StoreWriteSets(st: State, addr: nat, value: bv32)
    requires addr < Window && Target(addr).Some? && IsStored(Target(addr).value)
    ensures Write(st, addr, value) == st.Set(Target(addr).value, MaskedStore(value, Mask(Target(addr).value)))
  {
  }

  /** A write to CR1, CR2 or CSCTRL keeps exactly the bits of the value under that register's mask. */
  lemma StoreWrite(st: State, addr: nat, value: bv32)
    requires addr < Window && Target(addr).Some? && IsStored(Target(addr).value)
    ensures Stores(Write(st, addr, value).Get(Target(addr).value), value, Mask(Target(addr).value))
  {
    var q := Target(addr).value;
    StoreWriteSets(st, addr, value);
    MaskedStoreStores(value, Mask(q));
  }

  /** After a CSCTRL write the register holds a single byte. */
  lemma CsctrlWriteIsByte(st: State, addr: nat, value: bv32)
    requires addr < Window && Target(addr) == Some(Csctrl)
    ensures Write(st, addr, value).Get(Csctrl) < 0x100
  {
  }

  /**
   An SR write is write-1-to-clear on bits 2 and 3: the new SR is the old one
   with the value's error bits cleared, so it only ever clears bits, and a value
   with neither error bit set changes nothing.
   */
  lemma SrWrite(st: State, addr: nat, value: bv32)
    requires addr < Window && Target(addr) == Some(Sr)
    ensures Write(st, addr, value).Get(Sr) == ClearOnOne(st.Get(Sr), value)
    ensures Within(Write(st, addr, value).Get(Sr), st.Get(Sr))
    ensures value & 0xC == 0 ==> Write(st, addr, value) == st
  {
    ClearOnOneWithin(st.Get(Sr), value);
    if value & 0xC == 0 {
      ClearOnOneNoop(st.Get(Sr), value);
      st.SetGet(Sr);
    }
  }

  /** An SR write replaces SR by its write-1-to-clear result and touches nothing else. */
  lemma SrWriteSets(st: State, addr: nat, value: bv32)
    requires addr < Window && Target(addr) == Some(Sr)
    ensures Write(st, addr, value) == st.Set(Sr, ClearOnOne(st.Get(Sr), value))
  {
  }

  /** Writing the same value to the same address twice is the same as writing it once. */
  lemma WriteIdempotent(st: State, addr: nat, value: bv32)
    requires addr < Window
    ensures Write(Write(st, addr, value), addr, value) == Write(st, addr, value)
  {
    if Target(addr).Some? && Target(addr) != Some(Dr) {
      var q := Target(addr).value;
      var w := RegWrite(q, st.Get(q), value);
      RegWriteIdempotent(q, st.Get(q), value);
      st.SetSet(q, w, w);
    }
  }

  /** For a stored register the last write wins: an earlier write to it is forgotten. */
  lemma StoreLastWins(st: State, a1: nat, v1: bv32, a2: nat, v2: bv32)
    requires a1 < Window && a2 < Window
    requires Target(a1) == Target(a2) && Target(a1).Some? && IsStored(Target(a1).value)
    ensures Write(Write(st, a1, v1), a2, v2) == Write(st, a2, v2)
  {
    var q := Target(a1).value;
    st.SetSet(q, RegWrite(q, st.Get(q), v1), RegWrite(q, RegWrite(q, st.Get(q), v1), v2));
  }

  /** Two SR writes clear what one SR write of the OR of their values clears. */
  lemma SrWritesCombine(st: State, a1: nat, v1: bv32, a2: nat, v2: bv32)
    requires a1 < Window && a2 < Window
    requires Target(a1) == Some(Sr) && Target(a2) == Some(Sr)
    ensures Write(Write(st, a1, v1), a2, v2) == Write(st, a1, v1 | v2)
  {
    var x1 := ClearOnOne(st.Get(Sr), v1);
    var x2 := ClearOnOne(x1, v2);
    var s1 := Write(st, a1, v1);
    SrWriteSets(st, a1, v1);
    SrWriteSets(s1, a2, v2);
    SrWriteSets(st, a1, v1 | v2);
    ClearOnOneCombine(st.Get(Sr), v1, v2);
    st.SetSet(Sr, x1, x2);
  }

  /** Writes that select different registers can be applied in either order. */
  lemma WritesCommute(st: State, a1: nat, v1: bv32, a2: nat, v2: bv32)
    requires a1 < Window && a2 < Window
    requires Target(a1) != Target(a2)
    ensures Write(Write(st, a1, v1), a2, v2) == Write(Write(st, a2, v2), a1, v1)
  {
    if Target(a1).Some? && Target(a2).Some? && Target(a1) != Some(Dr) && Target(a2) != Some(Dr) {
      var q1, q2 := Target(a1).value, Target(a2).value;
      var w1 := RegWrite(q1, st.Get(q1), v1);
      var w2 := RegWrite(q2, st.Get(q2), v2);
      st.SetCommute(q1, w1, q2, w2);
    }
  }

  /** Every write keeps the invariant. */
  lemma WriteKeepsInvariant(st: State, addr: nat, value: bv32)
    requires addr < Window
    ensures Invariant(st) ==> Invariant(Write(st, addr, value))
  {
    if !Invariant(st) {
    } else if Target(addr) == Some(Sr) {
      SrWriteSets(st, addr, value);
      ClearOnOneClean(st.Get(Sr), value);
    } else if Target(addr).Some? && IsStored(Target(addr).value) {
      StoreWrite(st, addr, value);
    }
  }
}
