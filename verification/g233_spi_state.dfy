/**
 Register layout and device state of the G233 SPI controller: the register
 index enumeration and the state record holding the register file and the
 receive and transmit FIFOs.
 */
module G233SpiState {
  import Fifo8

  datatype Option<T> = None | Some(value: T)

  /** The registers, in the order of their indices. */
  datatype Reg = Cr1 | Cr2 | Sr | Dr | Csctrl

  /** Number of registers in the register file. */
  const RegNum: nat := 5

  /** Capacity of each of the two byte FIFOs. */
  const FifoCapacity: nat := 8

  /** Index of a register in the register file; the indices are consecutive from 0. */
  function Index(r: Reg): (i: nat)
    ensures i < RegNum
    ensures r == Cr1 <==> i == 0
  {
    match r
    case Cr1 => 0
    case Cr2 => 1
    case Sr => 2
    case Dr => 3
    case Csctrl => 4
  }

  /** The register an index names, if any: exactly the indices below RegNum name one. */
  function Decode(i: nat): (r: Option<Reg>)
    ensures r.Some? <==> i < RegNum
    ensures r.Some? ==> Index(r.value) == i
  {
    if i == 0 then Some(Cr1)
    else if i == 1 then Some(Cr2)
    else if i == 2 then Some(Sr)
    else if i == 3 then Some(Dr)
    else if i == 4 then Some(Csctrl)
    else None
  }

  /** Decoding the index of a register gives back that register. */
  lemma DecodeIndex(r: Reg)
    ensures Decode(Index(r)) == Some(r)
  {
  }

  /** Index is one-to-one, so different registers never share a slot. */
  lemma IndexInjective(r: Reg, q: Reg)
    ensures Index(r) == Index(q) <==> r == q
  {
    DecodeIndex(r);
    DecodeIndex(q);
  }

  /** The indices are consecutive, each register directly following the previous one. */
  lemma IndicesConsecutive()
    ensures Index(Cr2) == Index(Cr1) + 1
    ensures Index(Sr) == Index(Cr2) + 1
    ensures Index(Dr) == Index(Sr) + 1
    ensures Index(Csctrl) == Index(Dr) + 1
    ensures RegNum == Index(Csctrl) + 1
  {
  }

  /** A register file: exactly RegNum 32-bit words. */
  type RegFile = s: seq<bv32> | |s| == RegNum witness [0, 0, 0, 0, 0]

  /** The device state: the register file and two separate byte FIFOs. */
  datatype State = State(regs: RegFile, rxFifo: Fifo8.Fifo, txFifo: Fifo8.Fifo) {

    /** The stored value of one register. */
    function Get(r: Reg): bv32 {
      regs[Index(r)]
    }

    /** The state with one register replaced and everything else kept. */
    function Set(r: Reg, v: bv32): (st: State)
      ensures st.Get(r) == v
      ensures forall q :: q != r ==> st.Get(q) == Get(q)
      ensures st.rxFifo == rxFifo && st.txFifo == txFifo
    {
      State(regs[Index(r) := v], rxFifo, txFifo)
    }

    /** Storing a register's own value changes nothing. */
    lemma SetGet(r: Reg)
      ensures Set(r, Get(r)) == this
    {
      assert Set(r, Get(r)).regs == regs;
    }

    /** A second store to the same register overwrites the first. */
    lemma SetSet(r: Reg, v: bv32, w: bv32)
      ensures Set(r, v).Set(r, w) == Set(r, w)
    {
      assert Set(r, v).Set(r, w).regs == Set(r, w).regs;
    }

    /** Stores to different registers commute. */
    lemma SetCommute(r: Reg, v: bv32, q: Reg, w: bv32)
      requires r != q
      ensures Set(r, v).Set(q, w) == Set(q, w).Set(r, v)
    {
      IndexInjective(r, q);
      assert Set(r, v).Set(q, w).regs == Set(q, w).Set(r, v).regs;
    }
  }
}
