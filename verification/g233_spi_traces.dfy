/**
 Sequences of register writes applied to the G233 SPI controller, and what
 holds of every state a reset device reaches through them.
 */
module G233SpiTraces {
  import opened G233SpiState
  import opened G233Spi

  /** One 4-byte write access: the byte offset in the window and the written word. */
  datatype Access = Access(addr: nat, value: bv32)

  /** Every access of the sequence falls inside the device's window. */
  predicate InWindow(ws: seq<Access>) {
    forall i :: 0 <= i < |ws| ==> ws[i].addr < Window
  }

  /** No access of the sequence selects register `q`. */
  predicate Avoids(ws: seq<Access>, q: Reg)
    requires InWindow(ws)
  {
    forall i :: 0 <= i < |ws| ==> Target(ws[i].addr) != Some(q)
  }

  /** The state after applying the writes in order; writes never touch the FIFOs and keep the invariant. */
  function Run(st: State, ws: seq<Access>): (r: State)
    requires InWindow(ws)
    ensures r.rxFifo == st.rxFifo && r.txFifo == st.txFifo
    ensures Invariant(st) ==> Invariant(r)
    decreases |ws|
  {
    if |ws| == 0 then st
    else
      WriteKeepsInvariant(st, ws[0].addr, ws[0].value);
      Run(Write(st, ws[0].addr, ws[0].value), ws[1..])
  }

  /** Running two sequences one after the other is running their concatenation. */
  lemma {:induction false} RunConcat(st: State, ws: seq<Access>, vs: seq<Access>)
    requires InWindow(ws) && InWindow(vs)
    ensures InWindow(ws + vs)
    ensures Run(st, ws + vs) == Run(Run(st, ws), vs)
    decreases |ws|
  {
    if |ws| == 0 {
      assert ws + vs == vs;
    } else {
      assert (ws + vs)[0] == ws[0];
      assert (ws + vs)[1..] == ws[1..] + vs;
      RunConcat(Write(st, ws[0].addr, ws[0].value), ws[1..], vs);
    }
  }

  /** A register that no write selects keeps its value through the whole run. */
  lemma {:induction false} RunFrame(st: State, ws: seq<Access>, q: Reg)
    requires InWindow(ws) && Avoids(ws, q)
    ensures Run(st, ws).Get(q) == st.Get(q)
    decreases |ws|
  {
    if |ws| != 0 {
      assert Target(ws[0].addr) != Some(q);
      RunFrame(Write(st, ws[0].addr, ws[0].value), ws[1..], q);
    }
  }

  /** No write ever changes the DR slot: a DR write drops its byte. */
  lemma {:induction false} RunKeepsDr(st: State, ws: seq<Access>)
    requires InWindow(ws)
    ensures Run(st, ws).Get(Dr) == st.Get(Dr)
    decreases |ws|
  {
    if |ws| != 0 {
      RunKeepsDr(Write(st, ws[0].addr, ws[0].value), ws[1..]);
    }
  }

  /**
   Whatever is written after reset, the SR slot still holds 0x2 with both error
   bits clear, the DR slot still holds 0x0C, and CR1, CR2 and CSCTRL hold no bit
   outside their masks.
   */
  lemma Reachable(ws: seq<Access>)
    requires InWindow(ws)
    ensures Run(Reset(), ws).Get(Sr) == ResetSr
    ensures Run(Reset(), ws).Get(Sr) & 0xC == 0
    ensures Run(Reset(), ws).Get(Dr) == ResetDr
    ensures Invariant(Run(Reset(), ws))
  {
  }
}
