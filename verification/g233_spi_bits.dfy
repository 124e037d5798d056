/**
 Bit-level operations on 32-bit register values used by the G233 SPI write
 handler: masked stores and the write-1-to-clear of the status register's
 error bits.

 The status register's latched error bits are bit 2 (overrun, 0x4) and bit 3
 (transmit overflow, 0x8); together they are 0xC. They are written as
 literals, so that the solver sees the constants themselves.
 */
module G233SpiBits {

  /** `x` has no bit outside `mask`. */
  predicate Within(x: bv32, mask: bv32) {
    x & !mask == 0
  }

  /** `x` is what a masked store of `value` leaves: the mask's bits copied from value, every other bit zero. */
  predicate Stores(x: bv32, value: bv32, mask: bv32) {
    Within(x, mask) && x & mask == value & mask
  }

  /** A masked store: the bits of `value` under `mask`. */
  function MaskedStore(value: bv32, mask: bv32): bv32 {
    value & mask
  }

  /** A masked store keeps the value's bits under the mask and nothing else. */
  lemma MaskedStoreStores(value: bv32, mask: bv32)
    ensures Stores(MaskedStore(value, mask), value, mask)
  {
  }

  /**
   The SR write as the handler performs it: if bit 2 of the value is set, clear
   bit 2; then, if bit 3 of the value is set, clear bit 3.
   */
  function ClearErrors(sr: bv32, value: bv32): bv32 {
    var s1 := if value & 0x4 != 0 then sr & !0x4 else sr;
    if value & 0x8 != 0 then s1 & !0x8 else s1
  }

  /**
   Write-1-to-clear restricted to the error bits, as one mask: every error bit
   that is set in `value` is cleared, every other bit is kept.
   */
  function ClearOnOne(sr: bv32, value: bv32): bv32 {
    sr & !(value & 0xC)
  }

  /** Write-1-to-clear only ever clears bits. */
  lemma ClearOnOneWithin(sr: bv32, value: bv32)
    ensures Within(ClearOnOne(sr, value), sr)
  {
  }

  /** Write-1-to-clear leaves every bit other than 2 and 3 as it was. */
  lemma ClearOnOneKeepsOthers(sr: bv32, value: bv32)
    ensures ClearOnOne(sr, value) & !0xC == sr & !0xC
  {
  }

  /** Bit 2 is set afterwards iff it was set before and the value's bit 2 is clear. */
  lemma ClearOnOneOverrun(sr: bv32, value: bv32)
    ensures ClearOnOne(sr, value) & 0x4 != 0 <==> sr & 0x4 != 0 && value & 0x4 == 0
  {
  }

  /** Bit 3 is set afterwards iff it was set before and the value's bit 3 is clear. */
  lemma ClearOnOneTxOverflow(sr: bv32, value: bv32)
    ensures ClearOnOne(sr, value) & 0x8 != 0 <==> sr & 0x8 != 0 && value & 0x8 == 0
  {
  }

  lemma ClearBothErrors(sr: bv32, value: bv32)
    requires value & 0x4 != 0 && value & 0x8 != 0
    ensures ClearErrors(sr, value) == ClearOnOne(sr, value)
  {
  }

  lemma ClearOverrunOnly(sr: bv32, value: bv32)
    requires value & 0x4 != 0 && value & 0x8 == 0
    ensures ClearErrors(sr, value) == ClearOnOne(sr, value)
  {
  }

  lemma ClearTxOverflowOnly(sr: bv32, value: bv32)
    requires value & 0x4 == 0 && value & 0x8 != 0
    ensures ClearErrors(sr, value) == ClearOnOne(sr, value)
  {
  }

  lemma ClearNoError(sr: bv32, value: bv32)
    requires value & 0x4 == 0 && value & 0x8 == 0
    ensures ClearErrors(sr, value) == ClearOnOne(sr, value)
  {
  }

  /** The handler's two conditional clears are exactly write-1-to-clear on the error bits. */
  lemma {:induction false} ClearErrorsIsClearOnOne(sr: bv32, value: bv32)
    ensures ClearErrors(sr, value) == ClearOnOne(sr, value)
  {
    if value & 0x4 != 0 {
      if value & 0x8 != 0 {
        ClearBothErrors(sr, value);
      } else {
        ClearOverrunOnly(sr, value);
      }
    } else {
      if value & 0x8 != 0 {
        ClearTxOverflowOnly(sr, value);
      } else {
        ClearNoError(sr, value);
      }
    }
  }

  /** A value with neither error bit set clears nothing. */
  lemma ClearOnOneNoop(sr: bv32, value: bv32)
    requires value & 0xC == 0
    ensures ClearOnOne(sr, value) == sr
  {
  }

  /** A value with both error bits set clears both, whatever their state before. */
  lemma ClearOnOneBoth(sr: bv32, value: bv32)
    requires value & 0xC == 0xC
    ensures ClearOnOne(sr, value) & 0xC == 0
  {
  }

  /** Clearing twice with the same value clears no more than clearing once. */
  lemma ClearOnOneIdempotent(sr: bv32, value: bv32)
    ensures ClearOnOne(ClearOnOne(sr, value), value) == ClearOnOne(sr, value)
  {
  }

  /** Clearing with v1 and then with v2 is clearing once with v1 | v2. */
  lemma ClearOnOneCombine(sr: bv32, v1: bv32, v2: bv32)
    ensures ClearOnOne(ClearOnOne(sr, v1), v2) == ClearOnOne(sr, v1 | v2)
  {
  }

  /** A status value with neither error bit set is left as it is by every write-1-to-clear. */
  lemma ClearOnOneClean(sr: bv32, value: bv32)
    requires sr & 0xC == 0
    ensures ClearOnOne(sr, value) == sr
  {
  }
}
