/**
  A carry into the high word in the middle of an RV32 read.

  The counter stands at 0x1_FFFF_FFFF when `timeh` and `time` are read, then
  carries into the high word before `timeh` is read again, and is at
  0x2_0000_0004 from the fourth sample on.
 */
module Scenarios {
  import opened Words
  import opened Csr
  import opened HwCounter

  ghost predicate RollsOver(t: Trace)
  {
    && t(0) == 0x1_FFFF_FFFF
    && t(1) == 0x1_FFFF_FFFF
    && t(2) == 0x2_0000_0000
    && forall i: nat | 3 <= i :: t(i) == 0x2_0000_0004
  }

  /** One counter that behaves this way. */
  function RolloverSample(i: nat): u64
  {
    if i < 2 then 0x1_FFFF_FFFF else if i == 2 then 0x2_0000_0000 else 0x2_0000_0004
  }

  lemma RolloverSampleRollsOver()
    ensures RollsOver(RolloverSample)
  {
  }

  lemma RollsOverMonotone(t: Trace)
    requires RollsOver(t)
    ensures Monotone(t)
  {
    forall i: nat, j: nat | i <= j
      ensures NotBelow(t, i, j)
    {
    }
  }

  /** The two passes the read makes on such a counter. */
  lemma RolloverPasses(t: Trace)
    requires RollsOver(t)
    ensures PassAt(t, 0) == Pass(1, 0xFFFF_FFFF, 2)
    ensures PassAt(t, 3) == Pass(2, 4, 2)
  {
  }

  /**
    The first pass sees high halves 1 and 2 and is thrown away; the read
    makes exactly one retry and returns the counter after the carry, not
    0x1_FFFF_FFFF or the torn 0x2_FFFF_FFFF.
   */
  lemma RolloverRetriesOnce(t: Trace, value: u64, next: nat)
    requires RollsOver(t)
    requires Rv32Outcome(t, 0, value, next)
    ensures next == 6
    ensures value == 0x2_0000_0004
  {
    RolloverPasses(t);
    OneRetry(t, 0, value, next);
    assert value == Join(2, 4);
  }

  /** `__arch_get_hw_counter` on RV32 across the carry. */
  method ReadAcrossRollover(t: Trace) returns (value: u64, s': CounterState)
    requires RollsOver(t)
    ensures value == 0x2_0000_0004
    ensures s'.next == 6
  {
    RollsOverMonotone(t);
    value, s' := GetHwCounter(Rv32, 0, VdsoData(0), CounterState(t, 0));
    RolloverRetriesOnce(t, value, s'.next);
  }
}
