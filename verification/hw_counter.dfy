/**
  `__arch_get_hw_counter`: the vDSO's read of the RISC-V time counter.

  On RV64 it is a single read of CSR `time`. On RV32 the counter is split
  into `time` (low half) and `timeh` (high half), so the code reads `timeh`,
  `time`, `timeh` and starts a fresh three-read pass whenever the two high
  reads differ; the agreed high half and the low half are then combined.
 */
module HwCounter {
  import opened Words
  import opened Csr

  /** The vDSO data page pointer the caller passes; the read never looks at it. */
  datatype VdsoData = VdsoData(address: nat)

  /** The three reads of one pass of the RV32 loop: `timeh`, `time`, `timeh` again. */
  datatype Pass = Pass(hi: u32, lo: u32, hiAgain: u32)

  datatype PassResult = PassResult(pass: Pass, after: CounterState)

  /**
    The loop body and the read in its exit test, in program order: three
    `csr_read`s on three consecutive samples.
   */
  method ReadPass(s: CounterState) returns (r: PassResult)
    ensures r.after == s.(next := s.next + 3)
    ensures r.pass == PassAt(s.trace, s.next)
  {
    var h := CsrRead(Rv32, TimeH, s);
    var l := CsrRead(Rv32, Time, h.after);
    var h2 := CsrRead(Rv32, TimeH, l.after);
    r := PassResult(Pass(h.value as u32, l.value as u32, h2.value as u32), h2.after);
  }

  /** A pass whose two high reads disagree is thrown away. */
  predicate Torn(p: Pass)
  {
    p.hi != p.hiAgain
  }

  /** The first sample of pass number `k` (from 0) of a read begun at sample `start`. */
  function PassStart(start: nat, k: nat): nat
  {
    start + 3 * k
  }

  /** What a pass begun at sample `at` of trace `t` observes. */
  function PassAt(t: Trace, at: nat): Pass
  {
    Pass(Hi(t(at)), Lo(t(at + 1)), Hi(t(at + 2)))
  }

  /** Every pass of a read begun at `start` that finished before sample `next` was torn. */
  ghost predicate TornBefore(t: Trace, start: nat, next: nat)
  {
    forall k: nat | PassStart(start, k) + 3 < next :: Torn(PassAt(t, PassStart(start, k)))
  }

  /** A torn pass ending at `next` joins the torn passes before it. */
  lemma TornBeforeExtend(t: Trace, start: nat, next: nat)
    requires start + 3 <= next && (next - start) % 3 == 0
    requires TornBefore(t, start, next)
    requires Torn(PassAt(t, next - 3))
    ensures TornBefore(t, start, next + 3)
  {
    forall k: nat | PassStart(start, k) + 3 < next + 3
      ensures Torn(PassAt(t, PassStart(start, k)))
    {
      if PassStart(start, k) + 3 >= next {
        assert PassStart(start, k) == next - 3;
      }
    }
  }

  /**
    The RV32 read begun at sample `start` returned `value` and left the next
    unread sample at `next`: whole passes were made, every pass before the
    last was torn, the last was not, and the value is its high and low half
    joined.
   */
  ghost predicate Rv32Outcome(t: Trace, start: nat, value: u64, next: nat)
  {
    && start + 3 <= next
    && (next - start) % 3 == 0
    && TornBefore(t, start, next)
    && !Torn(PassAt(t, next - 3))
    && value == Join(PassAt(t, next - 3).hi, PassAt(t, next - 3).lo)
  }

  /** The observable effect of one counter read: its value and the samples it consumed. */
  ghost predicate Outcome(xlen: Xlen, t: Trace, start: nat, value: u64, next: nat)
  {
    match xlen
    case Rv64 => value == t(start) && next == start + 1
    case Rv32 => Rv32Outcome(t, start, value, next)
  }

  /** Each retry sees a strictly larger high half than the pass it replaces. */
  lemma RetryRaisesHigh(t: Trace, at: nat)
    requires Monotone(t)
    requires Torn(PassAt(t, at))
    ensures PassAt(t, at + 3).hi > PassAt(t, at).hi
  {
    MonotoneAt(t, at, at + 2);
    MonotoneAt(t, at + 2, at + 3);
    HiMonotone(t(at), t(at + 2));
    HiMonotone(t(at + 2), t(at + 3));
  }

  /**
    `__arch_get_hw_counter(clock_mode, vd)`. The counter is the only state
    it touches: it returns the counter state with the consumed samples gone.
   */
  method GetHwCounter(xlen: Xlen, clockMode: s32, vd: VdsoData, s: CounterState)
    returns (value: u64, s': CounterState)
    requires xlen.Rv32? ==> Monotone(s.trace)
    ensures s'.trace == s.trace
    ensures Outcome(xlen, s.trace, s.next, value, s'.next)
    ensures xlen.Rv32? ==> s'.next >= s.next + 3 && value == s.trace(s'.next - 2)
    ensures xlen.Rv32? ==>
              s'.next - s.next <= 3 * (Hi(s.trace(s'.next - 1)) as int - Hi(s.trace(s.next)) as int + 1)
    ensures xlen.Rv32? ==> s'.next - s.next <= 3 * TWO32
  {
    if xlen.Rv64? {
      var r := CsrRead(xlen, Time, s);
      return r.value, r.after;
    }
    value, s' := ReadSplitCounter(s);
  }

  /** The RV32 half of `__arch_get_hw_counter`: the `timeh`/`time`/`timeh` retry loop. */
  method ReadSplitCounter(s: CounterState) returns (value: u64, s': CounterState)
    requires Monotone(s.trace)
    ensures s'.trace == s.trace
    ensures Rv32Outcome(s.trace, s.next, value, s'.next)
    ensures value == s.trace(s'.next - 2)
    ensures s'.next - s.next <= 3 * (Hi(s.trace(s'.next - 1)) as int - Hi(s.trace(s.next)) as int + 1)
  {
    var r := ReadPass(s);
    assert TornBefore(s.trace, s.next, r.after.next);
    ghost var passes: nat := 1;
    while r.pass.hi != r.pass.hiAgain
      invariant passes >= 1
      invariant r.after == CounterState(s.trace, PassStart(s.next, passes))
      invariant r.pass == PassAt(s.trace, r.after.next - 3)
      invariant TornBefore(s.trace, s.next, r.after.next)
      invariant r.pass.hi as int >= Hi(s.trace(s.next)) as int + passes - 1
      decreases TWO32 - r.pass.hi as int
    {
      RetryRaisesHigh(s.trace, r.after.next - 3);
      TornBeforeExtend(s.trace, s.next, r.after.next);
      r := ReadPass(r.after);
      passes := passes + 1;
    }
    ExitPass(s.trace, s.next, passes, r.pass);
    value := Combine(r.pass.hi, r.pass.lo);
    s' := r.after;
  }

  /** What the loop invariant gives when the loop exits on an untorn pass. */
  lemma ExitPass(t: Trace, start: nat, passes: nat, p: Pass)
    requires Monotone(t)
    requires passes >= 1
    requires p == PassAt(t, PassStart(start, passes) - 3)
    requires !Torn(p)
    requires TornBefore(t, start, PassStart(start, passes))
    requires p.hi as int >= Hi(t(start)) as int + passes - 1
    ensures Rv32Outcome(t, start, Join(p.hi, p.lo), PassStart(start, passes))
    ensures Join(p.hi, p.lo) == t(PassStart(start, passes) - 2)
    ensures passes <= Hi(t(PassStart(start, passes) - 1)) as int - Hi(t(start)) as int + 1
  {
    var next := PassStart(start, passes);
    WholePasses(start, passes);
    assert Rv32Outcome(t, start, Join(p.hi, p.lo), next);
    NoTearing(t, start, Join(p.hi, p.lo), next);
  }

  /**
    No tearing: on a monotone counter the RV32 result is exactly the counter
    at the sample where `time` was read, never one half from before a carry
    into the high word and the other half from after it.
   */
  lemma NoTearing(t: Trace, start: nat, value: u64, next: nat)
    requires Monotone(t)
    requires Rv32Outcome(t, start, value, next)
    ensures value == t(next - 2)
  {
    MonotoneAt(t, next - 3, next - 2);
    MonotoneAt(t, next - 2, next - 1);
    SameHighBetween(t(next - 3), t(next - 2), t(next - 1));
  }

  /** The result lies between the counter at the final pass's two `timeh` reads. */
  lemma ReadBracketed(t: Trace, start: nat, value: u64, next: nat)
    requires Monotone(t)
    requires Rv32Outcome(t, start, value, next)
    ensures t(next - 3) <= value <= t(next - 1)
  {
    NoTearing(t, start, value, next);
    MonotoneAt(t, next - 3, next - 2);
    MonotoneAt(t, next - 2, next - 1);
  }

  /** A read that has made `passes` passes has consumed whole passes only. */
  lemma WholePasses(start: nat, passes: nat)
    ensures (PassStart(start, passes) - start) % 3 == 0
  {
  }

  /** Dropping the last of several whole passes still leaves whole passes. */
  lemma DropPass(start: nat, next: nat)
    requires start + 3 <= next && (next - start) % 3 == 0
    ensures (next - 3 - start) % 3 == 0
  {
  }

  /** Any whole pass that ends before a read's last pass was torn. */
  lemma EarlierPassTorn(t: Trace, start: nat, value: u64, next: nat, at: nat)
    requires Rv32Outcome(t, start, value, next)
    requires start <= at && (at - start) % 3 == 0 && at + 3 < next
    ensures Torn(PassAt(t, at))
  {
    assert PassStart(start, (at - start) / 3) == at;
  }

  /** The last pass of an RV32 read is the first pass that is not torn. */
  lemma LastPassFirstUntorn(t: Trace, start: nat, v1: u64, n1: nat, v2: u64, n2: nat)
    requires Rv32Outcome(t, start, v1, n1)
    requires Rv32Outcome(t, start, v2, n2)
    requires n1 <= n2
    ensures n1 == n2
  {
    if n1 < n2 {
      var at := n1 - 3;
      assert !Torn(PassAt(t, at));
      DropPass(start, n1);
      EarlierPassTorn(t, start, v2, n2, at);
    }
  }

  /**
    A read whose first pass is torn and whose second is not makes exactly
    one retry and returns what the second pass saw.
   */
  lemma OneRetry(t: Trace, start: nat, value: u64, next: nat)
    requires Rv32Outcome(t, start, value, next)
    requires Torn(PassAt(t, start))
    requires !Torn(PassAt(t, start + 3))
    ensures next == start + 6
    ensures value == Join(PassAt(t, start + 3).hi, PassAt(t, start + 3).lo)
  {
    if next > start + 6 {
      EarlierPassTorn(t, start, value, next, start + 3);
      assert false;
    }
  }

  /**
    A read's outcome is fixed by the width, the trace and the starting
    sample alone: `clock_mode` and `vd` cannot change it.
   */
  lemma OutcomeUnique(xlen: Xlen, t: Trace, start: nat, v1: u64, n1: nat, v2: u64, n2: nat)
    requires Outcome(xlen, t, start, v1, n1)
    requires Outcome(xlen, t, start, v2, n2)
    ensures v1 == v2 && n1 == n2
  {
    if xlen.Rv32? {
      if n1 <= n2 {
        LastPassFirstUntorn(t, start, v1, n1, v2, n2);
      } else {
        LastPassFirstUntorn(t, start, v2, n2, v1, n1);
      }
    }
  }

  /**
    Two reads of the same monotone counter, the second begun after the first
    finished, return non-decreasing values.
   */
  lemma SuccessiveReadsOrdered(xlen: Xlen, t: Trace, s1: nat, v1: u64, n1: nat, s2: nat, v2: u64, n2: nat)
    requires Monotone(t)
    requires Outcome(xlen, t, s1, v1, n1)
    requires Outcome(xlen, t, s2, v2, n2)
    requires n1 <= s2
    ensures v1 <= v2
  {
    if xlen.Rv32? {
      NoTearing(t, s1, v1, n1);
      NoTearing(t, s2, v2, n2);
      MonotoneAt(t, n1 - 2, n2 - 2);
    } else {
      MonotoneAt(t, s1, s2);
    }
  }
}
