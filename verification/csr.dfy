/**
  The RISC-V `time` counter as seen through `csr_read`.

  The counter is a 64-bit trace indexed by sample number; a counter state is
  the trace together with the index of the next sample. Every `csr_read`
  consumes exactly one sample. RV64 reads the whole counter through CSR
  `time`; RV32 sees its lower half through `time` and its upper half through
  `timeh`.
 */
module Csr {
  import opened Words

  type Trace = nat -> u64

  /** Sample `j` of the counter is at least sample `i`. */
  ghost predicate NotBelow(t: Trace, i: nat, j: nat)
  {
    t(i) <= t(j)
  }

  /**
    The hardware promise: the counter never goes backwards. It is phrased
    through `NotBelow` so that the solver only compares samples a proof asks about.
   */
  ghost predicate Monotone(t: Trace)
  {
    forall i: nat, j: nat | i <= j :: NotBelow(t, i, j)
  }

  lemma MonotoneAt(t: Trace, i: nat, j: nat)
    requires Monotone(t)
    requires i <= j
    ensures t(i) <= t(j)
  {
    assert NotBelow(t, i, j);
  }

  /** `__riscv_xlen`: the register width the code is built for. */
  datatype Xlen = Rv32 | Rv64

  /** The two counter CSRs the code reads: `CSR_TIME` and `CSR_TIMEH`. */
  datatype Reg = Time | TimeH

  datatype CounterState = CounterState(trace: Trace, next: nat)

  /** The value one `csr_read` returns (an xlen-wide register) and the state after it. */
  datatype CsrResult = CsrResult(value: u64, after: CounterState)

  /** `csr_read(reg)` with registers `xlen` bits wide; `timeh` exists only on RV32. */
  function CsrRead(xlen: Xlen, reg: Reg, s: CounterState): (r: CsrResult)
    requires xlen.Rv64? ==> reg.Time?
    ensures r.after == s.(next := s.next + 1)
    ensures xlen.Rv64? ==> r.value == s.trace(s.next)
    ensures xlen.Rv32? ==> r.value < 0x1_0000_0000
    ensures xlen.Rv32? && reg.Time? ==> r.value as u32 == Lo(s.trace(s.next))
    ensures xlen.Rv32? && reg.TimeH? ==> r.value as u32 == Hi(s.trace(s.next))
  {
    var sample := s.trace(s.next);
    var value :=
      match xlen
      case Rv64 => sample
      case Rv32 => (match reg case Time => Lo(sample) case TimeH => Hi(sample)) as u64;
    CsrResult(value, s.(next := s.next + 1))
  }

  /**
    On RV32, `timeh` and `time` read at the same sample are the two halves of
    what RV64 reads from `time` there: joined, they give the full counter.
   */
  lemma HalvesOfOneSample(s: CounterState)
    ensures Join(CsrRead(Rv32, TimeH, s).value as u32, CsrRead(Rv32, Time, s).value as u32)
            == CsrRead(Rv64, Time, s).value
  {
    SplitJoin(s.trace(s.next));
  }
}
