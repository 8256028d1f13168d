# RISC-V vDSO hardware counter read, in Dafny

This project models `__arch_get_hw_counter` from the RISC-V vDSO time header
(`arch/riscv/include/asm/vdso/gettimeofday.h`). It is the primitive that
`gettimeofday`/`clock_gettime` in the vDSO use to read the hardware time
counter from user space.

- On RV64 it is one `csr_read(CSR_TIME)`.
- On RV32 the 64-bit counter shows through two 32-bit CSRs: `time` (low half)
  and `timeh` (high half). The code reads `timeh`, `time`, `timeh`. It starts
  a fresh three-read pass whenever the two high reads differ. It then returns
  `((u64)hi << 32) | lo`.

The hardware counter is a trace: a function from sample number to a 64-bit
value. A counter state pairs the trace with the number of the next unread
sample. Every `csr_read` consumes exactly one sample. The only thing the
hardware promises is that the trace never decreases (`Csr.Monotone`). The
RV32 read needs that promise to terminate, so it is the one precondition.

Files:

- `words.dfy` (module `Words`): `u32`/`u64` words and the C operators on
  them. `x << 32` is a multiplication by 2^32 truncated to 64 bits. `a | b` is
  a bit-by-bit or on naturals (`BitOr`). `Hi`/`Lo` are the two halves of a
  64-bit value, `Join` is the value with given halves, and `Combine` is
  `((u64)hi << 32) | lo` computed operator by operator.
- `csr.dfy` (module `Csr`): the counter trace, monotonicity, and `CsrRead`.
  On RV32 `CsrRead` gives `time` as the low half and `timeh` as the high half.
- `hw_counter.dfy` (module `HwCounter`): one pass of the loop (`ReadPass`),
  the specification of a read's outcome (`Outcome`, `Rv32Outcome`), the
  method `GetHwCounter` with its RV32 loop `ReadSplitCounter`, and the
  lemmas about them.
- `scenarios.dfy` (module `Scenarios`): a carry into the high word in the
  middle of an RV32 read. `RolloverSample` is one counter that does this.

The RV32 retry re-reads `timeh` at the start of every pass (line 169). It
does not reuse the previous pass's second high read, so every pass consumes
three fresh samples.

## Model

| member | source | states |
|---|---|---|
| Words.Combine | arch/riscv/include/asm/vdso/gettimeofday.h:173 | the shift-and-or of line 173, evaluated operator by operator, equals `Join(hi, lo)`: `hi` lands in bits 32-63 and `lo` in bits 0-31, with no bit lost or mixed |
| Words.ShiftLeft64By32 | arch/riscv/include/asm/vdso/gettimeofday.h:173 | the u64 shift `<< 32` puts the operand's low 32 bits in the high half and zeros in the low half, and loses the operand's high 32 bits; when the operand fits in 32 bits it multiplies by 2^32 |
| Words.Or64 | arch/riscv/include/asm/vdso/gettimeofday.h:173 | the u64 or of line 173 is at least each operand and at most their sum |
| Words.BitOrDisjoint | arch/riscv/include/asm/vdso/gettimeofday.h:173 | or-ing a value shifted left by n with a value below 2^n is addition, so the or cannot disturb the shifted high half |
| Words.BitOrBelow | arch/riscv/include/asm/vdso/gettimeofday.h:173 | or-ing two n-bit values gives an n-bit value, so the or of two u64 values stays a u64 |
| Words.BitOr | arch/riscv/include/asm/vdso/gettimeofday.h:173 | a bitwise or is at least each operand and at most their sum |
| Words.JoinSplit | arch/riscv/include/asm/vdso/gettimeofday.h:173 | the upper 32 bits of the joined value are `hi` and the lower 32 bits are `lo` |
| Words.SplitJoin | arch/riscv/include/asm/vdso/gettimeofday.h:173 | splitting any 64-bit value into halves and joining them gives the value back |
| Words.HiMonotone | arch/riscv/include/asm/vdso/gettimeofday.h:169-171 | as the counter grows, the value read from `timeh` never decreases |
| Words.SameHighBetween | arch/riscv/include/asm/vdso/gettimeofday.h:168-173 | a counter value caught between two values with equal high halves is rebuilt exactly from that high half and its own low half |
| Csr.CsrRead | arch/riscv/include/asm/vdso/gettimeofday.h:164-171 | every `csr_read` consumes exactly one sample of the counter. RV64 `time` gives the whole sample. On RV32 `time` gives its low 32 bits and `timeh` its high 32 bits |
| Csr.HalvesOfOneSample | arch/riscv/include/asm/vdso/gettimeofday.h:164-173 | on RV32, `timeh` and `time` taken at the same sample join to exactly what RV64 reads from `time` at that sample |
| HwCounter.ReadPass | arch/riscv/include/asm/vdso/gettimeofday.h:169-171 | one pass reads `timeh`, `time`, `timeh` from three consecutive samples in program order and consumes exactly those three |
| HwCounter.GetHwCounter | arch/riscv/include/asm/vdso/gettimeofday.h:155-175 | RV64: the result is the single sample read, one sample consumed, no retry. RV32: whole passes were made, every pass before the last had differing high reads, the last had equal ones, and the result is the counter at the sample where `time` was read. At most 2^32 passes are made. The trace is unchanged and only the cursor moves |
| HwCounter.ReadSplitCounter | arch/riscv/include/asm/vdso/gettimeofday.h:166-173 | the RV32 loop exits only on a pass whose two `timeh` reads agree. It returns the counter at its `time` sample. The number of passes is at most one more than the number of steps the high half took during the read |
| HwCounter.RetryRaisesHigh | arch/riscv/include/asm/vdso/gettimeofday.h:168-171 | on a monotone counter, the pass after a torn pass sees a strictly larger first high half. This is the loop's termination measure |
| HwCounter.ExitPass | arch/riscv/include/asm/vdso/gettimeofday.h:171-173 | when the loop leaves on an untorn pass, the combined value satisfies the RV32 outcome and equals the counter at the `time` sample |
| HwCounter.NoTearing | arch/riscv/include/asm/vdso/gettimeofday.h:166-173 | on a monotone counter the RV32 result equals the full counter at the `time` sample. It is never the high half from before a carry with the low half from after it, or the reverse |
| HwCounter.ReadBracketed | arch/riscv/include/asm/vdso/gettimeofday.h:168-173 | the result lies between the counter at the final pass's first `timeh` sample and at its second |
| HwCounter.EarlierPassTorn | arch/riscv/include/asm/vdso/gettimeofday.h:168-171 | every whole pass that ends before the final pass had differing high reads |
| HwCounter.LastPassFirstUntorn | arch/riscv/include/asm/vdso/gettimeofday.h:171 | the loop stops at the first pass whose high reads agree, so two RV32 outcomes from the same start end at the same sample |
| HwCounter.OutcomeUnique | arch/riscv/include/asm/vdso/gettimeofday.h:155-175 | the value and the samples consumed are fixed by the register width, the trace and the starting sample alone. `clock_mode` and `vd` cannot change them |
| HwCounter.OneRetry | arch/riscv/include/asm/vdso/gettimeofday.h:168-171 | if the first pass is torn and the second is not, the read retries exactly once and returns what the second pass saw |
| HwCounter.SuccessiveReadsOrdered | arch/riscv/include/asm/vdso/gettimeofday.h:155-175 | two reads of the same monotone counter, the second begun after the first finished, return non-decreasing values |
| Scenarios.RolloverRetriesOnce | arch/riscv/include/asm/vdso/gettimeofday.h:168-173 | with high 1 and low 0xFFFF_FFFF at the first samples and a carry before the `timeh` re-read, the read makes one retry and returns the post-carry counter 0x2_0000_0004, not 0x1_FFFF_FFFF and not the torn 0x2_FFFF_FFFF |
| Scenarios.ReadAcrossRollover | arch/riscv/include/asm/vdso/gettimeofday.h:155-175 | calling the RV32 read on such a counter returns 0x2_0000_0004 after six samples |

## Left out

- The syscall fallbacks `gettimeofday_fallback`, `clock_gettime_fallback`, `clock_getres_fallback`, `clock_gettime32_fallback` and `clock_getres32_fallback` (lines 20-150) are left out. Each loads a0/a1/a7 and runs `ecall`, then returns the kernel's raw result. The kernel fills the buffers, and its behaviour is not part of this model.
- The compile-time choice of which fallbacks exist (`CONFIG_GENERIC_TIME_VSYSCALL`, `__SIZEOF_POINTER__`, `__NR_*`) is build configuration, not behaviour. The register width `__riscv_xlen` is modelled, as the parameter `Xlen`.
- `__arch_get_vdso_data` and `__arch_get_timens_vdso_data` (lines 177-188) only return pointers to data published elsewhere. The model passes `vd` to the read as an opaque `VdsoData` value.
- The comment at lines 158-162 says CSR `time` traps into M-mode and needs no fences. That mechanism is not modelled. A CSR read is simply the next sample of the trace.
- Memory ordering and concurrency between harts are not modelled. The model has one reader consuming one trace.
- The 64-bit counter wrapping past 2^64 - 1 is not modelled. A monotone trace of u64 values cannot wrap.
- GetHwCounter: on RV32 it requires a monotone trace, and so does ReadSplitCounter. The C code states no such requirement; it relies on the hardware counter never going backwards, and without that the loop need not terminate.
