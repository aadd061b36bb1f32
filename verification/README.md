# objectstore_bench: a Dafny model of the write-benchmark core

`objectstore_bench` writes a synthetic workload to an ObjectStore backend.
It parses a size and a block size (`--size 64K`, `--block-size 4K`), starts
`--threads` workers, and has each worker repeat a write cycle `--repeats`
times. A write cycle covers the whole object once in block-sized writes,
starting at the worker's own offset and wrapping back into the object.
At the end it reports the bytes written, the rate and the IOPS.

This project models the arithmetic and control flow of that core as pure
Dafny functions and proves what they compute:

- `common.dfy` (module `Common`): `Option`/`Result`, the 64-bit range
  `U64_LIMIT` = 2^64, powers of two and of 1024, and the small facts about
  floor division that the other modules use.
- `byte_units.dfy` (module `ByteUnits`): `byte_units::parse` on the
  C-string view of its argument (digits as `strtoull` reads them, the
  cumulative-fallthrough suffix switch, the overflow test and the shift),
  and `operator<<` (the divide-by-1024 loop and the printed text).
- `write_cycle.dfy` (module `WriteCycle`): the inner `while (len)` loop of
  `osbench_worker` as a generator `Emit` of `(offset, count)` writes,
  parameterised by the wrap test (`WhenPast`, the code's `offset > size`,
  and `WhenReached`, the corrected `offset >= size`), with closed forms for
  every write and the block-coverage properties.
- `bench.dfy` (module `Bench`): `Config` and its defaults, the worker's
  two assertions and its repeats, the starting offset
  `i * size / threads` in 64-bit arithmetic, the whole run over all
  threads, the object each thread writes, and the final summary (total,
  rate, IOPS) both as written in 64-bit arithmetic and exactly. The
  worker and the run take the wrap test as a parameter: `WhenPast` is
  the code as written, `WhenReached` the corrected worker.

Points where the model departs from the code as written, or reads it in
a particular way:

- The wrap test in the code is `offset > size`, which lets an offset
  equal to the size through (see "## Findings"). Both tests are modelled;
  every property of the worker and the run is stated for either test,
  and the block-coverage property holds only for the corrected one.
- The code computes IOPS as `(1000000 * total / block_size) / micros`.
  `Report` states the result as `(1000000 * total) / (block_size * micros)`,
  which is the same value.
- Without a suffix the code's overflow test at line 85 shifts by 64,
  which is undefined in C++ (see "## Findings"). `Parse` implements the
  intended test instead: a value without a suffix is refused only when it
  does not fit in 64 bits. `OverflowTestOnX86` keeps the test as an
  x86-64 build computes it.
- The code accepts no `B` suffix, so "4096B" is refused (`ParseRejectsUnknownSuffix`).
- The code keeps `total` and `1000000 * total` in unsigned 64-bit
  arithmetic (`TotalAsWritten`, `RateAsWritten`, `IopsAsWritten`); `Report`
  is the exact summary the code evidently intends (see "## Findings").
- A zero elapsed time or a zero block size divides by zero in the code.
  The model returns `Failure(DivideByZero)` instead.
- The formatter's guard `unit < max_units` can step past "TB" (see
  "## Findings"). `Format`, which `Display` uses, stops at the last unit;
  `FormatAsWritten` keeps the code's guard.

## Model

| member | source | states |
|---|---|---|
| ByteUnits.CStr | src/test/objectstore_bench.cc:50 | the C-string view `c_str()` gives `strtoull`; no contract of its own, `CStrIsNulFreePrefix` states its facts |
| ByteUnits.CStrIsNulFreePrefix | src/test/objectstore_bench.cc:50 | the text `strtoull` and the switch see is the prefix of the argument before its first NUL, which contains no NUL |
| ByteUnits.DigitRun | src/test/objectstore_bench.cc:50-56 | `endptr` stops after the longest run of leading decimal digits: everything before it is a digit and the character at it is not |
| ByteUnits.DecimalString | src/test/objectstore_bench.cc:106 | the number `operator<<` prints is a non-empty digit string whose decimal value is the number, with no leading zero unless it is exactly "0" |
| ByteUnits.FallthroughAccumulates | src/test/objectstore_bench.cc:59-77 | falling through `tier` case bodies from a suffix label to `case 0` adds 10 per body, 10 * tier in all |
| ByteUnits.UnitShift | src/test/objectstore_bench.cc:59-81 | the switch settles on a shift that is a multiple of 10 no larger than 40, or refuses the text |
| ByteUnits.SuffixShifts | src/test/objectstore_bench.cc:59-81 | no suffix shifts by 0; k/K, m/M, g/G and t/T shift by exactly 10, 20, 30 and 40 (each an if-and-only-if); any other character is refused |
| ByteUnits.Interpret | src/test/objectstore_bench.cc:51-52 | a value `strtoull` saturated is refused, and whatever is stored fits in 64 bits |
| ByteUnits.Parse | src/test/objectstore_bench.cc:46-90 | every value `parse` accepts fits in 64 bits |
| ByteUnits.ParseInto | src/test/objectstore_bench.cc:46-90 | `parse` returns true exactly when the string is accepted; then `v` is the parsed value, else `v` is unchanged |
| ByteUnits.ParseUnsuffixed | src/test/objectstore_bench.cc:50-56 | digits alone parse to their decimal value, refused exactly when that value is 2^64 or more |
| ByteUnits.ParseSuffixed | src/test/objectstore_bench.cc:59-88 | digits and one unit letter parse to the value times 1024^tier, refused exactly when that product does not fit in 64 bits (never truncated) |
| ByteUnits.InterpretShift | src/test/objectstore_bench.cc:83-88 | once the shift is known, the stored value is the exact shifted value or the string is refused |
| ByteUnits.ParseOverflowIff | src/test/objectstore_bench.cc:83-86 | with a suffix, `parse` fails exactly when the value has a bit set among its top `lshift` bits (value >= 2^(64-lshift)) |
| ByteUnits.ParseRejectsNoDigits | src/test/objectstore_bench.cc:55-56 | among the modelled inputs (no leading white space or sign, see "## Left out"), a string that does not start with a digit is refused |
| ByteUnits.ParseRejectsUnknownSuffix | src/test/objectstore_bench.cc:79-80 | after a non-empty run of digits, a non-NUL character that names no unit is refused, whatever follows it |
| ByteUnits.ParseRejectsTrailing | src/test/objectstore_bench.cc:74-75 | any non-NUL character after a unit letter is refused |
| ByteUnits.ParseStopsAtNul | src/test/objectstore_bench.cc:50-60 | text after an embedded NUL does not change the result |
| ByteUnits.ParseRendered | src/test/objectstore_bench.cc:46-90 | round trip: a count written in decimal with an optional K/M/G/T suffix parses back to the count times the unit, or is refused when that exceeds 64 bits |
| ByteUnits.ParseAcceptsZero | src/test/objectstore_bench.cc:46-90 | "0" is accepted as 0, so a zero block size reaches the worker |
| ByteUnits.OverflowTestOnX86 | src/test/objectstore_bench.cc:85 | the overflow test with the shift count taken modulo 64, as x86-64 computes `1ull << 64`; no contract of its own, `OverflowTestOnX86WithSuffix` and `UnsuffixedRejectedOnX86` compare it with the intended test |
| ByteUnits.OverflowTestOnX86WithSuffix | src/test/objectstore_bench.cc:85-86 | with a suffix, the overflow test compiled with a six-bit shift count is the intended test |
| ByteUnits.UnsuffixedRejectedOnX86 | src/test/objectstore_bench.cc:85-86 | without a suffix, the test compiled with a six-bit shift count refuses 4096, which the intended test and the corrected `Parse` accept |
| ByteUnits.FormatLoop | src/test/objectstore_bench.cc:97-105 | the loop stops within its cap; the shown number is the value divided by 1024 per step taken; every step taken divided a value of at least 1024 that was at least 1 MiB or a multiple of 1024; before the cap it stops only on a value that may not step; below 1 MiB it loses no bytes |
| ByteUnits.ScaledIsQuotient | src/test/objectstore_bench.cc:102 | k shifts right by 10 divide the value by 1024^k |
| ByteUnits.FormatLoopUnique | src/test/objectstore_bench.cc:97-105 | any split that takes only allowed steps and stops where the loop must is the loop's result, so the contract of `FormatLoop` fixes the shown number and unit |
| ByteUnits.FormatAsWritten | src/test/objectstore_bench.cc:97-106 | the loop with the code's guard `unit < max_units`; no contract of its own, `FormatLoop` states its result and `FormatAsWrittenOverruns` shows it reaching unit 5 |
| ByteUnits.Format | src/test/objectstore_bench.cc:92-107 | the shown unit index always names an entry of `UNITS` |
| ByteUnits.FormatSteps | src/test/objectstore_bench.cc:99-105 | a value below 1024^(m+1) takes at most m division steps |
| ByteUnits.FormatAgreesBelow2To50 | src/test/objectstore_bench.cc:94-105 | below 2^50 bytes the loop as written and the corrected loop agree, and the unit index stays at most 4 |
| ByteUnits.FormatAsWrittenOverruns | src/test/objectstore_bench.cc:94-106 | 2^50 bytes drive the loop as written to unit 5, past "TB"; the corrected loop shows 1024 TB |
| ByteUnits.FormatSmall | src/test/objectstore_bench.cc:99-102 | values below 1024 show in bytes; multiples of 1024 below 1 MiB move up one unit; other values below 1 MiB stay in bytes |
| ByteUnits.Display | src/test/objectstore_bench.cc:106 | the printed text is the shown number in decimal digits (no leading zero), one space, then the name of the shown unit |
| ByteUnits.DisplayExamples | src/test/objectstore_bench.cc:92-107 | 512 prints as "512 B" and 4096 as "4 KB" |
| WriteCycle.Wrap | src/test/objectstore_bench.cc:164-166 | the wrap test, `offset > size` as written or `offset >= size` corrected, subtracting `size` once; no contract of its own, `OffsetAt`, `CycleAsWrittenOffsets` and `CycleReachedOffsets` state where it leaves the offsets |
| WriteCycle.Emit | src/test/objectstore_bench.cc:157-168 | the writes the `while (len)` loop issues from an offset; no contract of its own, `EmitLength`, `EmitTotal`, `CountAt` and `OffsetAt` state its facts |
| WriteCycle.Cycle | src/test/objectstore_bench.cc:150-168 | one repeat: the loop from the starting offset with `len = size`; no contract of its own, `CycleFacts` and the coverage lemmas state its facts |
| WriteCycle.BlocksIsCeiling | src/test/objectstore_bench.cc:157-158 | taking `min(len, bs)` until nothing is left takes ceil(len / bs) pieces |
| WriteCycle.EmitLength | src/test/objectstore_bench.cc:157-168 | the loop issues one write per `min(len, bs)` piece |
| WriteCycle.EmitTotal | src/test/objectstore_bench.cc:157-168 | the counts of the writes add up to the bytes the loop was asked to write |
| WriteCycle.CountAt | src/test/objectstore_bench.cc:158 | the k-th write starts less than `len` bytes into the run (k * bs < len) and takes min(bs, len - k * bs) bytes |
| WriteCycle.OffsetAt | src/test/objectstore_bench.cc:164-166 | the k-th write starts at `a + k * bs` wrapped once by the test, while the run stays below twice the size |
| WriteCycle.CycleFacts | src/test/objectstore_bench.cc:150-168 | one cycle makes ceil(size / bs) writes totalling `size` bytes; write k takes min(bs, size - k * bs) bytes at `start + k * bs` wrapped once |
| WriteCycle.LastBlock | src/test/objectstore_bench.cc:158 | the last write of a cycle carries `size % bs` bytes, or a whole block when `bs` divides `size` |
| WriteCycle.CycleAsWrittenOffsets | src/test/objectstore_bench.cc:164-166 | with the `>` test every offset is at most `size`: `start + k * bs` when that is at most `size`, else `size` less |
| WriteCycle.CycleReachedOffsets | src/test/objectstore_bench.cc:164-166 | with the `>=` test every offset is `(start + k * bs) % size`, strictly inside the object |
| WriteCycle.CycleCoversEveryBlock | src/test/objectstore_bench.cc:145-168 | for an aligned start and a size that is a multiple of the block, a corrected cycle writes size / bs whole blocks inside the object at pairwise distinct offsets, and every block of the object is written |
| WriteCycle.AsWrittenWritesPastEnd | src/test/objectstore_bench.cc:164-166 | as written, an aligned cycle that starts after block 0 writes a whole block at offset `size`, past the object, and never writes at offset 0 |
| WriteCycle.WrapExample | src/test/objectstore_bench.cc:164-166 | size 8, block 4, start 4: as written the writes are (4,4),(8,4); with `>=` they are (4,4),(0,4) |
| Bench.StartOffset | src/test/objectstore_bench.cc:301 | `i * size / threads` with the product taken in 64 bits: the offset is a 64-bit value; `StartOffsetsOrdered` and `StartOffsetAligned` state where it lies |
| Bench.StartOffsetsOrdered | src/test/objectstore_bench.cc:298-301 | while `(threads-1) * size` fits in 64 bits, the starting offsets do not decrease with the thread index and lie inside the object |
| Bench.StartOffsetAligned | src/test/objectstore_bench.cc:301 | while `(threads - 1) * size` fits in 64 bits, when the threads split the object into whole slices of whole blocks, every starting offset is block-aligned |
| Bench.ObjectName | src/test/objectstore_bench.cc:271-290 | the object thread `i` writes; no contract of its own, `SharedObjectIff` states which threads share one |
| Bench.SharedObjectIff | src/test/objectstore_bench.cc:271-290 | two distinct threads write the same object exactly when `--multi-object` is off |
| Bench.Worker | src/test/objectstore_bench.cc:135-188 | a worker, with the code's wrap test or the corrected one, runs exactly when its start is inside the object and block-aligned with a non-zero block; then it runs `repeats` cycles of `size` bytes each |
| Bench.AsWrittenWorkerWritesPastEnd | src/test/objectstore_bench.cc:145-168 | as written, a worker that starts after block 0 writes in every repeat a whole block at offset `size`, past the object, and never writes block 0 |
| Bench.WorkerCoversObject | src/test/objectstore_bench.cc:145-168 | with the corrected wrap test, every repeat of an aligned worker writes each block of the object exactly once |
| Bench.WorkerWrapExample | src/test/objectstore_bench.cc:135-168 | size 8, block 4, two threads: thread 1 writes (4,4),(8,4) as written and (4,4),(0,4) corrected |
| Bench.RunFrom | src/test/objectstore_bench.cc:298-304 | the run from thread i succeeds exactly when every worker from thread i on passes its assertions; then it has one entry per remaining thread, each being that thread's worker from its own starting offset |
| Bench.Run | src/test/objectstore_bench.cc:298-304 | the run succeeds exactly when every thread's worker passes its assertions; then entry j is thread j's worker from `StartOffset(j)` |
| Bench.BalancedRun | src/test/objectstore_bench.cc:145-146 | when the threads split the object into whole slices of whole blocks without `i * size` wrapping, no worker assertion fails |
| Bench.RunWritesEverything | src/test/objectstore_bench.cc:298-309 | with either wrap test, a balanced run succeeds, and every run that succeeds, balanced or not, writes size * repeats * threads bytes, the `total` the code reports when that fits in 64 bits |
| Bench.RunShape | src/test/objectstore_bench.cc:298-301 | with either wrap test, a balanced run succeeds, and in every run that succeeds thread j repeats `repeats` times the one cycle with that test that starts at its own starting offset |
| Bench.UnbalancedRun | src/test/objectstore_bench.cc:298-309 | size 9, block 4, two threads is not balanced, yet both starts are aligned, the run succeeds and writes 18 bytes |
| Bench.DefaultRun | src/test/objectstore_bench.cc:109-119 | the defaults of `Config` (1 MiB in 4 KiB blocks, one repeat, one thread, one shared object) run one cycle on one thread and write 1 MiB, the `total` reported |
| Bench.TotalAsWritten | src/test/objectstore_bench.cc:309 | `total` in `size_t`: a 64-bit value, equal to size * repeats * threads whenever that fits |
| Bench.RateAsWritten | src/test/objectstore_bench.cc:310 | the rate with `1000000LL * total` taken in 64 bits: a 64-bit value; `ReportMatchesSource` and `RateWrapsAsWritten` compare it with the exact rate |
| Bench.IopsAsWritten | src/test/objectstore_bench.cc:311 | the IOPS with `1000000LL * total` taken in 64 bits: a 64-bit value; `ReportMatchesSource` compares it with the exact IOPS |
| Bench.Report | src/test/objectstore_bench.cc:308-311 | the summary fails exactly on a zero duration or block size; else total is size * repeats * threads, rate is the floor of 1000000 * total / micros (bounded on both sides) and IOPS is 1000000 * total / (bs * micros) |
| Bench.ReportMatchesSource | src/test/objectstore_bench.cc:309-311 | while 1000000 * total fits in 64 bits, the code's 64-bit summary equals the exact one |
| Bench.RateWrapsAsWritten | src/test/objectstore_bench.cc:310 | 32 TiB in one second: the code's 64-bit rate is wrong, the exact rate is 2^45 bytes per second |
| Bench.DefaultSummary | src/test/objectstore_bench.cc:115-118 | the defaults (1 MiB in 4 KiB blocks) over one second give 1048576 B/s and 256 IOPS, in the code's arithmetic and the exact one |
| Bench.SmallRun | src/test/objectstore_bench.cc:298-311 | 64K in 16K blocks, 2 repeats, 4 threads, with either wrap test: each thread runs two cycles of four writes, 512 KiB in all |

## Left out

- Command-line handling (`usage`, `ceph_argparse_*`, lines 20-34 and 190-229) is not modelled. `Config` is an input.
- `--repeats` and `--threads` come from `atoi`. They are modelled as `nat`, so negative values are not modelled. In the code a negative `--threads` becomes a huge `size_t` in `workers.reserve` (and in `oids.reserve` with `--multi-object`), which throws `length_error`, and a negative count makes the 64-bit `total` wrap to a huge value.
- The ObjectStore lifecycle is not modelled: creating, making the filesystem, mounting, creating the collection, touching and removing objects, unmounting (lines 240-290 and 316-322). The storage is an external collaborator.
- Threads, `C_NotifyCond`, the mutex and condition variable, and `queue_transactions` (lines 121-133, 171-180 and 293-306) are left out as concurrency and I/O. The elapsed time is an input (`micros`) to `Report`.
- The buffer contents, `Transaction` allocation and deletion, and the `dout`/`std::cout` logging are output and memory management. None of them affects the offsets and counts that are modelled.
- ByteUnits.Parse: `strtoull` skipping leading white space and accepting a sign are not modelled. Model inputs are a digit run followed by the rest. `errno` is reduced to the two cases it guards: no digits, and saturation at `ULLONG_MAX`.
- WriteCycle.CycleFacts: offsets are unbounded integers. A 64-bit `offset + count` overflow needs `size + bs >= 2^64` and is not modelled.
- Bench.StartOffsetsOrdered: ordering is proved only while `(threads - 1) * size` fits in 64 bits. `StartOffset` still models the 64-bit wrap of `i * size` for all inputs.
- Bench.Report: the exact summary does not model the `size_t` wrap of `total`. `TotalAsWritten`, `RateAsWritten` and `IopsAsWritten` model the code's 64-bit arithmetic.
- A negative elapsed time is not modelled; microseconds are a `nat`.
- `src/include/timegm.h` only declares an external time conversion and is not part of this model.

## Findings

| source | as written | input that shows it | evidently intended | confidence | as-written member | corrected member |
|---|---|---|---|---|---|---|
| src/test/objectstore_bench.cc:85 | `1ull << (64 - lshift)` shifts by 64 when there is no suffix. That is undefined behaviour; on x86-64 the count is masked to 0, so the test refuses every non-zero value | `--size 4096` (no suffix, lshift 0) | without a suffix only a range error refuses the value, and any value below 2^64 is accepted | low (the compiled behaviour depends on the compiler); not executed | ByteUnits.UnsuffixedRejectedOnX86 | ByteUnits.ParseUnsuffixed |
| src/test/objectstore_bench.cc:99 | the guard `unit < max_units` lets `unit` reach 5, and `units[5]` reads past the table | a value of 2^50 bytes, e.g. `--size 1024T` | stop at the last unit, "TB" (`unit < max_units - 1`) | high; not executed | ByteUnits.FormatAsWrittenOverruns | ByteUnits.Format |
| src/test/objectstore_bench.cc:165 | the wrap test `offset > cfg.size` lets an offset equal to the size through. The cycle writes a block past the end of the object and never writes block 0 | size 8, block size 4, start 4: writes (4,4),(8,4) | wrap when the offset reaches the size (`>=`), giving (4,4),(0,4) | high; not executed | Bench.AsWrittenWorkerWritesPastEnd | Bench.WorkerCoversObject |
| src/test/objectstore_bench.cc:310-311 | `1000000LL * total` is computed in unsigned 64-bit arithmetic and wraps once `total` exceeds about 16.8 TiB | `--size 1T --repeats 32 --threads 1` over 1,000,000 µs | the exact rate, 2^45 bytes per second | medium (the run must write that much); not executed | Bench.RateWrapsAsWritten | Bench.Report |
