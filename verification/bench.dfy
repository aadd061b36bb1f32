/** The benchmark driver around the write cycle: its parameters, how the
    object's address space is split between worker threads, what each
    worker writes over its repeats, and the summary arithmetic. */
module Bench {
  import opened Common
  import opened WriteCycle
  import ByteUnits

  /** `struct Config`: the parsed command-line parameters. `repeats` and
      `threads` come from `atoi` and are modelled as `nat`: a negative
      count is not modelled (the code would pass it to `reserve` as a
      huge `size_t`, and the product `total` would wrap). */
  datatype Config = Config(size: nat, blockSize: nat, repeats: nat, threads: nat, multiObject: bool)

  /** The defaults: 1 MiB in 4 KiB blocks, once, on one thread. */
  const DEFAULT_CONFIG := Config(1048576, 4096, 1, 1, false)

  /** Why a worker or the summary stops the process. */
  datatype Abort =
    | StartPastEnd   // `assert(starting_offset < cfg.size)` fails
    | DivideByZero   // a `%` or `/` by zero
    | Misaligned     // `assert(starting_offset % cfg.block_size == 0)` fails

  // ---------------------------------------------------------------------
  // Splitting the object between threads

  /** `i * cfg.size / cfg.threads`, the product taken in 64 bits. */
  function StartOffset(i: nat, size: nat, threads: nat): (r: nat)
    requires threads > 0
    ensures r < U64_LIMIT
  {
    ((i * size) % U64_LIMIT) / threads
  }

  /** While `(threads - 1) * size` fits in 64 bits the starting offsets
      of threads `0 .. threads-1` are non-decreasing and lie inside the
      object. */
  lemma StartOffsetsOrdered(size: nat, threads: nat, i: nat, j: nat)
    requires threads > 0 && i <= j < threads
    requires (threads - 1) * size < U64_LIMIT
    ensures StartOffset(i, size, threads) <= StartOffset(j, size, threads)
    ensures size > 0 ==> StartOffset(j, size, threads) < size
  {
    NoWrap(size, threads, i);
    NoWrap(size, threads, j);
    MulLe(i, j, size);
    DivMonotone(i * size, j * size, threads);
    if size > 0 {
      var q := (j * size) / threads;
      if q >= size {
        MulLe(size, q, threads);
        assert q * threads <= j * size;
        MulLess(j, threads, size);
        assert false;
      }
    }
  }

  lemma NoWrap(size: nat, threads: nat, i: nat)
    requires threads > 0 && i < threads
    requires (threads - 1) * size < U64_LIMIT
    ensures (i * size) % U64_LIMIT == i * size
  {
    MulLe(i, threads - 1, size);
    DivUnique(i * size, U64_LIMIT, 0, i * size);
  }

  lemma MulLe(x: nat, y: nat, z: nat)
    requires x <= y
    ensures x * z <= y * z
  {
    if x < y && z > 0 {
      MulLess(x, y, z);
    }
  }

  lemma DivMonotone(x: nat, y: nat, d: nat)
    requires x <= y && d > 0
    ensures x / d <= y / d
  {
    if x / d > y / d {
      AtLeastNextMultiple(y / d, x / d, d);
      assert false;
    }
  }

  /** When the threads divide the object into whole slices of whole
      blocks, every starting offset is block-aligned. */
  lemma StartOffsetAligned(size: nat, threads: nat, bs: nat, i: nat)
    requires threads > 0 && bs > 0 && i < threads
    requires size % threads == 0 && (size / threads) % bs == 0
    requires (threads - 1) * size < U64_LIMIT
    ensures StartOffset(i, size, threads) % bs == 0
  {
    NoWrap(size, threads, i);
    var slice := size / threads;
    var blocks := slice / bs;
    assert size == slice * threads;
    assert slice == blocks * bs;
    assert i * size == (i * slice) * threads;
    DivUnique(i * size, threads, i * slice, 0);
    assert i * slice == (i * blocks) * bs;
    DivUnique(i * slice, bs, i * blocks, 0);
  }

  // ---------------------------------------------------------------------
  // The object each thread writes

  /** The name of the object thread `i` writes: its own temporary object
      `osbench-thread-<i>` with `--multi-object`, else the one shared
      object `osbench`. */
  function ObjectName(cfg: Config, i: nat): string {
    if cfg.multiObject then "osbench-thread-" + ByteUnits.DecimalString(i) else "osbench"
  }

  /** Two threads write the same object exactly when the objects are not
      per-thread. */
  lemma SharedObjectIff(cfg: Config, i: nat, j: nat)
    requires i != j
    ensures ObjectName(cfg, i) == ObjectName(cfg, j) <==> !cfg.multiObject
  {
    if cfg.multiObject {
      var p := "osbench-thread-";
      assert ObjectName(cfg, i)[|p|..] == ByteUnits.DecimalString(i);
      assert ObjectName(cfg, j)[|p|..] == ByteUnits.DecimalString(j);
    }
  }

  // ---------------------------------------------------------------------
  // One worker: `cfg.repeats` cycles from its starting offset

  function Repeat<T>(x: T, n: nat): (r: seq<T>)
    ensures |r| == n
    ensures forall i :: 0 <= i < n ==> r[i] == x
  {
    if n == 0 then [] else [x] + Repeat(x, n - 1)
  }

  /** `osbench_worker`: the two assertions on the starting offset (the
      second one divides by the block size), then one cycle per repeat.
      `test` is the cycle's wrap test: `WhenPast` is the code as written,
      `WhenReached` the corrected test. */
  function Worker(test: WrapTest, cfg: Config, start: nat): (r: Result<seq<seq<Write>>, Abort>)
    ensures r.Success? <==> start < cfg.size && cfg.blockSize > 0 && start % cfg.blockSize == 0
    ensures r.Success? ==> |r.value| == cfg.repeats
    ensures r.Success? ==> forall c :: c in r.value ==> TotalCount(c) == cfg.size
  {
    if start >= cfg.size then Failure(StartPastEnd)
    else if cfg.blockSize == 0 then Failure(DivideByZero)
    else if start % cfg.blockSize != 0 then Failure(Misaligned)
    else
      EmitTotal(test, start, cfg.size, cfg.size, cfg.blockSize);
      Success(Repeat(Cycle(test, start, cfg.size, cfg.blockSize), cfg.repeats))
  }

  /** Bytes written by a sequence of cycles. */
  function CycleBytes(cycles: seq<seq<Write>>): nat {
    if cycles == [] then 0 else TotalCount(cycles[0]) + CycleBytes(cycles[1..])
  }

  lemma {:induction false} CycleBytesUniform(cycles: seq<seq<Write>>, size: nat)
    requires forall c :: c in cycles ==> TotalCount(c) == size
    ensures CycleBytes(cycles) == |cycles| * size
    decreases |cycles|
  {
    if cycles != [] {
      assert cycles[0] in cycles;
      assert forall c :: c in cycles[1..] ==> c in cycles;
      CycleBytesUniform(cycles[1..], size);
      MulSucc(|cycles|, size);
    }
  }

  // ---------------------------------------------------------------------
  // All workers

  /** The workers from thread `i` on; the first failing one stops the run. */
  function RunFrom(test: WrapTest, cfg: Config, i: nat): (r: Result<seq<seq<seq<Write>>>, Abort>)
    requires cfg.threads > 0 && i <= cfg.threads
    ensures r.Success? <==> forall j :: i <= j < cfg.threads ==>
      Worker(test, cfg, StartOffset(j, cfg.size, cfg.threads)).Success?
    ensures r.Success? ==> |r.value| == cfg.threads - i
    ensures r.Success? ==> forall j :: 0 <= j < |r.value| ==>
      Worker(test, cfg, StartOffset(i + j, cfg.size, cfg.threads)) == Success(r.value[j])
    decreases cfg.threads - i
  {
    if i == cfg.threads then Success([])
    else match Worker(test, cfg, StartOffset(i, cfg.size, cfg.threads))
      case Failure(e) => Failure(e)
      case Success(cycles) =>
        match RunFrom(test, cfg, i + 1)
        case Failure(e) => Failure(e)
        case Success(rest) =>
          var all := [cycles] + rest;
          assert forall j :: 1 <= j < |all| ==> all[j] == rest[j - 1];
          Success(all)
  }

  /** The threads `main` starts: thread `i` runs a worker from
      `StartOffset(i)`; with no threads nothing is written. The run
      succeeds exactly when every worker passes its assertions. */
  function Run(test: WrapTest, cfg: Config): (r: Result<seq<seq<seq<Write>>>, Abort>)
    ensures r.Success? <==> forall j :: 0 <= j < cfg.threads ==>
      Worker(test, cfg, StartOffset(j, cfg.size, cfg.threads)).Success?
    ensures r.Success? ==> |r.value| == cfg.threads
    ensures r.Success? ==> forall j :: 0 <= j < cfg.threads ==>
      Worker(test, cfg, StartOffset(j, cfg.size, cfg.threads)) == Success(r.value[j])
  {
    if cfg.threads == 0 then Success([])
    else
      RunFrom(test, cfg, 0)
  }

  /** Bytes written by all threads together. */
  function RunBytes(workers: seq<seq<seq<Write>>>): nat {
    if workers == [] then 0 else CycleBytes(workers[0]) + RunBytes(workers[1..])
  }

  /** A configuration whose threads split the object into whole slices of
      whole blocks, without the 64-bit product `i * size` wrapping. */
  predicate Balanced(cfg: Config) {
    && cfg.threads > 0
    && cfg.size > 0
    && cfg.blockSize > 0
    && cfg.size % cfg.threads == 0
    && (cfg.size / cfg.threads) % cfg.blockSize == 0
    && (cfg.threads - 1) * cfg.size < U64_LIMIT
  }

  /** Threads that write `per` bytes each write `|workers| * per` bytes
      between them. */
  lemma {:induction false} RunBytesUniform(workers: seq<seq<seq<Write>>>, per: nat)
    requires forall k :: 0 <= k < |workers| ==> CycleBytes(workers[k]) == per
    ensures RunBytes(workers) == |workers| * per
    decreases |workers|
  {
    if workers != [] {
      RunBytesUniform(workers[1..], per);
      MulSucc(|workers|, per);
    }
  }

  /** A balanced configuration passes every worker's assertions, so its
      run succeeds. */
  lemma BalancedRun(test: WrapTest, cfg: Config)
    requires Balanced(cfg)
    ensures Run(test, cfg).Success?
  {
    forall j | 0 <= j < cfg.threads
      ensures Worker(test, cfg, StartOffset(j, cfg.size, cfg.threads)).Success?
    {
      BalancedWorker(test, cfg, j);
    }
  }

  /** In a balanced configuration every thread's worker passes its
      assertions. */
  lemma BalancedWorker(test: WrapTest, cfg: Config, i: nat)
    requires Balanced(cfg) && i < cfg.threads
    ensures Worker(test, cfg, StartOffset(i, cfg.size, cfg.threads)).Success?
  {
    StartOffsetsOrdered(cfg.size, cfg.threads, i, i);
    StartOffsetAligned(cfg.size, cfg.threads, cfg.blockSize, i);
  }

  /** A worker that passes its assertions writes `size` bytes per repeat. */
  lemma WorkerBytes(test: WrapTest, cfg: Config, start: nat)
    requires Worker(test, cfg, start).Success?
    ensures CycleBytes(Worker(test, cfg, start).value) == cfg.size * cfg.repeats
  {
    var cycles := Worker(test, cfg, start).value;
    CycleBytesUniform(cycles, cfg.size);
    assert |cycles| * cfg.size == cfg.repeats * cfg.size;
  }

  /** A balanced run never trips the worker assertions. Any run that
      succeeds, balanced or not, writes `size * repeats * threads` bytes
      between its threads; when that product fits in 64 bits it is
      exactly the `total` `main` reports. */
  lemma RunWritesEverything(test: WrapTest, cfg: Config)
    ensures Balanced(cfg) ==> Run(test, cfg).Success?
    ensures Run(test, cfg).Success? ==>
      RunBytes(Run(test, cfg).value) == cfg.size * cfg.repeats * cfg.threads
    ensures Run(test, cfg).Success? && cfg.size * cfg.repeats * cfg.threads < U64_LIMIT ==>
      TotalAsWritten(cfg) == RunBytes(Run(test, cfg).value)
  {
    if Balanced(cfg) {
      BalancedRun(test, cfg);
    }
    if Run(test, cfg).Success? {
      var ws := Run(test, cfg).value;
      forall k | 0 <= k < |ws|
        ensures CycleBytes(ws[k]) == cfg.size * cfg.repeats
      {
        WorkerBytes(test, cfg, StartOffset(k, cfg.size, cfg.threads));
      }
      RunBytesUniform(ws, cfg.size * cfg.repeats);
      var product := cfg.size * cfg.repeats * cfg.threads;
      if product < U64_LIMIT {
        DivUnique(product, U64_LIMIT, 0, product);
      }
    }
  }

  /** A balanced run never trips the worker assertions, and in any run
      that succeeds thread `j` repeats, `repeats` times, the one cycle
      that starts at its own starting offset. */
  lemma RunShape(test: WrapTest, cfg: Config)
    ensures Balanced(cfg) ==> Run(test, cfg).Success?
    ensures Run(test, cfg).Success? ==> forall j :: 0 <= j < cfg.threads ==>
      && |Run(test, cfg).value[j]| == cfg.repeats
      && forall c :: c in Run(test, cfg).value[j] ==>
           c == Cycle(test, StartOffset(j, cfg.size, cfg.threads), cfg.size, cfg.blockSize)
  {
    if Balanced(cfg) {
      BalancedRun(test, cfg);
    }
    if Run(test, cfg).Success? {
      var ws := Run(test, cfg).value;
      forall j | 0 <= j < cfg.threads
        ensures |ws[j]| == cfg.repeats
        ensures forall c :: c in ws[j] ==>
          c == Cycle(test, StartOffset(j, cfg.size, cfg.threads), cfg.size, cfg.blockSize)
      {
        assert Worker(test, cfg, StartOffset(j, cfg.size, cfg.threads)) == Success(ws[j]);
      }
    }
  }

  /** `--size 9 --block-size 4 --threads 2` is not balanced, yet both
      starts (0 and 4) are block-aligned, so every worker passes its
      assertions and the run still writes `size * threads` bytes. */
  lemma UnbalancedRun(test: WrapTest)
    ensures !Balanced(Config(9, 4, 1, 2, false))
    ensures Run(test, Config(9, 4, 1, 2, false)).Success?
    ensures RunBytes(Run(test, Config(9, 4, 1, 2, false)).value) == 18
  {
    var cfg := Config(9, 4, 1, 2, false);
    assert cfg.size % cfg.threads != 0;
    assert StartOffset(0, 9, 2) == 0 && StartOffset(1, 9, 2) == 4;
    assert Worker(test, cfg, 0).Success? && Worker(test, cfg, 4).Success?;
    assert Run(test, cfg).Success?;
    RunWritesEverything(test, cfg);
    assert cfg.size * cfg.repeats * cfg.threads == 18;
  }

  /** The defaults, on either wrap test: the one thread passes its
      assertions and writes the whole 1 MiB object once, which is the
      `total` reported. */
  lemma DefaultRun(test: WrapTest)
    ensures Run(test, DEFAULT_CONFIG).Success?
    ensures |Run(test, DEFAULT_CONFIG).value| == 1 && |Run(test, DEFAULT_CONFIG).value[0]| == 1
    ensures RunBytes(Run(test, DEFAULT_CONFIG).value) == 1048576 == TotalAsWritten(DEFAULT_CONFIG)
  {
    assert Balanced(DEFAULT_CONFIG);
    RunWritesEverything(test, DEFAULT_CONFIG);
  }

  /** As written (`offset > size`), a worker that starts after block 0
      writes, in every repeat, a whole block at offset `size`, past the
      end of the object, and never writes block 0. */
  lemma AsWrittenWorkerWritesPastEnd(cfg: Config, start: nat)
    requires cfg.blockSize > 0 && 0 < start < cfg.size
    requires cfg.size % cfg.blockSize == 0 && start % cfg.blockSize == 0
    ensures Worker(WhenPast, cfg, start).Success?
    ensures forall c: seq<Write> :: c in Worker(WhenPast, cfg, start).value ==>
      && (cfg.size - start) / cfg.blockSize < |c|
      && c[(cfg.size - start) / cfg.blockSize] == Write(cfg.size, cfg.blockSize)
      && forall k :: 0 <= k < |c| ==> c[k].offset != 0
  {
    var ws := Cycle(WhenPast, start, cfg.size, cfg.blockSize);
    AsWrittenWritesPastEnd(start, cfg.size, cfg.blockSize, ws);
  }

  /** With the corrected test (`offset >= size`), every repeat of an
      aligned worker writes each block of the object exactly once, as
      whole blocks inside the object. */
  lemma WorkerCoversObject(cfg: Config, start: nat)
    requires cfg.blockSize > 0 && start < cfg.size
    requires cfg.size % cfg.blockSize == 0 && start % cfg.blockSize == 0
    ensures Worker(WhenReached, cfg, start).Success?
    ensures forall c: seq<Write> :: c in Worker(WhenReached, cfg, start).value ==>
      && |c| == cfg.size / cfg.blockSize
      && (forall k :: 0 <= k < |c| ==>
            c[k].count == cfg.blockSize && c[k].offset < cfg.size && c[k].offset % cfg.blockSize == 0)
      && (forall j, k :: 0 <= j < k < |c| ==> c[j].offset != c[k].offset)
      && (forall x :: 0 <= x < cfg.size && x % cfg.blockSize == 0 ==> WritesAt(c, x))
  {
    var ws := Cycle(WhenReached, start, cfg.size, cfg.blockSize);
    CycleCoversEveryBlock(start, cfg.size, cfg.blockSize, ws);
  }

  /** `--size 8 --block-size 4 --threads 2`: thread 1 starts at 4. As
      written it writes (4,4) then (8,4), past the end; corrected, (4,4)
      then (0,4). */
  lemma WorkerWrapExample()
    ensures Worker(WhenPast, Config(8, 4, 1, 2, false), StartOffset(1, 8, 2))
      == Success([[Write(4, 4), Write(8, 4)]])
    ensures Worker(WhenReached, Config(8, 4, 1, 2, false), StartOffset(1, 8, 2))
      == Success([[Write(4, 4), Write(0, 4)]])
  {
    assert StartOffset(1, 8, 2) == 4;
    WrapExample();
    assert Repeat(Cycle(WhenPast, 4, 8, 4), 1) == [Cycle(WhenPast, 4, 8, 4)];
    assert Repeat(Cycle(WhenReached, 4, 8, 4), 1) == [Cycle(WhenReached, 4, 8, 4)];
  }

  // ---------------------------------------------------------------------
  // The summary

  /** `cfg.size * cfg.repeats * cfg.threads` in `size_t`. */
  function TotalAsWritten(cfg: Config): (r: nat)
    ensures r < U64_LIMIT
    ensures cfg.size * cfg.repeats * cfg.threads < U64_LIMIT ==> r == cfg.size * cfg.repeats * cfg.threads
  {
    (cfg.size * cfg.repeats * cfg.threads) % U64_LIMIT
  }

  /** `(1000000LL * total) / duration.count()`: the product is taken in
      unsigned 64-bit arithmetic. */
  function RateAsWritten(total: nat, micros: nat): (r: nat)
    requires micros > 0
    ensures r < U64_LIMIT
  {
    ((1000000 * total) % U64_LIMIT) / micros
  }

  /** `(1000000LL * total / cfg.block_size) / duration.count()`. */
  function IopsAsWritten(total: nat, bs: nat, micros: nat): (r: nat)
    requires bs > 0 && micros > 0
    ensures r < U64_LIMIT
  {
    (((1000000 * total) % U64_LIMIT) / bs) / micros
  }

  datatype Stats = Stats(total: nat, rate: nat, iops: nat)

  /** The summary with exact arithmetic: bytes written, bytes per second
      and writes per second over `micros` microseconds of wall time. A
      zero duration, or a zero block size, is a failure rather than a
      division by zero. */
  function Report(cfg: Config, micros: nat): (r: Result<Stats, Abort>)
    ensures r.Failure? <==> micros == 0 || cfg.blockSize == 0
    ensures r.Success? ==> r.value.total == cfg.size * cfg.repeats * cfg.threads
    ensures r.Success? ==>
      r.value.rate * micros <= 1000000 * r.value.total < (r.value.rate + 1) * micros
    ensures r.Success? ==> r.value.iops == (1000000 * r.value.total) / (cfg.blockSize * micros)
  {
    if micros == 0 || cfg.blockSize == 0 then Failure(DivideByZero)
    else
      var total := cfg.size * cfg.repeats * cfg.threads;
      var rate := Quotient(1000000 * total, micros);
      var iops := Quotient(Quotient(1000000 * total, cfg.blockSize), micros);
      SummaryArithmetic(total, cfg.blockSize, micros);
      Success(Stats(total, rate, iops))
  }

  /** Floor division of byte counts. */
  function Quotient(x: nat, d: nat): nat
    requires d > 0
  {
    x / d
  }

  lemma SummaryArithmetic(total: nat, bs: nat, micros: nat)
    requires bs > 0 && micros > 0
    ensures (1000000 * total / micros) * micros <= 1000000 * total
    ensures 1000000 * total < (1000000 * total / micros + 1) * micros
    ensures (1000000 * total / bs) / micros == (1000000 * total) / (bs * micros)
  {
    DivDiv(1000000 * total, bs, micros);
    FloorDivBounds(1000000 * total, micros);
  }

  /** `x / d` is the largest multiplier of `d` that stays at or below `x`. */
  lemma FloorDivBounds(x: nat, d: nat)
    requires d > 0
    ensures (x / d) * d <= x < (x / d + 1) * d
  {
    assert (x / d) * d + x % d == x;
    assert (x / d + 1) * d == (x / d) * d + d;
  }

  /** While `1000000 * total` fits in 64 bits the source's summary is the
      exact one. */
  lemma ReportMatchesSource(cfg: Config, micros: nat)
    requires micros > 0 && cfg.blockSize > 0
    requires 1000000 * (cfg.size * cfg.repeats * cfg.threads) < U64_LIMIT
    ensures var total := TotalAsWritten(cfg);
      Report(cfg, micros) == Success(Stats(total, RateAsWritten(total, micros),
                                           IopsAsWritten(total, cfg.blockSize, micros)))
  {
    var product := cfg.size * cfg.repeats * cfg.threads;
    DivUnique(product, U64_LIMIT, 0, product);
    DivUnique(1000000 * product, U64_LIMIT, 0, 1000000 * product);
  }

  /** 32 TiB written in one second (`--size 1T --repeats 32`): the 64-bit
      product `1000000 * total` wraps and the source reports a rate far
      from 2^45 bytes per second, which the exact summary reports. */
  lemma RateWrapsAsWritten()
    ensures var cfg := Config(1099511627776, 4096, 32, 1, false);
      && TotalAsWritten(cfg) == 35184372088832
      && RateAsWritten(TotalAsWritten(cfg), 1000000) != 35184372088832
      && Report(cfg, 1000000).Success?
      && Report(cfg, 1000000).value.rate == 35184372088832
  {
  }

  /** 1 MiB in 4 KiB blocks over one second: 1048576 bytes per second and
      256 writes per second, as the source computes it too. */
  lemma DefaultSummary()
    ensures Report(DEFAULT_CONFIG, 1000000) == Success(Stats(1048576, 1048576, 256))
    ensures RateAsWritten(TotalAsWritten(DEFAULT_CONFIG), 1000000) == 1048576
    ensures IopsAsWritten(TotalAsWritten(DEFAULT_CONFIG), 4096, 1000000) == 256
  {
  }

  /** `--size 64K --block-size 16K --repeats 2 --threads 4`: every worker
      runs two cycles of four 16 KiB writes, and the run writes 512 KiB. */
  lemma SmallRun(test: WrapTest, cfg: Config)
    requires cfg == Config(65536, 16384, 2, 4, false)
    ensures Run(test, cfg).Success?
    ensures forall j :: 0 <= j < 4 ==>
      |Run(test, cfg).value[j]| == 2 && forall c :: c in Run(test, cfg).value[j] ==> |c| == 4
    ensures RunBytes(Run(test, cfg).value) == 524288
    ensures Report(cfg, 1000000).Success? && Report(cfg, 1000000).value.total == 524288
  {
    assert Balanced(cfg);
    RunWritesEverything(test, cfg);
    RunShape(test, cfg);
    BlocksIsCeiling(65536, 16384);
    var ws := Run(test, cfg).value;
    forall j | 0 <= j < 4
      ensures forall c :: c in ws[j] ==> |c| == 4
    {
      EmitLength(test, StartOffset(j, 65536, 4), 65536, 65536, 16384);
    }
  }
}
