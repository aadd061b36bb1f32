/** One write cycle of `osbench_worker`: the ordered block writes that
    cover the object's `size` bytes once, starting at the thread's offset
    and wrapping back into the object. */
module WriteCycle {
  import opened Common

  /** One `t->write(cid, oid, offset, count, data)` of a cycle. */
  datatype Write = Write(offset: nat, count: nat)

  /** The test that brings the running offset back into the object. */
  datatype WrapTest =
    | WhenPast     // `offset > size`, the test the worker is written with
    | WhenReached  // `offset >= size`, which wraps an offset equal to `size`

  function Wrap(test: WrapTest, x: nat, size: nat): nat {
    match test
    case WhenPast => if x > size then x - size else x
    case WhenReached => if x >= size then x - size else x
  }

  /** How many `min(len, bs)` pieces it takes to use up `len` bytes. */
  function Blocks(len: nat, bs: nat): nat
    requires bs > 0
    decreases len
  {
    if len == 0 then 0 else 1 + Blocks(len - Min(len, bs), bs)
  }

  function TotalCount(ws: seq<Write>): nat {
    if ws == [] then 0 else ws[0].count + TotalCount(ws[1..])
  }

  /** The number of pieces is ceil(len / bs). */
  lemma {:induction false} BlocksIsCeiling(len: nat, bs: nat)
    requires bs > 0
    ensures Blocks(len, bs) == (len + bs - 1) / bs
    decreases len
  {
    if len == 0 {
      DivUnique(bs - 1, bs, 0, bs - 1);
    } else if len <= bs {
      assert Blocks(0, bs) == 0;
      DivUnique(len + bs - 1, bs, 1, len - 1);
    } else {
      BlocksIsCeiling(len - bs, bs);
      CeilingStep(len - bs, bs);
    }
  }

  lemma CeilingStep(n: nat, bs: nat)
    requires bs > 0
    ensures (n + bs + bs - 1) / bs == (n + bs - 1) / bs + 1
  {
    DivUnique(n + bs + bs - 1, bs, (n + bs - 1) / bs + 1, (n + bs - 1) % bs);
  }

  lemma MulSucc(k: nat, bs: nat)
    requires k >= 1
    ensures (k - 1) * bs + bs == k * bs
  {
  }

  /** The inner `while (len)` loop from a running `offset` with `len` bytes
      still to write: each write takes `min(len, bs)` bytes, then the
      offset advances and is wrapped by `test`. */
  function Emit(test: WrapTest, offset: nat, len: nat, size: nat, bs: nat): (ws: seq<Write>)
    requires bs > 0
    decreases len
  {
    if len == 0 then []
    else
      var count := Min(len, bs);
      var rest := Emit(test, Wrap(test, offset + count, size), len - count, size, bs);
      [Write(offset, count)] + rest
  }

  /** A run makes one write per `min(len, bs)` piece. */
  lemma {:induction false} EmitLength(test: WrapTest, offset: nat, len: nat, size: nat, bs: nat)
    requires bs > 0
    ensures |Emit(test, offset, len, size, bs)| == Blocks(len, bs)
    decreases len
  {
    if len > 0 {
      EmitLength(test, NextOffset(test, offset, len, size, bs), len - Min(len, bs), size, bs);
    }
  }

  /** The writes of a run add up to the bytes it was asked to write. */
  lemma {:induction false} EmitTotal(test: WrapTest, offset: nat, len: nat, size: nat, bs: nat)
    requires bs > 0
    ensures TotalCount(Emit(test, offset, len, size, bs)) == len
    decreases len
  {
    if len > 0 {
      var count := Min(len, bs);
      var next := Wrap(test, offset + count, size);
      EmitTotal(test, next, len - count, size, bs);
      var ws := Emit(test, offset, len, size, bs);
      assert ws[1..] == Emit(test, next, len - count, size, bs);
    }
  }

  /** A full cycle: `size` bytes from `start`. */
  function Cycle(test: WrapTest, start: nat, size: nat, bs: nat): (ws: seq<Write>)
    requires bs > 0
  {
    Emit(test, start, size, size, bs)
  }

  /** Where the inner loop stands after its first write: the offset and
      the bytes still to go. */
  function NextOffset(test: WrapTest, offset: nat, len: nat, size: nat, bs: nat): nat {
    Wrap(test, offset + Min(len, bs), size)
  }

  /** One step of the inner loop: the first write, then the rest of the
      run from the advanced offset. */
  lemma EmitStep(test: WrapTest, offset: nat, len: nat, size: nat, bs: nat, k: nat)
    requires bs > 0 && len > 0
    ensures |Emit(test, offset, len, size, bs)| ==
            |Emit(test, NextOffset(test, offset, len, size, bs), len - Min(len, bs), size, bs)| + 1
    ensures Emit(test, offset, len, size, bs)[0] == Write(offset, Min(len, bs))
    ensures 0 < k < |Emit(test, offset, len, size, bs)| ==>
      && len > bs
      && Emit(test, offset, len, size, bs)[k] ==
         Emit(test, NextOffset(test, offset, len, size, bs), len - bs, size, bs)[k - 1]
  {
  }

  /** `k * bs`, counted out block by block as the loop advances. */
  function Advance(k: nat, bs: nat): nat {
    if k == 0 then 0 else Advance(k - 1, bs) + bs
  }

  lemma {:induction false} AdvanceIsProduct(k: nat, bs: nat)
    ensures Advance(k, bs) == k * bs
    decreases k
  {
    if k > 0 {
      AdvanceIsProduct(k - 1, bs);
      MulSucc(k, bs);
    }
  }

  /** The k-th write takes `min(bs, remaining)` bytes, where `remaining`
      is what the k writes before it left. */
  lemma {:induction false} CountAt(test: WrapTest, offset: nat, len: nat, size: nat, bs: nat, k: nat)
    requires bs > 0 && k < |Emit(test, offset, len, size, bs)|
    ensures Advance(k, bs) < len
    ensures Emit(test, offset, len, size, bs)[k].count == Min(bs, len - Advance(k, bs))
    decreases k
  {
    assert len > 0;
    EmitStep(test, offset, len, size, bs, k);
    if k > 0 {
      CountAt(test, NextOffset(test, offset, len, size, bs), len - bs, size, bs, k - 1);
    }
  }

  /** The offsets in closed form: the k-th write starts at `a + k*bs`
      brought back into the object by one application of the wrap test,
      as long as the whole run stays below twice the object size. */
  lemma {:induction false} OffsetAt(test: WrapTest, a: nat, offset: nat, len: nat, size: nat, bs: nat, k: nat)
    requires bs > 0 && k < |Emit(test, offset, len, size, bs)|
    requires offset == Wrap(test, a, size)
    requires a + len <= 2 * size
    ensures Emit(test, offset, len, size, bs)[k].offset == Wrap(test, a + Advance(k, bs), size)
    decreases k
  {
    assert len > 0;
    EmitStep(test, offset, len, size, bs, k);
    if k > 0 {
      WrapStep(test, a, offset, bs, size);
      OffsetAt(test, a + bs, NextOffset(test, offset, len, size, bs), len - bs, size, bs, k - 1);
    }
  }

  /** Advancing a wrapped offset and wrapping again is wrapping the
      advanced position once, while that position stays below twice the
      size. */
  lemma WrapStep(test: WrapTest, a: nat, offset: nat, bs: nat, size: nat)
    requires offset == Wrap(test, a, size)
    requires a + bs < 2 * size
    ensures Wrap(test, offset + bs, size) == Wrap(test, a + bs, size)
  {
  }

  /** Everything the two closed forms say about one cycle, gathered so
      that the lemmas below can work from them alone. */
  lemma CycleFacts(test: WrapTest, start: nat, size: nat, bs: nat, ws: seq<Write>)
    requires bs > 0 && start <= size
    requires test == WhenReached ==> start < size
    requires ws == Cycle(test, start, size, bs)
    ensures |ws| == (size + bs - 1) / bs
    ensures TotalCount(ws) == size
    ensures forall k :: 0 <= k < |ws| ==> k * bs < size
    ensures forall k :: 0 <= k < |ws| ==> ws[k].count == Min(bs, size - k * bs)
    ensures forall k :: 0 <= k < |ws| ==> ws[k].offset == Wrap(test, start + k * bs, size)
  {
    BlocksIsCeiling(size, bs);
    EmitLength(test, start, size, size, bs);
    EmitTotal(test, start, size, size, bs);
    forall k | 0 <= k < |ws|
      ensures k * bs < size && ws[k].count == Min(bs, size - k * bs)
      ensures ws[k].offset == Wrap(test, start + k * bs, size)
    {
      CountAt(test, start, size, size, bs, k);
      OffsetAt(test, start, start, size, size, bs, k);
      AdvanceIsProduct(k, bs);
    }
  }

  /** The last of ceil(size / bs) pieces holds `size % bs` bytes, or a
      whole block when `bs` divides `size`. */
  lemma LastPiece(size: nat, bs: nat)
    requires bs > 0 && size > 0
    ensures (size + bs - 1) / bs >= 1
    ensures ((size + bs - 1) / bs - 1) * bs < size
    ensures size - ((size + bs - 1) / bs - 1) * bs == if size % bs == 0 then bs else size % bs
  {
    var q := size / bs;
    var r := size % bs;
    if r == 0 {
      DivUnique(size + bs - 1, bs, q, bs - 1);
      assert (q - 1) * bs + bs == q * bs;
    } else {
      DivUnique(size + bs - 1, bs, q + 1, r - 1);
    }
  }

  /** The last write of a cycle carries `size % bs` bytes, or a whole
      block when the size is a multiple of the block size. */
  lemma LastBlock(test: WrapTest, start: nat, size: nat, bs: nat, ws: seq<Write>)
    requires bs > 0 && 0 < size && start < size
    requires ws == Cycle(test, start, size, bs)
    ensures |ws| > 0
    ensures ws[|ws| - 1].count == if size % bs == 0 then bs else size % bs
  {
    CycleFacts(test, start, size, bs, ws);
    LastPiece(size, bs);
    var k := |ws| - 1;
    assert ws[k].count == Min(bs, size - k * bs);
  }

  /** The cycle as the worker writes it: the k-th write starts at
      `start + k*bs`, reduced by `size` only when that is strictly past
      `size`, so every offset lies in `[0, size]` and may equal `size`. */
  lemma CycleAsWrittenOffsets(start: nat, size: nat, bs: nat, ws: seq<Write>)
    requires bs > 0 && start < size
    requires ws == Cycle(WhenPast, start, size, bs)
    ensures forall k :: 0 <= k < |ws| ==>
      && (start + k * bs <= size ==> ws[k].offset == start + k * bs)
      && (start + k * bs > size ==> ws[k].offset == start + k * bs - size)
      && ws[k].offset <= size
  {
    CycleFacts(WhenPast, start, size, bs, ws);
  }

  lemma WrapReachedIsMod(x: nat, size: nat)
    requires 0 < size && x < 2 * size
    ensures Wrap(WhenReached, x, size) == x % size
  {
    if x >= size {
      DivUnique(x, size, 1, x - size);
    } else {
      DivUnique(x, size, 0, x);
    }
  }

  /** With the wrap at `offset >= size` the k-th write starts at
      `(start + k*bs) % size`, always inside the object. */
  lemma CycleReachedOffsets(start: nat, size: nat, bs: nat, ws: seq<Write>)
    requires bs > 0 && start < size
    requires ws == Cycle(WhenReached, start, size, bs)
    ensures forall k :: 0 <= k < |ws| ==> ws[k].offset == (start + k * bs) % size < size
  {
    CycleFacts(WhenReached, start, size, bs, ws);
    forall k | 0 <= k < |ws| ensures ws[k].offset == (start + k * bs) % size {
      WrapReachedIsMod(start + k * bs, size);
    }
  }

  /** Some write of `ws` starts at byte `x`. */
  ghost predicate WritesAt(ws: seq<Write>, x: nat) {
    exists k :: 0 <= k < |ws| && ws[k].offset == x
  }

  /** The block the k-th write covers when a cycle over `n` blocks starts
      at block `s`. */
  function BlockIndex(s: nat, k: nat, n: nat): nat {
    if s + k < n then s + k else s + k - n
  }

  /** The arithmetic of one aligned write: with `start = s*bs` and
      `size = n*bs`, the k-th write (k < n) is a whole block, at block
      `BlockIndex(s, k, n)` when wrapped at `>=`; wrapped at `>` it is
      never at 0, and it is at `size` for k = n - s. */
  lemma AlignedWrite(s: nat, k: nat, n: nat, bs: nat)
    requires bs > 0 && s < n && k < n
    ensures k * bs < n * bs
    ensures Min(bs, n * bs - k * bs) == bs
    ensures BlockIndex(s, k, n) < n
    ensures Wrap(WhenReached, s * bs + k * bs, n * bs) == BlockIndex(s, k, n) * bs
    ensures s > 0 ==> Wrap(WhenPast, s * bs + k * bs, n * bs) != 0
    ensures s + k == n ==> Wrap(WhenPast, s * bs + k * bs, n * bs) == n * bs
  {
    AtLeastNextMultiple(k, n, bs);
    assert n * bs - k * bs == (n - k) * bs;
    assert s * bs + k * bs == (s + k) * bs;
    if s + k < n {
      MulLess(s + k, n, bs);
    } else {
      assert (s + k) * bs - n * bs == (s + k - n) * bs;
      if s + k > n {
        MulLess(n, s + k, bs);
        MulLess(0, s + k - n, bs);
      }
    }
    if s > 0 {
      MulLess(0, s, bs);
    }
  }

  /** Distinct block indices start at distinct offsets. */
  lemma DistinctBlocks(b1: nat, b2: nat, bs: nat)
    requires bs > 0 && b1 != b2
    ensures b1 * bs != b2 * bs
  {
    if b1 < b2 { MulLess(b1, b2, bs); } else { MulLess(b2, b1, bs); }
  }

  lemma BlockIndexInjective(s: nat, j: nat, k: nat, n: nat)
    requires s < n && j < k < n
    ensures BlockIndex(s, j, n) != BlockIndex(s, k, n)
  {
  }

  /** Every block `b` of the object is the block of the write at index
      `Preimage(s, b, n)`. */
  function Preimage(s: nat, b: nat, n: nat): (k: nat)
    requires s < n && b < n
    ensures k < n && BlockIndex(s, k, n) == b
  {
    if b >= s then b - s else b + n - s
  }

  /** A block-aligned offset inside an object of `n` blocks is the start
      of one of those blocks. */
  lemma AlignedOffset(x: nat, n: nat, bs: nat)
    requires bs > 0 && x < n * bs && x % bs == 0
    ensures x / bs < n && x == (x / bs) * bs
  {
    var b := x / bs;
    if b >= n {
      if b > n { MulLess(n, b, bs); }
      assert false;
    }
  }

  lemma AlignedFacts(start: nat, size: nat, bs: nat)
    requires bs > 0 && start < size && size % bs == 0 && start % bs == 0
    ensures size == (size / bs) * bs && start == (start / bs) * bs
    ensures start / bs < size / bs
    ensures (size + bs - 1) / bs == size / bs
    ensures (size - start) / bs == size / bs - start / bs
  {
    var n := size / bs;
    var s := start / bs;
    assert size == n * bs && start == s * bs;
    AlignedOffset(start, n, bs);
    DivUnique(size + bs - 1, bs, n, bs - 1);
    assert size - start == (n - s) * bs;
    DivUnique(size - start, bs, n - s, 0);
  }

  /** When block size divides both the object size and the start, the
      k-th write of a wrap-when-reached cycle covers block `BlockIndex`,
      whole. */
  lemma CycleReachedBlocks(start: nat, size: nat, bs: nat, ws: seq<Write>)
    requires bs > 0 && start < size && size % bs == 0 && start % bs == 0
    requires ws == Cycle(WhenReached, start, size, bs)
    ensures |ws| == size / bs
    ensures forall k :: 0 <= k < |ws| ==>
      && BlockIndex(start / bs, k, size / bs) < size / bs
      && ws[k].offset == BlockIndex(start / bs, k, size / bs) * bs
      && ws[k].count == bs
  {
    var n := size / bs;
    var s := start / bs;
    AlignedFacts(start, size, bs);
    CycleFacts(WhenReached, start, size, bs, ws);
    forall k | 0 <= k < |ws|
      ensures BlockIndex(s, k, n) < n
      ensures ws[k].offset == BlockIndex(s, k, n) * bs
      ensures ws[k].count == bs
    {
      AlignedWrite(s, k, n, bs);
    }
  }

  /** With the wrap at `offset >= size`, an aligned cycle writes every
      block of the object exactly once: each write is one whole block
      inside the object, no two writes share a block, and every block is
      written. */
  lemma CycleCoversEveryBlock(start: nat, size: nat, bs: nat, ws: seq<Write>)
    requires bs > 0 && start < size && size % bs == 0 && start % bs == 0
    requires ws == Cycle(WhenReached, start, size, bs)
    ensures |ws| == size / bs
    ensures forall k :: 0 <= k < |ws| ==>
      ws[k].count == bs && ws[k].offset < size && ws[k].offset % bs == 0
    ensures forall j, k :: 0 <= j < k < |ws| ==> ws[j].offset != ws[k].offset
    ensures forall x :: 0 <= x < size && x % bs == 0 ==> WritesAt(ws, x)
  {
    var n := size / bs;
    var s := start / bs;
    AlignedFacts(start, size, bs);
    CycleReachedBlocks(start, size, bs, ws);
    forall k | 0 <= k < |ws|
      ensures ws[k].offset < size && ws[k].offset % bs == 0
    {
      var b := BlockIndex(s, k, n);
      MulLess(b, n, bs);
      DivUnique(b * bs, bs, b, 0);
    }
    forall j, k | 0 <= j < k < |ws|
      ensures ws[j].offset != ws[k].offset
    {
      BlockIndexInjective(s, j, k, n);
      DistinctBlocks(BlockIndex(s, j, n), BlockIndex(s, k, n), bs);
    }
    forall x | 0 <= x < size && x % bs == 0
      ensures WritesAt(ws, x)
    {
      AlignedOffset(x, n, bs);
      var k := Preimage(s, x / bs, n);
      assert ws[k].offset == x;
    }
  }

  /** As written, a cycle that starts after block 0 reaches `offset ==
      size` without wrapping: it writes one block past the end of the
      object and never writes block 0, though it still writes `size`
      bytes. */
  lemma AsWrittenWritesPastEnd(start: nat, size: nat, bs: nat, ws: seq<Write>)
    requires bs > 0 && 0 < start < size && size % bs == 0 && start % bs == 0
    requires ws == Cycle(WhenPast, start, size, bs)
    ensures TotalCount(ws) == size
    ensures (size - start) / bs < |ws| && ws[(size - start) / bs] == Write(size, bs)
    ensures forall k :: 0 <= k < |ws| ==> ws[k].offset != 0
  {
    var n := size / bs;
    var s := start / bs;
    AlignedFacts(start, size, bs);
    CycleFacts(WhenPast, start, size, bs, ws);
    AsWrittenAligned(s, n, bs, ws);
  }

  /** The aligned as-written cycle, read from its closed form alone. */
  lemma AsWrittenAligned(s: nat, n: nat, bs: nat, ws: seq<Write>)
    requires bs > 0 && 0 < s < n && |ws| == n
    requires forall k :: 0 <= k < |ws| ==> k * bs < n * bs && ws[k].count == Min(bs, n * bs - k * bs)
    requires forall k :: 0 <= k < |ws| ==> ws[k].offset == Wrap(WhenPast, s * bs + k * bs, n * bs)
    ensures ws[n - s] == Write(n * bs, bs)
    ensures forall k :: 0 <= k < |ws| ==> ws[k].offset != 0
  {
    forall k | 0 <= k < |ws| ensures ws[k].offset != 0 {
      AlignedWrite(s, k, n, bs);
    }
    AlignedWrite(s, n - s, n, bs);
  }

  /** A size of 8 and a block of 4 from offset 4: as written the second
      write lands at 8, past the object; with the wrap at `>=` it lands
      at 0. */
  lemma WrapExample()
    ensures Cycle(WhenPast, 4, 8, 4) == [Write(4, 4), Write(8, 4)]
    ensures Cycle(WhenReached, 4, 8, 4) == [Write(4, 4), Write(0, 4)]
  {
    assert Blocks(4, 4) == 1;
    assert Blocks(0, 4) == 0;
  }
}
