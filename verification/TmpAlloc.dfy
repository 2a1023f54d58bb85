/** The mark/release allocator of tal-notreent.c: a stack of chunks, a bump pointer
    in the topmost one, and totals that make a new chunk outgrow everything before. */
module TmpAlloc {
  import opened Arith

  /** __TMP_ALIGN and the rounded size of a chunk header on a 64-bit machine. */
  const TMP_ALIGN: nat := 8
  const HSIZ: nat := 24

  /** A struct tmp_stack at address start. */
  datatype Chunk = Chunk(start: nat, end: nat, allocPoint: nat)

  /** An allocated block, with the height of its chunk in the stack. */
  datatype Block = Block(chunk: nat, addr: nat, size: nat)

  /** A struct tmp_marker. */
  datatype Marker = Marker(whichChunk: nat, allocPoint: nat)

  /** What a mark stands for: the whole state when it was taken. */
  datatype Snapshot = Snapshot(chunks: seq<Chunk>, live: seq<Block>)

  /** The first usable address of the i-th chunk; the bottom one is the static
      header xxx, which is empty. */
  function Base(i: nat, c: Chunk): nat {
    if i == 0 then c.start else c.start + HSIZ
  }

  function Usable(i: nat, c: Chunk): int {
    c.end - Base(i, c)
  }

  /** The sum of the usable sizes of the first n chunks. */
  function UsableTotal(chunks: seq<Chunk>, n: nat): int
    requires n <= |chunks|
  {
    if n == 0 then 0 else UsableTotal(chunks, n - 1) + Usable(n - 1, chunks[n - 1])
  }

  lemma {:induction false} UsableTotalSame(a: seq<Chunk>, b: seq<Chunk>, n: nat)
    requires n <= |a| && n <= |b|
    requires forall i :: 0 <= i < n ==> a[i].start == b[i].start && a[i].end == b[i].end
    ensures UsableTotal(a, n) == UsableTotal(b, n)
    decreases n
  {
    if n > 0 { UsableTotalSame(a, b, n - 1); }
  }

  predicate Apart(c: Chunk, d: Chunk) {
    c.start != d.start && (c.end <= d.start || d.end <= c.start)
  }

  predicate GoodChunk(i: nat, c: Chunk) {
    && (i == 0 ==> c.end == c.start)
    && Base(i, c) <= c.allocPoint <= c.end
    && c.start % TMP_ALIGN == 0 && c.end % TMP_ALIGN == 0 && c.allocPoint % TMP_ALIGN == 0
  }

  predicate GoodChunks(chunks: seq<Chunk>) {
    && 1 <= |chunks|
    && (forall i :: 0 <= i < |chunks| ==> GoodChunk(i, chunks[i]))
    && (forall i, j :: 0 <= i < j < |chunks| ==> Apart(chunks[i], chunks[j]))
  }

  /** A live block is aligned and lies in the used part of its chunk. */
  predicate InChunk(b: Block, chunks: seq<Chunk>) {
    && b.chunk < |chunks| && b.addr % TMP_ALIGN == 0 && b.size % TMP_ALIGN == 0
    && Base(b.chunk, chunks[b.chunk]) <= b.addr && b.addr + b.size <= chunks[b.chunk].allocPoint
  }

  /** Blocks allocated in this order do not overlap. */
  predicate Disjoint(a: Block, b: Block) {
    a.addr + a.size <= b.addr || b.addr + b.size <= a.addr
  }

  predicate GoodBlocks(live: seq<Block>, chunks: seq<Chunk>) {
    && (forall k :: 0 <= k < |live| ==> InChunk(live[k], chunks))
    && (forall k, l :: 0 <= k < l < |live| ==> Disjoint(live[k], live[l]))
  }

  /** The state now grew out of snapshot s without releasing anything of it. */
  predicate Extends(s: Snapshot, chunks: seq<Chunk>, live: seq<Block>) {
    && 1 <= |s.chunks| <= |chunks| && |s.live| <= |live|
    && s.live == live[..|s.live|]
    && (forall i :: 0 <= i < |s.chunks| - 1 ==> s.chunks[i] == chunks[i])
    && var top := |s.chunks| - 1;
      s.chunks[top] == chunks[top].(allocPoint := s.chunks[top].allocPoint)
  }

  predicate GoodSnapshot(s: Snapshot) {
    GoodChunks(s.chunks) && GoodBlocks(s.live, s.chunks)
  }

  lemma ExtendsTrans(s: Snapshot, t: Snapshot, chunks: seq<Chunk>, live: seq<Block>)
    requires Extends(s, t.chunks, t.live) && Extends(t, chunks, live)
    ensures Extends(s, chunks, live)
  {
    assert s.live == live[..|s.live|];
  }

  // ----- the totals

  /** now * 3 / 2, rounded up to a multiple of the alignment. */
  lemma NewTotalFits(current: nat, max: nat, size: nat)
    requires current % TMP_ALIGN == 0 && max % TMP_ALIGN == 0 && size % TMP_ALIGN == 0 && current <= max
    ensures var now := current + size;
      var grown := (now * 3 / 2 + TMP_ALIGN - 1) / TMP_ALIGN * TMP_ALIGN;
      now <= grown && 2 * grown >= 3 * now && grown % TMP_ALIGN == 0
  {
    var now, j := current + size, current / TMP_ALIGN + size / TMP_ALIGN;
    assert now == TMP_ALIGN * j;
    DivModUnique(now * 3, 2, 12 * j, 0);
    RoundUp(12 * j);
  }

  lemma RoundUp(x: nat)
    ensures var r := (x + TMP_ALIGN - 1) / TMP_ALIGN * TMP_ALIGN; x <= r && r % TMP_ALIGN == 0
  {
    var k := (x + TMP_ALIGN - 1) / TMP_ALIGN;
    DivModUnique(k * TMP_ALIGN, TMP_ALIGN, k, 0);
  }

  const WORD: nat := 0x1_0000_0000_0000_0000

  /** The total after making a chunk for size. */
  function GrownTotal(current: nat, max: nat, size: nat): nat {
    var now := current + size;
    if now > max then (now * 3 / 2 + TMP_ALIGN - 1) / TMP_ALIGN * TMP_ALIGN else max
  }

  /** The same and the size of the chunk as unsigned long computes them. */
  function GrownTotalInWords(current: nat, max: nat, size: nat): nat {
    var now := (current + size) % WORD;
    if now > max then (now * 3 % WORD / 2 + TMP_ALIGN - 1) % WORD / TMP_ALIGN * TMP_ALIGN else max
  }

  function ChunkSizeInWords(current: nat, max: nat, size: nat): int {
    (GrownTotalInWords(current, max, size) - current + HSIZ) % WORD
  }

  /** Word arithmetic gives the exact total and chunk size if and only if the request
      fits under the maximum or three times the new total fits a word; the maximum
      then stays below the bound that this needs. */
  lemma TotalsExactIff(current: nat, max: nat, size: nat)
    requires current <= max <= WORD - 2 * HSIZ && size < WORD
    ensures GrownTotalInWords(current, max, size) == GrownTotal(current, max, size)
      && ChunkSizeInWords(current, max, size) == GrownTotal(current, max, size) - current + HSIZ
      <==> current + size <= max || 3 * (current + size) < WORD
    ensures current + size <= max || 3 * (current + size) < WORD ==>
      current <= GrownTotal(current, max, size) <= WORD - 2 * HSIZ
  {
    var now := current + size;
    if now <= max {
      SmallMod(now, WORD);
      SmallMod(max - current + HSIZ, WORD);
    } else if 3 * now < WORD {
      SmallMod(now, WORD);
      SmallMod(now * 3, WORD);
      SmallMod(now * 3 / 2 + TMP_ALIGN - 1, WORD);
      RoundUpWithin(now * 3 / 2);
      SmallMod(GrownTotal(current, max, size) - current + HSIZ, WORD);
    } else {
      WrappedTotalSmaller(current, max, size);
    }
  }

  lemma RoundUpWithin(x: nat)
    ensures x <= (x + TMP_ALIGN - 1) / TMP_ALIGN * TMP_ALIGN <= x + TMP_ALIGN - 1
  {
  }

  lemma WrappedTotalSmaller(current: nat, max: nat, size: nat)
    requires current <= max < WORD && size < WORD && max < current + size && WORD <= 3 * (current + size)
    ensures GrownTotalInWords(current, max, size) < GrownTotal(current, max, size)
  {
    var now := current + size;
    RoundUpWithin(now * 3 / 2);
    if now >= WORD {
      ModAddMul(now - WORD, 1, WORD);
      SmallMod(now - WORD, WORD);
    } else {
      SmallMod(now, WORD);
      var w := now * 3 % WORD;
      ModMod(now * 3, WORD);
      WrappedTriple(now, w);
      SmallMod(w / 2 + TMP_ALIGN - 1, WORD);
      RoundUpWithin(w / 2);
    }
  }

  /** Three times a word loses at least one word when it wraps. */
  lemma WrappedTriple(now: nat, w: nat)
    requires now < WORD <= 3 * now && w == now * 3 % WORD
    ensures w <= 3 * now - WORD
  {
  }

  lemma StretchGrows(stretch: nat, first: nat, oldMax: nat, newMax: nat)
    requires stretch >= 1 ==>
      2 * newMax >= 3 * oldMax && Pow(2, stretch - 1) * oldMax >= Pow(3, stretch - 1) * first
    ensures stretch >= 1 ==> Pow(2, stretch) * newMax >= Pow(3, stretch) * first
    ensures Pow(2, 0) * newMax >= Pow(3, 0) * newMax
  {
    if stretch >= 1 {
      var x, y := Pow(2, stretch - 1), Pow(3, stretch - 1);
      PowPositive(2, stretch - 1);
      MulMono(3 * oldMax, 2 * newMax, x);
      assert (3 * oldMax) * x == 3 * (x * oldMax) && (2 * newMax) * x == (2 * x) * newMax;
      assert Pow(3, stretch) * first == 3 * (y * first);
    }
  }

  lemma {:induction false} TotalMultiple(chunks: seq<Chunk>, n: nat)
    requires n <= |chunks| && forall i :: 0 <= i < |chunks| ==> GoodChunk(i, chunks[i])
    ensures 0 <= UsableTotal(chunks, n) && UsableTotal(chunks, n) % TMP_ALIGN == 0
    decreases n
  {
    if n > 0 {
      TotalMultiple(chunks, n - 1);
      assert GoodChunk(n - 1, chunks[n - 1]);
    }
  }

  lemma {:induction false} TotalMonotone(chunks: seq<Chunk>, n: nat, m: nat)
    requires n <= m <= |chunks| && forall i :: 0 <= i < |chunks| ==> GoodChunk(i, chunks[i])
    ensures UsableTotal(chunks, n) <= UsableTotal(chunks, m)
    decreases m
  {
    if n < m {
      TotalMonotone(chunks, n, m - 1);
      assert GoodChunk(m - 1, chunks[m - 1]);
    }
  }

  // ----- blocks and snapshots

  /** Blocks stay good when the topmost chunk hands out another one. */
  lemma BlocksAfterBump(live: seq<Block>, before: seq<Chunk>, after: seq<Chunk>, b: Block)
    requires GoodChunks(before) && GoodBlocks(live, before) && GoodChunks(after)
    requires var n := |before|;
      after == before[n - 1 := before[n - 1].(allocPoint := b.addr + b.size)]
      && b.chunk == n - 1 && b.addr == before[n - 1].allocPoint && b.size % TMP_ALIGN == 0
    ensures GoodBlocks(live + [b], after)
  {
    var n, now := |before|, live + [b];
    assert GoodChunk(n - 1, before[n - 1]) && GoodChunk(n - 1, after[n - 1]);
    forall k | 0 <= k < |now|
      ensures InChunk(now[k], after)
    {
      if k < |live| { assert InChunk(live[k], before); }
    }
    forall k, l | 0 <= k < l < |now|
      ensures Disjoint(now[k], now[l])
    {
      if l < |live| {
        assert Disjoint(live[k], live[l]);
      } else {
        assert InChunk(live[k], before);
        var i := live[k].chunk;
        assert GoodChunk(i, before[i]);
        if i < n - 1 { assert Apart(before[i], before[n - 1]); }
      }
    }
  }

  /** Moving the bump pointer of the topmost chunk. */
  lemma TopStaysApart(before: seq<Chunk>, after: seq<Chunk>)
    requires GoodChunks(before) && |after| == |before|
    requires forall i :: 0 <= i < |after| ==>
      GoodChunk(i, after[i]) && after[i].start == before[i].start && after[i].end == before[i].end
    ensures GoodChunks(after)
  {
    forall i, j | 0 <= i < j < |after| ensures Apart(after[i], after[j]) {
      assert Apart(before[i], before[j]);
    }
  }

  /** Popping until the marked chunk is on top leaves as many chunks as there were. */
  lemma SameHeight(s: Snapshot, before: seq<Chunk>, live: seq<Block>, h: nat)
    requires Extends(s, before, live) && GoodChunks(before) && |s.chunks| <= h <= |before|
    requires before[h - 1].start == s.chunks[|s.chunks| - 1].start
    ensures h == |s.chunks|
  {
    var t, u := |s.chunks| - 1, h - 1;
    if t < u { DifferentStarts(before, t, u); }
  }

  lemma DifferentStarts(chunks: seq<Chunk>, i: nat, j: nat)
    requires GoodChunks(chunks) && i < j < |chunks|
    ensures chunks[i].start != chunks[j].start
  {
    assert Apart(chunks[i], chunks[j]);
  }

  // ----- the parts of the invariant

  predicate GoodTotals(chunks: seq<Chunk>, currentTotal: nat, maxTotal: nat) {
    && currentTotal == UsableTotal(chunks, |chunks|) && currentTotal <= maxTotal
    && currentTotal % TMP_ALIGN == 0 && maxTotal % TMP_ALIGN == 0
  }

  predicate GoodMarks(marks: seq<Snapshot>, chunks: seq<Chunk>, live: seq<Block>) {
    && (forall k :: 0 <= k < |marks| ==> GoodSnapshot(marks[k]) && Extends(marks[k], chunks, live))
    && (forall k, l :: 0 <= k < l < |marks| ==> Extends(marks[k], marks[l].chunks, marks[l].live))
  }

  /** The chunks above the bottom one are the stretches of memory that were asked for,
      each with its address and the size of the request. */
  predicate GoodRequests(asked: seq<(nat, int)>, chunks: seq<Chunk>) {
    && |chunks| == |asked| + 1
    && forall i :: 0 <= i < |asked| ==> asked[i] == (chunks[i + 1].start, chunks[i + 1].end - chunks[i + 1].start)
  }

  lemma RequestAdded(asked: seq<(nat, int)>, chunks: seq<Chunk>, c: Chunk, size: int)
    requires GoodRequests(asked, chunks) && size == c.end - c.start
    ensures GoodRequests(asked + [(c.start, size)], chunks + [c])
  {
  }

  lemma RequestsKept(asked: seq<(nat, int)>, chunks: seq<Chunk>, n: nat, chunks': seq<Chunk>)
    requires GoodRequests(asked, chunks) && 1 <= n == |chunks'| <= |chunks|
    requires forall i :: 0 <= i < n ==> chunks'[i].start == chunks[i].start && chunks'[i].end == chunks[i].end
    ensures GoodRequests(asked[..n - 1], chunks')
  {
  }

  /** Every chunk after the first in a stretch without release has multiplied the
      maximum by at least 3/2. */
  predicate GoodStretch(stretch: nat, first: nat, currentTotal: nat, maxTotal: nat) {
    stretch >= 1 ==> currentTotal == maxTotal && Pow(2, stretch - 1) * maxTotal >= Pow(3, stretch - 1) * first
  }

  lemma UsableTotalNext(chunks: seq<Chunk>, n: nat)
    requires n < |chunks|
    ensures UsableTotal(chunks, n + 1) == UsableTotal(chunks, n) + Usable(n, chunks[n])
  {
  }

  lemma PushChunk(chunks: seq<Chunk>, live: seq<Block>, c: Chunk)
    requires GoodChunks(chunks) && GoodBlocks(live, chunks) && GoodChunk(|chunks|, c)
    requires forall i :: 0 <= i < |chunks| ==> Apart(chunks[i], c)
    ensures GoodChunks(chunks + [c]) && GoodBlocks(live, chunks + [c])
    ensures UsableTotal(chunks + [c], |chunks| + 1) == UsableTotal(chunks, |chunks|) + (c.end - c.start - 24)
  {
    hide UsableTotal, Disjoint, Apart;
    UsableTotalSame(chunks, chunks + [c], |chunks|);
    UsableTotalNext(chunks + [c], |chunks|);
    forall k | 0 <= k < |live| ensures InChunk(live[k], chunks + [c]) { assert InChunk(live[k], chunks); }
  }

  lemma MarksKept(marks: seq<Snapshot>, chunks: seq<Chunk>, live: seq<Block>, chunks': seq<Chunk>, live': seq<Block>)
    requires 1 <= |chunks| && GoodMarks(marks, chunks, live) && Extends(Snapshot(chunks, live), chunks', live')
    ensures GoodMarks(marks, chunks', live')
  {
    forall k | 0 <= k < |marks| ensures Extends(marks[k], chunks', live') {
      ExtendsTrans(marks[k], Snapshot(chunks, live), chunks', live');
    }
  }

  lemma ExtendsPush(chunks: seq<Chunk>, live: seq<Block>, c: Chunk)
    requires 1 <= |chunks|
    ensures Extends(Snapshot(chunks, live), chunks + [c], live)
  {
    assert live[..|live|] == live;
  }

  lemma HeaderGood(chunk: nat, total: nat, max: nat, header: Chunk, n: nat)
    requires chunk % TMP_ALIGN == 0 && total % TMP_ALIGN == 0 && max % TMP_ALIGN == 0 && total <= max && 1 <= n
    requires header == Chunk(chunk, chunk + (max - total + HSIZ), chunk + HSIZ)
    ensures GoodChunk(n, header) && Usable(n, header) == max - total
  {
  }

  lemma MarksDropped(marks: seq<Snapshot>, k: nat, chunks: seq<Chunk>, live: seq<Block>)
    requires k < |marks| && GoodMarks(marks, chunks, live)
    ensures GoodMarks(marks[..k], marks[k].chunks, marks[k].live)
  {
  }

  class TmpStack {
    var chunks: seq<Chunk>
    var currentTotal: nat
    var maxTotal: nat
    /** Live blocks in order of allocation, and the states at the outstanding marks. */
    ghost var live: seq<Block>
    ghost var marks: seq<Snapshot>
    /** The address and the size of every request to the memory function that has not
        been given back. */
    ghost var asked: seq<(nat, int)>
    /** Chunks made since the last release, and the maximum after the first of them. */
    ghost var stretch: nat
    ghost var stretchMax: nat

    ghost predicate Valid()
      reads this
    {
      && GoodChunks(chunks) && GoodBlocks(live, chunks) && GoodTotals(chunks, currentTotal, maxTotal)
      && GoodMarks(marks, chunks, live) && GoodRequests(asked, chunks)
      && GoodStretch(stretch, stretchMax, currentTotal, maxTotal)
    }

    constructor (xxx: nat)
      requires xxx % TMP_ALIGN == 0
      ensures Valid() && chunks == [Chunk(xxx, xxx, xxx)] && live == [] && marks == [] && asked == []
      ensures currentTotal == 0 && maxTotal == 0
    {
      chunks := [Chunk(xxx, xxx, xxx)];
      currentTotal, maxTotal, live, marks, asked, stretch, stretchMax := 0, 0, [], [], [], 0, 0;
    }

    /** Whether the current chunk is too small. */
    predicate NeedsChunk(size: nat)
      requires 1 <= |chunks|
      reads this
    {
      var top := chunks[|chunks| - 1];
      size > top.end - top.allocPoint
    }

    /** The total after making a chunk for size. */
    function NewTotal(size: nat): nat
      reads this
    {
      GrownTotal(currentTotal, maxTotal, size)
    }

    /** What the memory function may return: an aligned stretch away from all chunks. */
    predicate FreshMemory(chunk: nat, size: nat)
      reads this
    {
      && chunk % TMP_ALIGN == 0
      && forall i :: 0 <= i < |chunks| ==> Apart(chunks[i], Chunk(chunk, chunk + size, chunk + HSIZ))
    }

    /** The branch of __gmp_tmp_alloc that gets memory. */
    method Grow(size: nat, chunk: nat)
      requires Valid() && size % TMP_ALIGN == 0 && NeedsChunk(size)
      requires FreshMemory(chunk, NewTotal(size) - currentTotal + HSIZ)
      modifies this
      ensures Valid() && !NeedsChunk(size) && live == old(live) && marks == old(marks)
      ensures currentTotal == maxTotal == old(NewTotal(size))
      ensures maxTotal ==
        if old(currentTotal) + size <= old(maxTotal) then old(maxTotal)
        else ((old(currentTotal) + size) * 3 / 2 + 7) / 8 * 8
      ensures chunks == old(chunks) + [Chunk(chunk, chunk + (maxTotal - old(currentTotal)) + 24, chunk + 24)]
      ensures asked == old(asked) + [(chunk, maxTotal - old(currentTotal) + 24)]
      ensures stretch == old(stretch) + 1
      ensures old(currentTotal == maxTotal) ==> 2 * maxTotal >= 3 * (old(maxTotal) + size)
    {
      hide GoodBlocks, GoodMarks, UsableTotal, Pow, Apart, Extends, GoodChunk, GoodRequests;
      RoomIsNatural(chunks);
      NewTotalFits(currentTotal, maxTotal, size);
      var now := currentTotal + size;
      var chunkSize;
      ghost var total, oldMax := currentTotal, maxTotal;
      if now > maxTotal {
        now := (now * 3 / 2 + TMP_ALIGN - 1) / TMP_ALIGN * TMP_ALIGN;
        chunkSize := now - currentTotal + HSIZ;
        currentTotal := now;
        maxTotal := currentTotal;
      } else {
        chunkSize := maxTotal - currentTotal + HSIZ;
        currentTotal := maxTotal;
      }
      var header := Chunk(chunk, chunk + chunkSize, chunk + HSIZ);
      HeaderGood(chunk, total, maxTotal, header, |chunks|);
      PushChunk(chunks, live, header);
      ExtendsPush(chunks, live, header);
      MarksKept(marks, chunks, live, chunks + [header], live);
      StretchGrows(stretch, stretchMax, oldMax, maxTotal);
      RequestAdded(asked, chunks, header, chunkSize);
      chunks, asked := chunks + [header], asked + [(chunk, chunkSize)];
      if stretch == 0 { stretchMax := maxTotal; }
      stretch := stretch + 1;
    }

    /** __gmp_tmp_alloc; chunk is what the memory function returns if it is called. */
    method Alloc(size: nat, chunk: nat) returns (that: nat)
      requires Valid() && size % TMP_ALIGN == 0
      requires NeedsChunk(size) ==> FreshMemory(chunk, NewTotal(size) - currentTotal + HSIZ)
      modifies this
      ensures Valid() && marks == old(marks)
      ensures live == old(live) + [Block(|chunks| - 1, that, size)]
      ensures old(size > chunks[|chunks| - 1].end - chunks[|chunks| - 1].allocPoint) ==>
        currentTotal == maxTotal == old(NewTotal(size)) && stretch == old(stretch) + 1
        && old(currentTotal) <= maxTotal && that == chunk + 24
        && asked == old(asked) + [(chunk, maxTotal - old(currentTotal) + 24)]
        && chunks == old(chunks) + [Chunk(chunk, chunk + (maxTotal - old(currentTotal)) + 24, chunk + 24 + size)]
      ensures old(size <= chunks[|chunks| - 1].end - chunks[|chunks| - 1].allocPoint) ==>
        var top := |old(chunks)| - 1;
        unchanged(`currentTotal) && unchanged(`maxTotal) && unchanged(`stretch) && unchanged(`asked)
        && that == old(chunks)[top].allocPoint
        && chunks == old(chunks)[top := old(chunks)[top].(allocPoint := that + size)]
    {
      if NeedsChunk(size) {
        Grow(size, chunk);
      }
      that := Bump(size);
    }

    /** Taking size bytes from the current chunk. */
    method Bump(size: nat) returns (that: nat)
      requires Valid() && size % TMP_ALIGN == 0 && !NeedsChunk(size)
      modifies this
      ensures Valid() && marks == old(marks) && live == old(live) + [Block(|chunks| - 1, that, size)]
      ensures var top := |old(chunks)| - 1;
        that == old(chunks[top]).allocPoint
        && chunks == old(chunks)[top := old(chunks[top]).(allocPoint := that + size)]
      ensures unchanged(`maxTotal) && unchanged(`currentTotal) && unchanged(`stretch) && unchanged(`asked)
    {
      hide UsableTotal, Apart, Extends, GoodMarks, GoodBlocks, GoodStretch, Disjoint;
      var n := |chunks|;
      var top := chunks[n - 1];
      that := top.allocPoint;
      ghost var before := chunks;
      chunks := chunks[n - 1 := top.(allocPoint := that + size)];
      live := live + [Block(n - 1, that, size)];
      UsableTotalSame(before, chunks, n);
      TopStaysApart(before, chunks);
      BlocksAfterBump(old(live), before, chunks, Block(n - 1, that, size));
      assert old(live) == live[..|old(live)|];
      MarksKept(marks, before, old(live), chunks, live);
    }

    /** __gmp_tmp_mark. */
    method Mark() returns (mark: Marker)
      requires Valid()
      modifies this
      ensures Valid() && marks == old(marks) + [Snapshot(chunks, live)]
      ensures mark == MarkerOf(marks[|marks| - 1])
      ensures mark == Marker(chunks[|chunks| - 1].start, chunks[|chunks| - 1].allocPoint)
      ensures unchanged(`chunks) && unchanged(`live) && unchanged(`maxTotal) && unchanged(`currentTotal)
        && unchanged(`stretch) && unchanged(`asked)
    {
      var top := chunks[|chunks| - 1];
      mark := Marker(top.start, top.allocPoint);
      assert live[..|live|] == live;
      marks := marks + [Snapshot(chunks, live)];
    }

    /** __gmp_tmp_free: back to the state at the k-th outstanding mark, apart from
        the maximum; every later request is given back once, latest first, with the
        address and the size that it was made with. */
    method Free(mark: Marker, ghost k: nat) returns (released: seq<(nat, int)>)
      requires Valid() && k < |marks| && mark == MarkerOf(marks[k])
      modifies this
      ensures Valid() && chunks == old(marks[k].chunks) && live == old(marks[k].live) && marks == old(marks[..k])
      ensures maxTotal == old(maxTotal) && stretch == 0
      ensures |asked| <= |old(asked)| && asked == old(asked)[..|asked|] && |asked| == |chunks| - 1
      ensures |released| == |old(asked)| - |asked|
      ensures forall i :: 0 <= i < |released| ==> released[i] == old(asked)[|old(asked)| - 1 - i]
    {
      hide GoodRequests, GoodBlocks, GoodMarks, GoodChunks, Pow, Apart, Extends, GoodChunk, UsableTotal, GoodStretch;
      ghost var s, before, total := marks[k], chunks, currentTotal;
      MarkFacts(marks, k, chunks, live);
      released := [];
      assert chunks == before[..|before|];
      RequestCount(asked, before);
      while mark.whichChunk != chunks[|chunks| - 1].start
        invariant |s.chunks| <= |chunks| <= |before| && chunks == before[..|chunks|]
        invariant currentTotal == UsableTotal(before, |chunks|)
        invariant |released| == |before| - |chunks|
        invariant |before| == |asked| + 1
        invariant forall i :: 0 <= i < |released| ==> released[i] == asked[|asked| - 1 - i]
        invariant unchanged(`maxTotal) && unchanged(`live) && unchanged(`marks) && unchanged(`asked)
        decreases |chunks|
      {
        var n := |chunks|;
        var tmp := chunks[n - 1];
        assert n > |s.chunks|;
        PopTotal(before, n);
        RequestOf(asked, before, n - 1);
        chunks := chunks[..n - 1];
        assert chunks == before[..n - 1];
        currentTotal := currentTotal - (tmp.end - tmp.start - HSIZ);
        released := released + [(tmp.start, tmp.end - tmp.start)];
      }
      SameHeight(s, before, live, |chunks|);
      var top := |chunks| - 1;
      chunks := chunks[top := chunks[top].(allocPoint := mark.allocPoint)];
      RestoredChunks(s, before, live, chunks);
      RestoredTotals(s.chunks, before, total, currentTotal, maxTotal);
      MarksDropped(marks, k, before, live);
      RequestsKept(asked, before, |chunks|, chunks);
      asked := asked[..|chunks| - 1];
      live := s.live;
      marks := marks[..k];
      stretch := 0;
      NoStretch(stretchMax, currentTotal, maxTotal);
    }
  }

  lemma RequestCount(asked: seq<(nat, int)>, chunks: seq<Chunk>)
    requires GoodRequests(asked, chunks)
    ensures |chunks| == |asked| + 1
  {
  }

  lemma RequestOf(asked: seq<(nat, int)>, chunks: seq<Chunk>, i: nat)
    requires GoodRequests(asked, chunks) && 1 <= i < |chunks|
    ensures |chunks| == |asked| + 1 && asked[i - 1] == (chunks[i].start, chunks[i].end - chunks[i].start)
  {
  }

  /** What the state says of the blocks that are in use: multiples of 8, inside the
      used part of their chunk and behind its 24 bytes of header, and disjoint. */
  lemma BlocksInUse(s: TmpStack)
    requires s.Valid()
    ensures forall k :: 0 <= k < |s.live| ==>
      var b := s.live[k];
      && b.chunk < |s.chunks| && b.addr % 8 == 0 && b.size % 8 == 0
      && s.chunks[b.chunk].start + (if b.chunk == 0 then 0 else 24) <= b.addr
      && b.addr + b.size <= s.chunks[b.chunk].allocPoint <= s.chunks[b.chunk].end
    ensures forall k, l :: 0 <= k < l < |s.live| ==>
      var a, b := s.live[k], s.live[l];
      a.addr + a.size <= b.addr || b.addr + b.size <= a.addr
  {
    hide GoodMarks, GoodTotals, GoodStretch, UsableTotal, Apart, Disjoint;
    forall k | 0 <= k < |s.live|
      ensures InChunk(s.live[k], s.chunks) && GoodChunk(s.live[k].chunk, s.chunks[s.live[k].chunk])
    {
      assert InChunk(s.live[k], s.chunks);
    }
    forall k, l | 0 <= k < l < |s.live|
      ensures var a, b := s.live[k], s.live[l]; a.addr + a.size <= b.addr || b.addr + b.size <= a.addr
    {
      DisjointMeans(s.live[k], s.live[l]);
    }
  }

  lemma DisjointMeans(a: Block, b: Block)
    ensures Disjoint(a, b) <==> a.addr + a.size <= b.addr || b.addr + b.size <= a.addr
  {
  }

  lemma RoomIsNatural(chunks: seq<Chunk>)
    requires GoodChunks(chunks)
    ensures chunks[|chunks| - 1].allocPoint <= chunks[|chunks| - 1].end
  {
    assert GoodChunk(|chunks| - 1, chunks[|chunks| - 1]);
  }

  lemma MarkFacts(marks: seq<Snapshot>, k: nat, chunks: seq<Chunk>, live: seq<Block>)
    requires k < |marks| && GoodMarks(marks, chunks, live)
    ensures Extends(marks[k], chunks, live) && 1 <= |marks[k].chunks| <= |chunks|
    ensures GoodChunks(marks[k].chunks) && GoodBlocks(marks[k].live, marks[k].chunks)
    ensures marks[k].chunks[|marks[k].chunks| - 1].start == chunks[|marks[k].chunks| - 1].start
  {
    assert GoodSnapshot(marks[k]);
  }

  lemma PopTotal(chunks: seq<Chunk>, n: nat)
    requires GoodChunks(chunks) && 2 <= n <= |chunks|
    ensures UsableTotal(chunks, n) - (chunks[n - 1].end - chunks[n - 1].start - HSIZ) == UsableTotal(chunks, n - 1)
    ensures 0 <= UsableTotal(chunks, n - 1) && chunks[n - 1].start <= chunks[n - 1].end
  {
    TotalMultiple(chunks, n - 1);
    assert GoodChunk(n - 1, chunks[n - 1]);
  }

  lemma RestoredChunks(s: Snapshot, before: seq<Chunk>, live: seq<Block>, chunks: seq<Chunk>)
    requires Extends(s, before, live) && |chunks| == |s.chunks|
    requires forall i :: 0 <= i < |chunks| - 1 ==> chunks[i] == before[i]
    requires var top := |chunks| - 1; chunks[top] == before[top].(allocPoint := s.chunks[top].allocPoint)
    ensures chunks == s.chunks
  {
  }

  lemma RestoredTotals(now: seq<Chunk>, before: seq<Chunk>, total: nat, currentTotal: nat, maxTotal: nat)
    requires GoodChunks(before) && GoodTotals(before, total, maxTotal) && |now| <= |before|
    requires forall i :: 0 <= i < |now| ==> now[i].start == before[i].start && now[i].end == before[i].end
    requires currentTotal == UsableTotal(before, |now|)
    ensures GoodTotals(now, currentTotal, maxTotal)
  {
    UsableTotalSame(now, before, |now|);
    TotalMonotone(before, |now|, |before|);
    TotalMultiple(before, |now|);
  }

  lemma NoStretch(first: nat, currentTotal: nat, maxTotal: nat)
    ensures GoodStretch(0, first, currentTotal, maxTotal)
  {
  }

  function MarkerOf(s: Snapshot): Marker
    requires 1 <= |s.chunks|
  {
    var top := s.chunks[|s.chunks| - 1];
    Marker(top.start, top.allocPoint)
  }
}
