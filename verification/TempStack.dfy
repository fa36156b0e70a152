/** The mark/release allocator for temporaries (tal-notreent.c): a stack of chunks,
    each obtained from the underlying allocator and filled from bottom to top. */
module TempStack {

  const ALIGN: nat := 8
  const HSIZ: nat := 24

  // ---------------------------------------------------------------- states and steps

  /** A chunk: its header at `start`, the end of its storage, and the first free byte. */
  datatype Chunk = Chunk(start: nat, end: nat, point: nat)

  datatype State = State(chunks: seq<Chunk>, total: nat, max: nat)

  ghost function Top(st: State): Chunk
    requires |st.chunks| > 0
  {
    st.chunks[|st.chunks| - 1]
  }

  ghost function Room(st: State): int
    requires |st.chunks| > 0
  {
    Top(st).end - Top(st).point
  }

  function RoundUp(x: nat): nat {
    (x + ALIGN - 1) / ALIGN * ALIGN
  }

  /** The total allocation after a new chunk for `size` more bytes. */
  function NewTotal(total: nat, max: nat, size: nat): nat {
    if total + size > max then RoundUp((total + size) * 3 / 2) else max
  }

  /** __gmp_tmp_alloc, with the address the underlying allocator returns if asked. */
  ghost function Alloc(st: State, size: nat, chunk: nat): (State, nat)
    requires |st.chunks| > 0
  {
    if size > Room(st) then
      var now := NewTotal(st.total, st.max, size);
      var size' := now - st.total + HSIZ;
      (State(st.chunks + [Chunk(chunk, chunk + AsNat(size'), chunk + HSIZ + size)], now, Max(st.max, now)),
       chunk + HSIZ)
    else
      var top := Top(st);
      (st.(chunks := st.chunks[|st.chunks| - 1 := top.(point := top.point + size)]), top.point)
  }

  /** The two steps of an allocation: a new chunk if needed, then a move of the point. */
  ghost function Grown(st: State, size: nat, chunk: nat): State {
    var now := NewTotal(st.total, st.max, size);
    State(st.chunks + [Chunk(chunk, chunk + AsNat(now - st.total + HSIZ), chunk + HSIZ)], now, Max(st.max, now))
  }

  ghost function Bumped(st: State, size: nat): State
    requires |st.chunks| > 0
  {
    st.(chunks := st.chunks[|st.chunks| - 1 := Top(st).(point := Top(st).point + size)])
  }

  lemma AllocInSteps(st: State, size: nat, chunk: nat)
    requires |st.chunks| > 0
    ensures
      var st1 := if size > Room(st) then Grown(st, size, chunk) else st;
      |st1.chunks| > 0 && Alloc(st, size, chunk) == (Bumped(st1, size), Top(st1).point)
  {
    hide NewTotal;
    if size > Room(st) {
      var st1 := Grown(st, size, chunk);
      assert Bumped(st1, size).chunks == st.chunks + [Top(st1).(point := Top(st1).point + size)];
    }
  }

  function AsNat(x: int): nat {
    if x < 0 then 0 else x
  }

  function Max(a: nat, b: nat): nat {
    if a < b then b else a
  }

  ghost function Payload(c: Chunk): int {
    c.end - c.start - HSIZ
  }

  /** The payloads of all chunks but the static first one. */
  ghost function Payloads(chunks: seq<Chunk>): int {
    if |chunks| <= 1 then 0 else Payloads(chunks[..|chunks| - 1]) + Payload(chunks[|chunks| - 1])
  }

  /** __gmp_tmp_free for a mark in chunk k at `point`. */
  ghost function Free(st: State, k: nat, point: nat): State
    requires k < |st.chunks|
  {
    State(st.chunks[..k] + [st.chunks[k].(point := point)],
          AsNat(st.total - (Payloads(st.chunks) - Payloads(st.chunks[..k + 1]))), st.max)
  }

  // ---------------------------------------------------------------- what every step keeps

  ghost predicate ChunkOk(c: Chunk) {
    && c.start % ALIGN == 0 && c.end % ALIGN == 0 && c.point % ALIGN == 0
    && c.start + HSIZ <= c.point <= c.end
  }

  /** The static first chunk has no storage. */
  ghost predicate BaseOk(c: Chunk) {
    c.start == c.end == c.point && c.point % ALIGN == 0
  }

  ghost predicate Apart(c: Chunk, c': Chunk) {
    c.end <= c'.start || c'.end <= c.start
  }

  ghost predicate ChunksOk(chunks: seq<Chunk>) {
    && |chunks| > 0 && BaseOk(chunks[0])
    && (forall i :: 1 <= i < |chunks| ==> ChunkOk(chunks[i]))
    && (forall i, j :: 1 <= i < j < |chunks| ==> Apart(chunks[i], chunks[j]))
  }

  ghost predicate Inv(st: State) {
    && ChunksOk(st.chunks)
    && st.total == Payloads(st.chunks) && st.total <= st.max
    && st.total % ALIGN == 0 && st.max % ALIGN == 0
  }

  /** What the underlying allocator promises: an aligned region apart from all chunks. */
  ghost predicate FreshRegion(st: State, size: nat, chunk: nat)
    requires |st.chunks| > 0
  {
    size > Room(st) ==>
      && chunk % ALIGN == 0
      && forall i :: 1 <= i < |st.chunks| ==>
           Apart(st.chunks[i], Chunk(chunk, chunk + AsNat(NewTotal(st.total, st.max, size) - st.total + HSIZ), chunk))
  }

  lemma RoundUpBounds(x: nat)
    ensures x <= RoundUp(x) < x + ALIGN && RoundUp(x) % ALIGN == 0
  {
  }

  lemma NewTotalBounds(total: nat, max: nat, size: nat)
    requires total <= max && max % ALIGN == 0
    ensures total + size <= NewTotal(total, max, size) && max <= NewTotal(total, max, size)
    ensures NewTotal(total, max, size) % ALIGN == 0
  {
    RoundUpBounds((total + size) * 3 / 2);
  }

  /** A total that exceeds the maximum grows by half, rounded up to a multiple of 8, and
      otherwise becomes the maximum. */
  lemma TotalInNumbers(total: nat, max: nat, size: nat)
    ensures
      var asked, now := total + size, NewTotal(total, max, size);
      if asked > max then now % 8 == 0 && 3 * asked / 2 <= now < 3 * asked / 2 + 8 else now == max
  {
    RoundUpBounds((total + size) * 3 / 2);
  }

  lemma PushKeeps(chunks: seq<Chunk>, c: Chunk)
    requires ChunksOk(chunks) && ChunkOk(c)
    requires forall i :: 1 <= i < |chunks| ==> Apart(chunks[i], c)
    ensures ChunksOk(chunks + [c]) && Payloads(chunks + [c]) == Payloads(chunks) + Payload(c)
  {
    hide ChunkOk, Apart, BaseOk, Payload;
    assert (chunks + [c])[..|chunks|] == chunks;
  }

  /** Moving the allocation point of the last chunk, or dropping the chunks after it. */
  lemma CutKeeps(chunks: seq<Chunk>, k: nat, point: nat)
    requires ChunksOk(chunks) && k < |chunks| && point % ALIGN == 0
    requires if k == 0 then point == chunks[0].point else chunks[k].start + HSIZ <= point <= chunks[k].end
    ensures ChunksOk(chunks[..k] + [chunks[k].(point := point)])
    ensures Payloads(chunks[..k] + [chunks[k].(point := point)]) == Payloads(chunks[..k + 1])
  {
    hide BaseOk;
    var cut := chunks[..k] + [chunks[k].(point := point)];
    assert cut[..k] == chunks[..k] && chunks[..k + 1][..k] == chunks[..k];
    if k == 0 { assert cut[0] == chunks[0]; }
  }

  lemma AlignedSum(a: nat, b: nat)
    requires a % ALIGN == 0 && b % ALIGN == 0
    ensures (a + b) % ALIGN == 0 && (a + b + HSIZ) % ALIGN == 0
  {
  }

  lemma GrowKeepsInv(st: State, size: nat, chunk: nat)
    requires Inv(st) && size % ALIGN == 0 && size > Room(st) && FreshRegion(st, size, chunk)
    ensures Inv(Alloc(st, size, chunk).0)
  {
    hide RoundUp, NewTotal, ChunksOk, Payloads;
    NewTotalBounds(st.total, st.max, size);
    var now := NewTotal(st.total, st.max, size);
    var c := Chunk(chunk, chunk + (now - st.total + HSIZ), chunk + HSIZ + size);
    AlignedSum(chunk, size);
    AlignedSum(chunk, now - st.total);
    PushKeeps(st.chunks, c);
  }

  lemma BumpKeepsInv(st: State, size: nat, chunk: nat)
    requires Inv(st) && size % ALIGN == 0 && size <= Room(st)
    ensures Inv(Alloc(st, size, chunk).0)
  {
    TopOk(st.chunks);
    hide ChunksOk, Payloads, NewTotal;
    var k := |st.chunks| - 1;
    var point := Top(st).point + size;
    AlignedSum(Top(st).point, size);
    CutKeeps(st.chunks, k, point);
    assert st.chunks[k := Top(st).(point := point)] == st.chunks[..k] + [Top(st).(point := point)];
    assert st.chunks[..k + 1] == st.chunks;
  }

  /** __gmp_tmp_alloc keeps the accounting, the alignment and the separation. */
  lemma AllocKeepsInv(st: State, size: nat, chunk: nat)
    requires Inv(st) && size % ALIGN == 0 && FreshRegion(st, size, chunk)
    ensures Inv(Alloc(st, size, chunk).0)
  {
    if size > Room(st) {
      GrowKeepsInv(st, size, chunk);
    } else {
      BumpKeepsInv(st, size, chunk);
    }
  }

  lemma TopOk(chunks: seq<Chunk>)
    requires ChunksOk(chunks)
    ensures |chunks| == 1 ==> BaseOk(chunks[0])
    ensures |chunks| > 1 ==> ChunkOk(chunks[|chunks| - 1])
  {
  }

  lemma PayloadOk(c: Chunk, sum: int)
    requires ChunkOk(c) && sum % ALIGN == 0
    ensures 0 <= Payload(c) && (sum + Payload(c)) % ALIGN == 0
  {
    var q := sum / 8 + c.end / 8 - c.start / 8 - 3;
    assert sum + Payload(c) == 8 * q;
  }

  lemma {:induction false} PayloadsOfPrefix(chunks: seq<Chunk>, k: nat)
    requires k < |chunks| && forall i :: 1 <= i < |chunks| ==> ChunkOk(chunks[i])
    ensures 0 <= Payloads(chunks[..k + 1]) <= Payloads(chunks)
    ensures Payloads(chunks[..k + 1]) % ALIGN == 0
    decreases |chunks|
  {
    hide ChunkOk, Payload;
    if k + 1 == |chunks| {
      assert chunks[..k + 1] == chunks;
      if |chunks| > 1 {
        PayloadsOfPrefix(chunks[..|chunks| - 1], k - 1);
        assert chunks[..|chunks| - 1][..k] == chunks[..|chunks| - 1];
        PayloadOk(chunks[|chunks| - 1], Payloads(chunks[..|chunks| - 1]));
      }
    } else {
      PayloadsOfPrefix(chunks[..|chunks| - 1], k);
      PayloadOk(chunks[|chunks| - 1], 0);
      assert chunks[..|chunks| - 1][..k + 1] == chunks[..k + 1];
    }
  }

  /** __gmp_tmp_free keeps them too. */
  lemma FreeKeepsInv(st: State, k: nat, point: nat)
    requires Inv(st) && k < |st.chunks| && point % ALIGN == 0
    requires
      if k == 0 then point == st.chunks[0].point
      else st.chunks[k].start + HSIZ <= point <= st.chunks[k].end
    ensures Inv(Free(st, k, point))
    ensures Free(st, k, point).total == Payloads(st.chunks[..k + 1])
  {
    hide ChunksOk, Payloads;
    PrefixTotal(st, k);
    CutKeeps(st.chunks, k, point);
  }

  lemma PrefixTotal(st: State, k: nat)
    requires Inv(st) && k < |st.chunks|
    ensures 0 <= Payloads(st.chunks[..k + 1]) <= st.total && Payloads(st.chunks[..k + 1]) % ALIGN == 0
  {
    PayloadsOfPrefix(st.chunks, k);
  }

  // ---------------------------------------------------------------- whole runs

  /** A block handed out and not yet released. */
  datatype Block = Block(chunk: nat, addr: nat, size: nat)

  /** A mark, with what it will restore: `before` and `live` exist for the proof only. */
  datatype Mark = Mark(chunk: nat, point: nat, before: seq<Chunk>, live: seq<Block>)

  datatype Config = Config(st: State, live: seq<Block>, marks: seq<Mark>)

  datatype Op = DoMark | DoAlloc(size: nat, chunk: nat) | DoFree

  ghost predicate Enabled(c: Config, op: Op) {
    && |c.st.chunks| > 0
    && match op
       case DoMark => true
       case DoAlloc(size, chunk) => size % ALIGN == 0 && FreshRegion(c.st, size, chunk)
       case DoFree => |c.marks| > 0 && c.marks[|c.marks| - 1].chunk < |c.st.chunks|
  }

  ghost function Step(c: Config, op: Op): Config
    requires Enabled(c, op)
  {
    match op
    case DoMark =>
      c.(marks := c.marks + [Mark(|c.st.chunks| - 1, Top(c.st).point, c.st.chunks, c.live)])
    case DoAlloc(size, chunk) =>
      var (st', addr) := Alloc(c.st, size, chunk);
      c.(st := st', live := c.live + [Block(|st'.chunks| - 1, addr, size)])
    case DoFree =>
      var m := c.marks[|c.marks| - 1];
      Config(Free(c.st, m.chunk, m.point), m.live, c.marks[..|c.marks| - 1])
  }

  ghost predicate InChunk(c: Chunk, k: nat, b: Block) {
    && b.addr % ALIGN == 0 && c.start + (if k == 0 then 0 else HSIZ) <= b.addr
    && b.addr + b.size <= c.point
  }

  /** b ends before position (k, point) of the stack. */
  ghost predicate EndsBefore(b: Block, k: nat, point: nat) {
    b.chunk < k || (b.chunk == k && b.addr + b.size <= point)
  }

  ghost predicate BlocksOk(chunks: seq<Chunk>, live: seq<Block>) {
    && (forall i :: 0 <= i < |live| ==>
         live[i].chunk < |chunks| && InChunk(chunks[live[i].chunk], live[i].chunk, live[i]))
    && (forall i, j :: 0 <= i < j < |live| ==> EndsBefore(live[i], live[j].chunk, live[j].addr))
  }

  /** What the chunks still owe to a mark. */
  ghost predicate MarkOk(chunks: seq<Chunk>, live: seq<Block>, m: Mark) {
    && m.chunk < |chunks| && |m.before| == m.chunk + 1
    && m.before[..m.chunk] == chunks[..m.chunk]
    && m.before[m.chunk] == chunks[m.chunk].(point := m.point)
    && m.point <= chunks[m.chunk].point
    && ChunksOk(m.before) && BlocksOk(m.before, m.live)
    && m.live <= live
  }

  ghost predicate NotAfter(m: Mark, m': Mark) {
    && (m.chunk < m'.chunk || (m.chunk == m'.chunk && m.point <= m'.point))
    && MarkOk(m'.before, m'.live, m)
  }

  ghost predicate ConfigOk(c: Config) {
    && Inv(c.st) && BlocksOk(c.st.chunks, c.live)
    && (forall i :: 0 <= i < |c.marks| ==> MarkOk(c.st.chunks, c.live, c.marks[i]))
    && (forall i, j :: 0 <= i < j < |c.marks| ==> NotAfter(c.marks[i], c.marks[j]))
  }

  /** Live blocks never overlap. */
  lemma LiveBlocksDisjoint(c: Config, i: nat, j: nat)
    requires ConfigOk(c) && i < j < |c.live|
    ensures
      var b, b' := c.live[i], c.live[j];
      b.addr + b.size <= b'.addr || b'.addr + b'.size <= b.addr || b.size == 0
  {
    var b, b' := c.live[i], c.live[j];
    assert EndsBefore(b, b'.chunk, b'.addr);
    if b.chunk < b'.chunk && b.chunk > 0 {
      assert Apart(c.st.chunks[b.chunk], c.st.chunks[b'.chunk]);
      assert ChunkOk(c.st.chunks[b.chunk]) && ChunkOk(c.st.chunks[b'.chunk]);
    }
  }

  lemma NonEmpty(st: State)
    requires Inv(st)
    ensures |st.chunks| > 0
  {
  }

  lemma MarkKeeps(c: Config)
    requires ConfigOk(c)
    ensures ConfigOk(Step(c, DoMark))
  {
    NonEmpty(c.st);
    hide Inv, BlocksOk, MarkOk, ChunksOk;
    var m := Mark(|c.st.chunks| - 1, Top(c.st).point, c.st.chunks, c.live);
    NewMarkOk(c, m);
    forall i | 0 <= i < |c.marks|
      ensures NotAfter(c.marks[i], m)
    {
      MarkPosition(c, c.marks[i]);
    }
  }

  lemma NewMarkOk(c: Config, m: Mark)
    requires Inv(c.st) && BlocksOk(c.st.chunks, c.live)
    requires m == Mark(|c.st.chunks| - 1, Top(c.st).point, c.st.chunks, c.live)
    ensures MarkOk(c.st.chunks, c.live, m)
  {
    hide ChunksOk, BlocksOk;
  }

  lemma MarkPosition(c: Config, m: Mark)
    requires |c.st.chunks| > 0 && MarkOk(c.st.chunks, c.live, m)
    ensures m.chunk < |c.st.chunks| - 1 || (m.chunk == |c.st.chunks| - 1 && m.point <= Top(c.st).point)
  {
    hide ChunksOk, BlocksOk;
  }

  /** Growing the stack at its end does not touch what a mark will restore. */
  lemma AllocKeepsMark(st: State, live: seq<Block>, size: nat, chunk: nat, b: Block, m: Mark)
    requires |st.chunks| > 0 && MarkOk(st.chunks, live, m)
    ensures MarkOk(Alloc(st, size, chunk).0.chunks, live + [b], m)
  {
    hide ChunksOk, BlocksOk, NewTotal;
    var chunks' := Alloc(st, size, chunk).0.chunks;
    assert chunks'[..m.chunk] == st.chunks[..m.chunk];
    assert m.live <= live + [b];
  }

  lemma AllocKeepsBlocks(st: State, live: seq<Block>, size: nat, chunk: nat)
    requires Inv(st) && size % ALIGN == 0 && FreshRegion(st, size, chunk) && BlocksOk(st.chunks, live)
    ensures
      var (st', addr) := Alloc(st, size, chunk);
      BlocksOk(st'.chunks, live + [Block(|st'.chunks| - 1, addr, size)])
  {
    hide NewTotal, Payloads;
    TopOk(st.chunks);
    var (st', addr) := Alloc(st, size, chunk);
    var b := Block(|st'.chunks| - 1, addr, size);
    var live' := live + [b];
    forall i | 0 <= i < |live'|
      ensures live'[i].chunk < |st'.chunks| && InChunk(st'.chunks[live'[i].chunk], live'[i].chunk, live'[i])
    {
      if i < |live| {
        assert InChunk(st.chunks[live[i].chunk], live[i].chunk, live[i]);
      }
    }
    forall i, j | 0 <= i < j < |live'|
      ensures EndsBefore(live'[i], live'[j].chunk, live'[j].addr)
    {
      assert InChunk(st.chunks[live[i].chunk], live[i].chunk, live[i]);
    }
  }

  lemma AllocKeeps(c: Config, size: nat, chunk: nat)
    requires ConfigOk(c) && Enabled(c, DoAlloc(size, chunk))
    ensures ConfigOk(Step(c, DoAlloc(size, chunk)))
  {
    hide Inv, BlocksOk, MarkOk, ChunksOk, Alloc, FreshRegion, NotAfter;
    NonEmpty(c.st);
    AllocKeepsInv(c.st, size, chunk);
    var (st', addr) := Alloc(c.st, size, chunk);
    NonEmpty(st');
    var b := Block(|st'.chunks| - 1, addr, size);
    AllocKeepsBlocks(c.st, c.live, size, chunk);
    forall i | 0 <= i < |c.marks|
      ensures MarkOk(st'.chunks, c.live + [b], c.marks[i])
    {
      AllocKeepsMark(c.st, c.live, size, chunk, b, c.marks[i]);
    }
  }

  /** Releasing a mark puts back exactly the chunks, points and blocks of its time. */
  lemma FreeRestores(c: Config)
    requires ConfigOk(c) && |c.marks| > 0
    ensures Enabled(c, DoFree)
    ensures
      var m, c' := c.marks[|c.marks| - 1], Step(c, DoFree);
      c'.st.chunks == m.before && c'.live == m.live && c'.st.total == Payloads(m.before) && c'.st.max == c.st.max
    ensures Inv(Step(c, DoFree).st)
  {
    hide BlocksOk, Payloads, NotAfter;
    var m := c.marks[|c.marks| - 1];
    assert MarkOk(c.st.chunks, c.live, m);
    var cut := c.st.chunks[..m.chunk] + [c.st.chunks[m.chunk].(point := m.point)];
    assert cut == m.before;
    MarkPoint(c.st.chunks, m);
    CutKeeps(c.st.chunks, m.chunk, m.point);
    FreeKeepsInv(c.st, m.chunk, m.point);
  }

  lemma MarkPoint(chunks: seq<Chunk>, m: Mark)
    requires ChunksOk(chunks) && m.chunk < |chunks| && |m.before| == m.chunk + 1 && ChunksOk(m.before)
    requires m.before[m.chunk] == chunks[m.chunk].(point := m.point)
    ensures m.point % ALIGN == 0
    ensures
      if m.chunk == 0 then m.point == chunks[0].point
      else chunks[m.chunk].start + HSIZ <= m.point <= chunks[m.chunk].end
  {
  }

  lemma FreeKeeps(c: Config)
    requires ConfigOk(c) && |c.marks| > 0
    ensures Enabled(c, DoFree) && ConfigOk(Step(c, DoFree))
  {
    FreeRestores(c);
    hide Inv, BlocksOk, ChunksOk, Free;
    var m, c' := c.marks[|c.marks| - 1], Step(c, DoFree);
    assert MarkOk(c.st.chunks, c.live, m);
    forall i | 0 <= i < |c'.marks|
      ensures MarkOk(c'.st.chunks, c'.live, c'.marks[i])
    {
      assert NotAfter(c.marks[i], m);
    }
  }

  /** Every step of a legal run keeps everything. */
  lemma StepKeeps(c: Config, op: Op)
    requires ConfigOk(c) && Enabled(c, op)
    ensures ConfigOk(Step(c, op))
  {
    hide ConfigOk, Enabled, Step;
    match op
    case DoMark => MarkKeeps(c);
    case DoAlloc(size, chunk) => AllocKeeps(c, size, chunk);
    case DoFree => MarksNonEmpty(c); FreeKeeps(c);
  }

  lemma MarksNonEmpty(c: Config)
    requires Enabled(c, DoFree)
    ensures |c.marks| > 0
  {
  }

  ghost predicate Legal(c: Config, ops: seq<Op>)
    decreases |ops|
  {
    |ops| == 0 || (Enabled(c, ops[0]) && Legal(Step(c, ops[0]), ops[1..]))
  }

  ghost function Run(c: Config, ops: seq<Op>): Config
    requires Legal(c, ops)
    decreases |ops|
  {
    if |ops| == 0 then c else Run(Step(c, ops[0]), ops[1..])
  }

  /** No operation of the run releases one of the first n marks. */
  ghost predicate KeepsMarks(c: Config, ops: seq<Op>, n: nat)
    requires Legal(c, ops)
    decreases |ops|
  {
    n <= |c.marks| && (|ops| == 0 || KeepsMarks(Step(c, ops[0]), ops[1..], n))
  }

  /** The initial state: the static chunk at its own address. */
  ghost function Start(address: nat): Config {
    Config(State([Chunk(address, address, address)], 0, 0), [], [])
  }

  /** In every run, every live block is aligned and inside its chunk, the total is the
      sum of the payloads and never above the maximum, and all marks can be honoured. */
  lemma {:induction false} RunsAreSafe(c: Config, ops: seq<Op>)
    requires ConfigOk(c) && Legal(c, ops)
    ensures ConfigOk(Run(c, ops))
    decreases |ops|
  {
    hide ConfigOk, Enabled, Step;
    if |ops| > 0 {
      StepKeeps(c, ops[0]);
      RunsAreSafe(Step(c, ops[0]), ops[1..]);
    }
  }

  lemma StartIsSafe(address: nat)
    requires address % ALIGN == 0
    ensures ConfigOk(Start(address))
  {
  }

  lemma {:induction false} OuterMarksStay(c: Config, ops: seq<Op>, n: nat)
    requires Legal(c, ops) && KeepsMarks(c, ops, n)
    ensures n <= |Run(c, ops).marks| && Run(c, ops).marks[..n] == c.marks[..n]
    ensures c.st.max <= Run(c, ops).st.max
    decreases |ops|
  {
    hide Alloc, Free, FreshRegion;
    if |ops| > 0 {
      OuterMarksStay(Step(c, ops[0]), ops[1..], n);
      MaxGrows(c, ops[0]);
      var c' := Step(c, ops[0]);
      assert n <= |c'.marks| by { assert KeepsMarks(c', ops[1..], n); }
      assert c'.marks[..n] == c.marks[..n];
    }
  }

  lemma MaxGrows(c: Config, op: Op)
    requires Enabled(c, op)
    ensures c.st.max <= Step(c, op).st.max
  {
    hide Room, NewTotal, FreshRegion;
  }

  /** Mark, any properly nested operations, release: the chunk stack, every
      allocation point, the accounting and the live blocks are as they were. */
  lemma ReleaseUndoesEverything(c: Config, body: seq<Op>)
    requires ConfigOk(c)
    requires Legal(Step(c, DoMark), body) && KeepsMarks(Step(c, DoMark), body, |c.marks| + 1)
    requires |Run(Step(c, DoMark), body).marks| == |c.marks| + 1
    ensures
      var c1 := Run(Step(c, DoMark), body);
      && Enabled(c1, DoFree)
      && var c2 := Step(c1, DoFree);
      && c2.st.chunks == c.st.chunks && c2.st.total == c.st.total
      && c2.live == c.live && c2.marks == c.marks && c.st.max <= c2.st.max
  {
    hide ConfigOk, Enabled, Step, KeepsMarks;
    MarkKeeps(c);
    MarkRecords(c);
    RunsAreSafe(Step(c, DoMark), body);
    OuterMarksStay(Step(c, DoMark), body, |c.marks| + 1);
    var c1 := Run(Step(c, DoMark), body);
    assert c1.marks[..|c.marks| + 1] == c1.marks;
    ReleaseRestores(c, c1);
  }

  lemma MarkRecords(c: Config)
    requires ConfigOk(c)
    ensures Enabled(c, DoMark) && |c.st.chunks| > 0
    ensures
      var c0 := Step(c, DoMark);
      && c0.st == c.st
      && c0.marks == c0.marks[..|c.marks| + 1]
      && c0.marks == c.marks + [Mark(|c.st.chunks| - 1, Top(c.st).point, c.st.chunks, c.live)]
  {
    hide Inv, BlocksOk, MarkOk, NotAfter;
    NonEmpty(c.st);
  }

  /** Releasing the mark set in c. */
  lemma ReleaseRestores(c: Config, c1: Config)
    requires ConfigOk(c) && ConfigOk(c1) && c.st.max <= c1.st.max && |c.st.chunks| > 0
    requires c1.marks == c.marks + [Mark(|c.st.chunks| - 1, Top(c.st).point, c.st.chunks, c.live)]
    ensures Enabled(c1, DoFree)
    ensures
      var c2 := Step(c1, DoFree);
      && c2.st.chunks == c.st.chunks && c2.st.total == c.st.total
      && c2.live == c.live && c2.marks == c.marks && c.st.max <= c2.st.max
  {
    hide ChunksOk, BlocksOk, MarkOk, NotAfter, Free;
    FreeRestores(c1);
    TotalIsPayloads(c.st);
    assert c1.marks[..|c.marks|] == c.marks;
  }

  lemma TotalIsPayloads(st: State)
    requires Inv(st)
    ensures st.total == Payloads(st.chunks)
  {
  }

  // ---------------------------------------------------------------- running twice

  /** The bytes handed out from the chunks. */
  ghost function Used(chunks: seq<Chunk>): int {
    if |chunks| == 0 then 0 else Used(chunks[..|chunks| - 1]) + UsedIn(chunks[|chunks| - 1])
  }

  ghost function UsedIn(c: Chunk): int {
    c.point - c.start - HSIZ
  }

  /** The part of the invariant the byte accounting needs. */
  ghost predicate Accounted(st: State) {
    |st.chunks| > 0 && 0 <= Room(st) && st.total <= st.max && st.max % ALIGN == 0
  }

  lemma InvIsAccounted(st: State)
    requires Inv(st)
    ensures Accounted(st)
  {
    TopOk(st.chunks);
  }

  /** The bytes handed out from the chunks after the first k fit into their payloads. */
  lemma {:induction false} UsedFits(chunks: seq<Chunk>, k: nat)
    requires 1 <= k <= |chunks| && forall i :: 1 <= i < |chunks| ==> ChunkOk(chunks[i])
    ensures Used(chunks[k..]) <= Payloads(chunks) - Payloads(chunks[..k])
    decreases |chunks|
  {
    var n := |chunks| - 1;
    if k == |chunks| {
      assert chunks[k..] == [] && chunks[..k] == chunks;
    } else {
      UsedFits(chunks[..n], k);
      assert chunks[k..][..n - k] == chunks[..n][k..] && chunks[..n][..k] == chunks[..k];
    }
  }

  lemma UsedInMore(chunks: seq<Chunk>, c: Chunk)
    ensures Used(chunks + [c]) == Used(chunks) + UsedIn(c)
  {
    assert (chunks + [c])[..|chunks|] == chunks;
  }

  /** The stacks a and b of two runs from the same k chunks: the same below, the same
      bytes handed out above, and all of b's in one chunk of `payload` bytes. */
  ghost predicate Twins(a: seq<Chunk>, b: seq<Chunk>, k: nat, total: nat, payload: int) {
    && 1 <= k <= |a| && k <= |b| <= k + 1 && a[..k] == b[..k] && Payloads(a[..k]) == total
    && (|a| == k <==> |b| == k) && Used(a[k..]) == Used(b[k..])
    && (|b| == k + 1 ==> Payload(b[k]) == payload)
  }

  /** A bump adds its size to the bytes handed out, and so does a new chunk. */
  lemma AllocUses(st: State, size: nat, chunk: nat, k: nat)
    requires 1 <= k <= |st.chunks| && (k < |st.chunks| || size > Room(st))
    ensures
      var chunks' := Alloc(st, size, chunk).0.chunks;
      k < |chunks'| && chunks'[..k] == st.chunks[..k] && Used(chunks'[k..]) == Used(st.chunks[k..]) + size
  {
    hide NewTotal, Used;
    var chunks, chunks' := st.chunks, Alloc(st, size, chunk).0.chunks;
    var n := |chunks| - 1;
    if size > Room(st) {
      assert chunks'[k..] == chunks[k..] + [chunks'[n + 1]];
      UsedInMore(chunks[k..], chunks'[n + 1]);
    } else {
      assert chunks[k..] == chunks[k..n] + [chunks[n]] && chunks'[k..] == chunks[k..n] + [chunks'[n]];
      UsedInMore(chunks[k..n], chunks[n]);
      UsedInMore(chunks[k..n], chunks'[n]);
    }
  }

  /** Below the k chunks nothing is held yet, and both runs do the same. */
  lemma TwinsBump(a: State, b: State, size: nat, p: nat, p': nat, k: nat, total: nat, payload: int)
    requires Twins(a.chunks, b.chunks, k, total, payload) && |a.chunks| == k && size <= Room(a)
    ensures Twins(Alloc(a, size, p).0.chunks, Alloc(b, size, p').0.chunks, k, total, payload)
    ensures Alloc(b, size, p').0.max == b.max
  {
    hide NewTotal;
    assert a.chunks == a.chunks[..k] && b.chunks == b.chunks[..k];
    var chunks' := Alloc(a, size, p).0.chunks;
    assert Alloc(b, size, p').0.chunks == chunks' && chunks'[..k] == chunks';
    assert chunks'[..k - 1] == a.chunks[..k - 1];
    PayloadsIgnorePoint(a.chunks, chunks');
  }

  lemma PayloadsIgnorePoint(a: seq<Chunk>, b: seq<Chunk>)
    requires |a| == |b| > 0 && a[..|a| - 1] == b[..|b| - 1]
    requires a[|a| - 1].start == b[|a| - 1].start && a[|a| - 1].end == b[|a| - 1].end
    ensures Payloads(a) == Payloads(b)
  {
  }

  /** The first chunk: the second run asks for everything the first run ever held. */
  lemma TwinsGrow(a: State, b: State, size: nat, p: nat, p': nat, k: nat, max: nat)
    requires Accounted(a) && Accounted(b) && b.total == a.total && b.max == max
    requires Twins(a.chunks, b.chunks, k, a.total, max - a.total) && |a.chunks| == k && size > Room(a)
    requires Alloc(a, size, p).0.max <= max
    ensures Twins(Alloc(a, size, p).0.chunks, Alloc(b, size, p').0.chunks, k, a.total, max - a.total)
    ensures Alloc(b, size, p').0.max == max
  {
    hide Used, Payloads;
    assert a.chunks == a.chunks[..k] && b.chunks == b.chunks[..k];
    AllocUses(a, size, p, k);
    AllocUses(b, size, p', k);
    hide RoundUp;
    NewTotalBounds(a.total, a.max, size);
  }

  lemma OneChunkUsed(chunks: seq<Chunk>, k: nat)
    requires |chunks| == k + 1
    ensures Used(chunks[k..]) == UsedIn(chunks[k])
  {
    assert chunks[k..] == [] + [chunks[k]];
    UsedInMore([], chunks[k]);
  }

  lemma HandedOutFits(st: State, k: nat, max: nat)
    requires Inv(st) && 1 <= k <= |st.chunks| && st.max <= max
    ensures Used(st.chunks[k..]) <= max - Payloads(st.chunks[..k])
  {
    hide Used, Payloads;
    UsedFits(st.chunks, k);
  }

  /** Later on the one chunk has room for everything the first run fits into several. */
  lemma TwinsRoom(a: State, b: State, size: nat, p: nat, k: nat, total: nat, max: nat)
    requires Twins(a.chunks, b.chunks, k, total, max - total) && |a.chunks| > k
    requires Inv(Alloc(a, size, p).0) && Alloc(a, size, p).0.max <= max
    ensures size <= Room(b)
  {
    hide Payloads, Used, Inv;
    AllocUses(a, size, p, k);
    hide Alloc;
    HandedOutFits(Alloc(a, size, p).0, k, max);
    OneChunkUsed(b.chunks, k);
  }

  lemma TwinsFit(a: State, b: State, size: nat, p: nat, p': nat, k: nat, total: nat, max: nat)
    requires Twins(a.chunks, b.chunks, k, total, max - total) && |a.chunks| > k
    requires Inv(Alloc(a, size, p).0) && Alloc(a, size, p).0.max <= max
    ensures Twins(Alloc(a, size, p).0.chunks, Alloc(b, size, p').0.chunks, k, total, max - total)
    ensures Alloc(b, size, p').0.max == b.max
  {
    hide Payloads, Used, Inv, NewTotal, Room;
    TwinsRoom(a, b, size, p, k, total, max);
    AllocUses(a, size, p, k);
    AllocUses(b, size, p', k);
  }

  /** Two runs in step: the second with everything the first ever held as its maximum. */
  ghost predicate InStep(a: Config, b: Config, k: nat, n: nat, total: nat, max: nat) {
    && ConfigOk(a) && ConfigOk(b) && a.st.max <= max == b.st.max
    && Twins(a.st.chunks, b.st.chunks, k, total, max - total)
    && n <= |a.marks| == |b.marks|
    && forall i :: n <= i < |a.marks| ==> Twins(a.marks[i].before, b.marks[i].before, k, total, max - total)
  }

  /** The same operation, wherever the underlying allocator places a new chunk. */
  ghost predicate SameOp(op: Op, op': Op) {
    match op
    case DoMark => op' == DoMark
    case DoAlloc(size, _) => op'.DoAlloc? && op'.size == size
    case DoFree => op' == DoFree
  }

  ghost predicate SameOps(ops: seq<Op>, ops': seq<Op>) {
    |ops| == |ops'| && forall i :: 0 <= i < |ops| ==> SameOp(ops[i], ops'[i])
  }

  lemma AllocInStep(a: State, b: State, size: nat, p: nat, p': nat, k: nat, total: nat, max: nat)
    requires Inv(a) && Inv(b) && Inv(Alloc(a, size, p).0) && Alloc(a, size, p).0.max <= max == b.max
    requires Twins(a.chunks, b.chunks, k, total, max - total)
    ensures Twins(Alloc(a, size, p).0.chunks, Alloc(b, size, p').0.chunks, k, total, max - total)
    ensures Alloc(b, size, p').0.max == b.max
  {
    InvIsAccounted(a);
    InvIsAccounted(b);
    TotalIsPayloads(a);
    TotalIsPayloads(b);
    if |a.chunks| > k {
      hide Inv, Alloc, Accounted;
      TwinsFit(a, b, size, p, p', k, total, max);
    } else if size <= Room(a) {
      hide Inv, Alloc, Accounted, Room;
      TwinsBump(a, b, size, p, p', k, total, max - total);
    } else {
      hide Inv, Alloc, Accounted;
      assert a.chunks == a.chunks[..k] && b.chunks == b.chunks[..k];
      TwinsGrow(a, b, size, p, p', k, max);
    }
  }

  lemma AllocKeepsStep(a: Config, b: Config, size: nat, p: nat, p': nat, k: nat, n: nat, total: nat, max: nat)
    requires InStep(a, b, k, n, total, max) && Enabled(a, DoAlloc(size, p)) && Enabled(b, DoAlloc(size, p'))
    requires Step(a, DoAlloc(size, p)).st.max <= max
    ensures InStep(Step(a, DoAlloc(size, p)), Step(b, DoAlloc(size, p')), k, n, total, max)
  {
    AllocKeeps(a, size, p);
    AllocKeeps(b, size, p');
    hide Inv, BlocksOk, MarkOk, NotAfter, Alloc, FreshRegion, Twins;
    AllocInStep(a.st, b.st, size, p, p', k, total, max);
  }

  lemma MarkKeepsStep(a: Config, b: Config, k: nat, n: nat, total: nat, max: nat)
    requires InStep(a, b, k, n, total, max) && Enabled(a, DoMark) && Enabled(b, DoMark)
    ensures InStep(Step(a, DoMark), Step(b, DoMark), k, n, total, max)
  {
    MarkKeeps(a);
    MarkKeeps(b);
    hide ConfigOk, Twins;
  }

  lemma FreeKeepsStep(a: Config, b: Config, k: nat, n: nat, total: nat, max: nat)
    requires InStep(a, b, k, n, total, max) && n < |a.marks|
    requires Enabled(a, DoFree) && Enabled(b, DoFree)
    ensures InStep(Step(a, DoFree), Step(b, DoFree), k, n, total, max)
  {
    hide ConfigOk, Twins, Free, Inv, Payloads;
    FreeKeeps(a);
    FreeKeeps(b);
    FreeRestores(a);
    FreeRestores(b);
    var a', b', last := Step(a, DoFree), Step(b, DoFree), |a.marks| - 1;
    assert Twins(a.marks[last].before, b.marks[last].before, k, total, max - total);
    assert a'.marks == a.marks[..last] && b'.marks == b.marks[..last];
  }

  /** One operation keeps the runs in step. */
  lemma StepKeepsStep(a: Config, b: Config, op: Op, op': Op, k: nat, n: nat, total: nat, max: nat)
    requires InStep(a, b, k, n, total, max) && SameOp(op, op') && Enabled(a, op) && Enabled(b, op')
    requires Step(a, op).st.max <= max && n <= |Step(a, op).marks|
    ensures InStep(Step(a, op), Step(b, op'), k, n, total, max)
  {
    hide InStep, Enabled;
    match op
    case DoMark => MarkKeepsStep(a, b, k, n, total, max);
    case DoAlloc(size, p) => AllocKeepsStep(a, b, size, p, op'.chunk, k, n, total, max);
    case DoFree => MarksNonEmpty(a); FreeKeepsStep(a, b, k, n, total, max);
  }

  /** At no moment of the run are more than `limit` chunks held. */
  ghost predicate NeverMoreThan(c: Config, ops: seq<Op>, limit: nat)
    requires Legal(c, ops)
    decreases |ops|
  {
    |c.st.chunks| <= limit && (|ops| == 0 || NeverMoreThan(Step(c, ops[0]), ops[1..], limit))
  }

  lemma {:induction false} SecondRunHoldsOneChunk(
      a: Config, b: Config, ops: seq<Op>, ops': seq<Op>, k: nat, n: nat, total: nat, max: nat)
    requires InStep(a, b, k, n, total, max) && SameOps(ops, ops') && Legal(a, ops) && Legal(b, ops')
    requires KeepsMarks(a, ops, n) && Run(a, ops).st.max <= max
    ensures NeverMoreThan(b, ops', k + 1)
    decreases |ops|
  {
    HoldsOne(a, b, k, n, total, max);
    hide InStep, Enabled, Step, SameOp;
    if |ops| > 0 {
      var a', b' := Step(a, ops[0]), Step(b, ops'[0]);
      OuterMarksStay(a', ops[1..], n);
      StepKeepsStep(a, b, ops[0], ops'[0], k, n, total, max);
      SecondRunHoldsOneChunk(a', b', ops[1..], ops'[1..], k, n, total, max);
    }
  }

  lemma HoldsOne(a: Config, b: Config, k: nat, n: nat, total: nat, max: nat)
    requires InStep(a, b, k, n, total, max)
    ensures |b.st.chunks| <= k + 1
  {
  }

  /** The chunks the run obtains from the underlying allocator. */
  ghost function Obtained(c: Config, ops: seq<Op>): nat
    requires Legal(c, ops)
    decreases |ops|
  {
    if |ops| == 0 then 0 else
    Obtained(Step(c, ops[0]), ops[1..]) + if ops[0].DoAlloc? && ops[0].size > Room(c.st) then 1 else 0
  }

  /** The bytes a run of allocations asks for. */
  ghost function Requested(ops: seq<Op>): nat {
    if |ops| == 0 then 0 else (if ops[0].DoAlloc? then ops[0].size else 0) + Requested(ops[1..])
  }

  /** Allocations that fit into the top chunk together obtain no chunk. */
  lemma {:induction false} RoomSuffices(c: Config, ops: seq<Op>)
    requires Legal(c, ops) && (forall i :: 0 <= i < |ops| ==> ops[i].DoAlloc?)
    requires |c.st.chunks| > 0 && Requested(ops) <= Room(c.st)
    ensures Obtained(c, ops) == 0
    decreases |ops|
  {
    hide FreshRegion, NewTotal;
    if |ops| > 0 { RoomSuffices(Step(c, ops[0]), ops[1..]); }
  }

  /** The law behind the growth by half: after an allocation that raises the maximum,
      further allocations of together at most half of everything asked for so far
      obtain no chunk, and the total exceeds one and a half times that by less than 8. */
  lemma GrowthLeavesHalf(c: Config, size: nat, chunk: nat, ops: seq<Op>)
    requires ConfigOk(c) && Enabled(c, DoAlloc(size, chunk)) && size > Room(c.st) && c.st.total + size > c.st.max
    requires Legal(Step(c, DoAlloc(size, chunk)), ops) && (forall i :: 0 <= i < |ops| ==> ops[i].DoAlloc?)
    requires 2 * Requested(ops) <= c.st.total + size
    ensures Obtained(Step(c, DoAlloc(size, chunk)), ops) == 0
    ensures 2 * Step(c, DoAlloc(size, chunk)).st.total < 3 * (c.st.total + size) + 16
  {
    TotalInNumbers(c.st.total, c.st.max, size);
    hide ConfigOk, FreshRegion, NewTotal;
    RoomSuffices(Step(c, DoAlloc(size, chunk)), ops);
  }

  /** Without a release every obtained chunk is still held at the end. */
  lemma {:induction false} ObtainedIsHeld(c: Config, ops: seq<Op>)
    requires Legal(c, ops) && DoFree !in ops
    ensures Obtained(c, ops) == |Run(c, ops).st.chunks| - |c.st.chunks|
    decreases |ops|
  {
    hide FreshRegion, NewTotal;
    if |ops| > 0 { ObtainedIsHeld(Step(c, ops[0]), ops[1..]); }
  }

  lemma {:induction false} HeldAtTheEnd(c: Config, ops: seq<Op>, limit: nat)
    requires Legal(c, ops) && NeverMoreThan(c, ops, limit)
    ensures |Run(c, ops).st.chunks| <= limit
    decreases |ops|
  {
    hide Enabled, Step;
    if |ops| > 0 { HeldAtTheEnd(Step(c, ops[0]), ops[1..], limit); }
  }

  /** The state the second run starts from is in step with the first one's start. */
  lemma StartInStep(c: Config, c2: Config)
    requires ConfigOk(c) && ConfigOk(c2) && c.st.max <= c2.st.max
    requires c2.st.chunks == c.st.chunks && c2.st.total == c.st.total && c2.marks == c.marks
    ensures |c.st.chunks| > 0 && |c2.st.chunks| > 0
    ensures InStep(Step(c, DoMark), Step(c2, DoMark), |c.st.chunks|, |c.marks| + 1, c.st.total, c2.st.max)
  {
    ConfigNonEmpty(c);
    MarkKeeps(c);
    MarkKeeps(c2);
    TotalIsPayloads(c.st);
    hide ConfigOk, Payloads, Inv;
    var k := |c.st.chunks|;
    assert c.st.chunks[..k] == c.st.chunks && c.st.chunks[k..] == [];
  }

  /** Mark, any properly nested operations, release; then the same operations again,
      wherever the underlying allocator places its chunks: at no moment of the second
      time is more than one new chunk held. If nothing is released in between, at most
      one is obtained at all. */
  lemma RunTwice(c: Config, body: seq<Op>, body': seq<Op>)
    requires ConfigOk(c) && SameOps(body, body')
    requires Legal(Step(c, DoMark), body) && KeepsMarks(Step(c, DoMark), body, |c.marks| + 1)
    requires |Run(Step(c, DoMark), body).marks| == |c.marks| + 1
    ensures
      var first := Run(Step(c, DoMark), body);
      && Enabled(first, DoFree)
      && var c2 := Step(first, DoFree);
      && ConfigOk(c2)
      && (Legal(Step(c2, DoMark), body') ==>
            && NeverMoreThan(Step(c2, DoMark), body', |c.st.chunks| + 1)
            && (DoFree !in body' ==> Obtained(Step(c2, DoMark), body') <= 1))
  {
    hide ConfigOk, Free, Alloc, FreshRegion, InStep;
    ConfigNonEmpty(c);
    var marked := Step(c, DoMark);
    ReleaseUndoesEverything(c, body);
    MarkKeeps(c);
    RunsAreSafe(marked, body);
    var first := Run(marked, body);
    StepKeeps(first, DoFree);
    var c2 := Step(first, DoFree);
    FreeKeepsMax(first);
    StartInStep(c, c2);
    var again := Step(c2, DoMark);
    if Legal(again, body') {
      SecondRunHoldsOneChunk(marked, again, body, body', |c.st.chunks|, |c.marks| + 1, c.st.total, c2.st.max);
      HeldAtTheEnd(again, body', |c.st.chunks| + 1);
      if DoFree !in body' { ObtainedIsHeld(again, body'); }
    }
  }

  lemma ConfigNonEmpty(c: Config)
    requires ConfigOk(c)
    ensures |c.st.chunks| > 0 && Accounted(c.st) && c.st.max % ALIGN == 0
  {
    InvIsAccounted(c.st);
  }

  lemma FreeKeepsMax(c: Config)
    requires Enabled(c, DoFree)
    ensures Step(c, DoFree).st.max == c.st.max
  {
  }

  // ---------------------------------------------------------------- the linked headers

  /** A chunk header in storage. */
  class Header {
    const start: nat
    const end: nat
    const prev: Header?
    var alloc_point: nat

    constructor (start: nat, end: nat, alloc_point: nat, prev: Header?)
      ensures this.start == start && this.end == end && this.alloc_point == alloc_point && this.prev == prev
    {
      this.start, this.end, this.alloc_point, this.prev := start, end, alloc_point, prev;
    }

    ghost function Value(): Chunk
      reads this
    {
      Chunk(start, end, alloc_point)
    }
  }

  /** The allocator's global variables and the headers they reach. */
  class TmpStack {
    var current: Header
    var current_total_allocation: nat
    var max_total_allocation: nat
    /** The headers from the static one to the current one, and the state they stand for. */
    ghost var headers: seq<Header>
    ghost var st: State

    /** The headers are linked and hold the chunks of the state. */
    ghost predicate Chained()
      reads this, headers
    {
      && |headers| == |st.chunks| > 0 && headers[0].prev == null
      && (forall i :: 0 < i < |headers| ==> headers[i].prev == headers[i - 1])
      && (forall i, j :: 0 <= i < j < |headers| ==> headers[i] != headers[j])
      && (forall i :: 0 <= i < |headers| ==> st.chunks[i] == headers[i].Value())
    }

    ghost predicate Linked()
      reads this, headers
    {
      && Chained() && current == headers[|headers| - 1]
      && st.total == current_total_allocation && st.max == max_total_allocation
    }

    ghost predicate Valid()
      reads this, headers
    {
      Linked() && Inv(st)
    }

    constructor (address: nat)
      requires address % ALIGN == 0
      ensures Valid() && st == Start(address).st && fresh(headers)
    {
      var h := new Header(address, address, address, null);
      current := h;
      current_total_allocation, max_total_allocation := 0, 0;
      headers := [h];
      st := Start(address).st;
    }

    /** The size of a new chunk, and both totals with it. */
    method NextChunkSize(size: nat) returns (chunk_size: nat)
      requires current_total_allocation <= max_total_allocation && max_total_allocation % ALIGN == 0
      modifies this`current_total_allocation, this`max_total_allocation
      ensures current_total_allocation == NewTotal(old(current_total_allocation), old(max_total_allocation), size)
      ensures max_total_allocation == Max(old(max_total_allocation), current_total_allocation)
      ensures chunk_size == current_total_allocation - old(current_total_allocation) + HSIZ
    {
      NewTotalBounds(current_total_allocation, max_total_allocation, size);
      hide RoundUp;
      var now := current_total_allocation + size;
      if now > max_total_allocation {
        now := RoundUp(now * 3 / 2);
        chunk_size := now - current_total_allocation + HSIZ;
        current_total_allocation := now;
        max_total_allocation := current_total_allocation;
      } else {
        chunk_size := max_total_allocation - current_total_allocation + HSIZ;
        current_total_allocation := max_total_allocation;
      }
    }

    /** A new chunk becomes current, with nothing allocated in it. */
    method AddChunk(size: nat, chunk: nat)
      requires Linked() && st.total <= st.max && st.max % ALIGN == 0
      modifies this
      ensures Linked() && old(headers) <= headers && fresh(headers[|old(headers)|..]) && fresh(current)
      ensures st == Grown(old(st), size, chunk)
      ensures current.start == chunk && current.alloc_point == chunk + 24 && current.prev == old(current)
      ensures current.end - chunk == current_total_allocation - old(current_total_allocation) + 24
      ensures
        var asked, now := old(current_total_allocation) + size, current_total_allocation;
        if asked > old(max_total_allocation) then
          now % 8 == 0 && 3 * asked / 2 <= now < 3 * asked / 2 + 8 && max_total_allocation == now
        else
          now == max_total_allocation == old(max_total_allocation)
    {
      TotalInNumbers(current_total_allocation, max_total_allocation, size);
      NewTotalBounds(current_total_allocation, max_total_allocation, size);
      var chunk_size := NextChunkSize(size);
      hide NewTotal;
      var header := new Header(chunk, chunk + chunk_size, chunk + HSIZ, current);
      current := header;
      headers := headers + [header];
      st := Grown(st, size, chunk);
    }

    /** The allocation point of the current chunk moves up. */
    method Bump(size: nat) returns (that: nat)
      requires Linked()
      modifies this, current
      ensures Linked() && headers == old(headers) && current == old(current)
      ensures st == Bumped(old(st), size) && that == Top(old(st)).point
      ensures that == old(current.alloc_point) && current.alloc_point == that + size
      ensures current_total_allocation == old(current_total_allocation)
      ensures max_total_allocation == old(max_total_allocation)
    {
      that := current.alloc_point;
      current.alloc_point := that + size;
      st := Bumped(st, size);
    }

    /** __gmp_tmp_alloc: `chunk` is what the underlying allocator returns, if asked. */
    method Allocate(size: nat, chunk: nat) returns (that: nat)
      requires Valid() && size % ALIGN == 0 && FreshRegion(st, size, chunk)
      modifies this, headers
      ensures Valid() && old(headers) <= headers && fresh(headers[|old(headers)|..])
      ensures (st, that) == Alloc(old(st), size, chunk)
      ensures current.alloc_point == that + size
      ensures size <= old(current.end - current.alloc_point) ==>
        && that == old(current.alloc_point) && current == old(current)
        && current_total_allocation == old(current_total_allocation)
        && max_total_allocation == old(max_total_allocation)
      ensures size > old(current.end - current.alloc_point) ==>
        && that == chunk + 24 && current.start == chunk && current.prev == old(current)
        && current.end - chunk == current_total_allocation - old(current_total_allocation) + 24
        && var asked, now := old(current_total_allocation) + size, current_total_allocation;
           if asked > old(max_total_allocation) then
             now % 8 == 0 && 3 * asked / 2 <= now < 3 * asked / 2 + 8 && max_total_allocation == now
           else
             now == max_total_allocation == old(max_total_allocation)
    {
      AllocKeepsInv(st, size, chunk);
      InvIsAccounted(st);
      AllocInSteps(st, size, chunk);
      hide Inv, Alloc, Grown, Bumped, FreshRegion;
      if size > current.end - current.alloc_point {
        AddChunk(size, chunk);
      }
      that := Bump(size);
    }

    /** __gmp_tmp_mark */
    method SetMark() returns (which_chunk: Header, alloc_point: nat)
      requires Valid()
      ensures which_chunk == headers[|headers| - 1]
      ensures |st.chunks| > 0 && alloc_point == Top(st).point
    {
      which_chunk := current;
      alloc_point := current.alloc_point;
    }

    /** The loop of __gmp_tmp_free: pops chunks until the marked one is current. */
    method PopTo(which_chunk: Header, ghost k: nat)
      requires Valid() && k < |headers| && headers[k] == which_chunk
      modifies this
      ensures st == old(st) && headers == old(headers) && max_total_allocation == old(max_total_allocation)
      ensures Chained() && current == which_chunk && current_total_allocation == Payloads(st.chunks[..k + 1])
    {
      hide Inv, Payloads, Payload;
      TotalIsPayloads(st);
      PrefixWhole(st.chunks);
      ghost var n := |headers|;
      while which_chunk != current
        invariant k < n <= |headers| && current == headers[n - 1]
        invariant st == old(st) && headers == old(headers) && max_total_allocation == old(max_total_allocation)
        invariant current_total_allocation == Payloads(st.chunks[..n])
        decreases n
      {
        var tmp := current;
        assert st.chunks[n - 1] == tmp.Value() && tmp.prev == headers[n - 2];
        PopPayload(st, n);
        current := tmp.prev;
        current_total_allocation := current_total_allocation - ((tmp.end - tmp.start) - HSIZ);
        n := n - 1;
      }
      assert n == k + 1;
    }

    /** The marked chunk is current again: its allocation point is set back. */
    method Rewind(alloc_point: nat, ghost k: nat, ghost goal: State)
      requires Chained() && k < |headers| && current == headers[k]
      requires goal.chunks == st.chunks[..k] + [st.chunks[k].(point := alloc_point)]
      requires goal.total == current_total_allocation && goal.max == max_total_allocation
      modifies this, current
      ensures Linked() && headers == old(headers)[..k + 1] && st == goal
    {
      current.alloc_point := alloc_point;
      headers := headers[..k + 1];
      st := goal;
    }

    /** __gmp_tmp_free: back to the marked chunk and its allocation point. */
    method Release(which_chunk: Header, alloc_point: nat, ghost k: nat)
      requires Valid() && k < |headers| && headers[k] == which_chunk && alloc_point % ALIGN == 0
      requires
        if k == 0 then alloc_point == st.chunks[0].point
        else st.chunks[k].start + HSIZ <= alloc_point <= st.chunks[k].end
      modifies this, headers
      ensures Valid() && headers == old(headers)[..k + 1]
      ensures st == Free(old(st), k, alloc_point)
    {
      FreeKeepsInv(st, k, alloc_point);
      FreeShape(st, k, alloc_point);
      hide Inv, Payloads, Free, Chained;
      ghost var goal := Free(st, k, alloc_point);
      SizesMatch();
      PopTo(which_chunk, k);
      Rewind(alloc_point, k, goal);
    }

    lemma SizesMatch()
      requires Linked()
      ensures |headers| == |st.chunks| && st.max == max_total_allocation
    {
    }
  }

  lemma FreeShape(st: State, k: nat, point: nat)
    requires k < |st.chunks|
    ensures Free(st, k, point).chunks == st.chunks[..k] + [st.chunks[k].(point := point)]
    ensures Free(st, k, point).max == st.max
  {
  }

  lemma PrefixWhole(chunks: seq<Chunk>)
    ensures chunks[..|chunks|] == chunks
  {
  }

  /** Popping the last of n chunks takes its payload off the total. */
  lemma PopPayload(st: State, n: nat)
    requires Inv(st) && 1 < n <= |st.chunks|
    ensures
      var c := st.chunks[n - 1];
      0 <= Payloads(st.chunks[..n - 1]) == Payloads(st.chunks[..n]) - (c.end - c.start - HSIZ)
  {
    PrefixTotal(st, n - 2);
    hide Inv;
    assert st.chunks[..n][..n - 1] == st.chunks[..n - 1];
  }
}
