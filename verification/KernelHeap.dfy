/** The kernel heap of kernel/mm.c: a doubly linked list of blocks kept in headers that
    sit in the managed memory itself, first-fit allocation with splitting, and
    coalescing on both sides when a block is freed. */
module KernelHeap {
  import opened Machine

  const HEADER := 16
  const HEAP_START := 0xD000_0000
  const HEAP_SIZE := 16 * 1024 * 1024
  const HEAP_END := HEAP_START + HEAP_SIZE

  // ---------------------------------------------------------------- block lists

  /** One block: a 16-byte header at `addr`, then `size` bytes of payload. */
  datatype Block = Block(addr: int, size: int, free: bool) {
    function Payload(): int { addr + HEADER }
    function End(): int { addr + HEADER + size }
  }

  predicate Meets(a: Block, b: Block) {
    a.End() == b.addr && !(a.free && b.free)
  }

  /** The blocks fill [lo, hi) without gap or overlap, and no two neighbours are free. */
  ghost predicate Tiles(bs: seq<Block>, lo: int, hi: int) {
    && (bs == [] ==> lo == hi)
    && (bs != [] ==> bs[0].addr == lo && bs[|bs| - 1].End() == hi)
    && (forall i :: 0 <= i < |bs| ==> bs[i].size >= 0)
    && (forall i, j :: 0 <= i && j == i + 1 && j < |bs| ==> Meets(bs[i], bs[j]))
  }

  ghost predicate TilesHeap(bs: seq<Block>) {
    Tiles(bs, HEAP_START, HEAP_END)
  }

  function InitialBlocks(): seq<Block> {
    [Block(HEAP_START, HEAP_SIZE - HEADER, true)]
  }

  ghost function Used(bs: seq<Block>): set<Block> {
    set i | 0 <= i < |bs| && !bs[i].free :: bs[i]
  }

  predicate Fits(b: Block, need: int) {
    b.free && b.size >= need
  }

  predicate IsFirstFit(bs: seq<Block>, need: int, i: int) {
    0 <= i < |bs| && Fits(bs[i], need) && forall j :: 0 <= j < i ==> !Fits(bs[j], need)
  }

  predicate HasHole(bs: seq<Block>, need: int) {
    exists i :: 0 <= i < |bs| && Fits(bs[i], need)
  }

  /** Take block i for a request, splitting off the rest when a header and 8 bytes remain. */
  function TakeAt(bs: seq<Block>, i: int, size: int): seq<Block>
    requires 0 <= i < |bs|
  {
    var b := bs[i];
    if b.size >= size + HEADER + 8 then
      bs[..i] + [Block(b.addr, size, false), Block(b.addr + HEADER + size, b.size - size - HEADER, true)] + bs[i + 1..]
    else
      bs[i := Block(b.addr, b.size, false)]
  }

  /** The first and the last block that `ReleaseAt` covers. */
  function CoverStart(bs: seq<Block>, i: int): int
    requires 0 <= i < |bs|
  {
    if i > 0 && bs[i - 1].free then i - 1 else i
  }

  function CoverEnd(bs: seq<Block>, i: int): int
    requires 0 <= i < |bs|
  {
    if i + 1 < |bs| && bs[i + 1].free then i + 1 else i
  }

  /** Release block i: one free block now covers it together with its free neighbours. */
  function ReleaseAt(bs: seq<Block>, i: int): seq<Block>
    requires 0 <= i < |bs|
  {
    var lo, hi := CoverStart(bs, i), CoverEnd(bs, i);
    bs[..lo] + [Block(bs[lo].addr, bs[hi].End() - bs[lo].addr - HEADER, true)] + bs[hi + 1..]
  }

  lemma {:induction false} BlocksAscend(bs: seq<Block>, lo: int, hi: int, i: int, j: int)
    requires Tiles(bs, lo, hi) && 0 <= i < j < |bs|
    ensures bs[i].End() <= bs[j].addr
    decreases j
  {
    assert Meets(bs[j - 1], bs[j]);
    if i < j - 1 {
      BlocksAscend(bs, lo, hi, i, j - 1);
    }
  }

  lemma BlocksInside(bs: seq<Block>, lo: int, hi: int, i: int)
    requires Tiles(bs, lo, hi) && 0 <= i < |bs|
    ensures lo <= bs[i].addr && bs[i].End() <= hi
  {
    if i > 0 {
      BlocksAscend(bs, lo, hi, 0, i);
    }
    if i < |bs| - 1 {
      BlocksAscend(bs, lo, hi, i, |bs| - 1);
    }
  }

  lemma TilesTail(bs: seq<Block>, lo: int, hi: int)
    requires Tiles(bs, lo, hi) && bs != []
    ensures Tiles(bs[1..], bs[0].End(), hi)
  {
    var t := bs[1..];
    forall i, j | 0 <= i && j == i + 1 && j < |t| ensures Meets(t[i], t[j]) {
      assert Meets(bs[i + 1], bs[j + 1]);
    }
    if t != [] {
      assert Meets(bs[0], bs[1]);
    }
  }

  lemma TakeKeepsTiling(bs: seq<Block>, lo: int, hi: int, i: int, size: int)
    requires Tiles(bs, lo, hi) && 0 <= i < |bs| && Fits(bs[i], size + HEADER) && size >= 0
    ensures Tiles(TakeAt(bs, i, size), lo, hi)
  {
    var t := TakeAt(bs, i, size);
    forall p, q | 0 <= p && q == p + 1 && q < |t| ensures Meets(t[p], t[q]) {
      if q <= i {
        assert Meets(bs[p], bs[q]);
      } else if |t| == |bs| {
        assert Meets(bs[p], bs[q]);
      } else if p > i {
        assert Meets(bs[p - 1], bs[p]);
      }
    }
  }

  /** Blocks l to h of a tiling, replaced by one block over the same bytes. */
  lemma CoverKeepsTiling(bs: seq<Block>, lo: int, hi: int, l: int, h: int, b: Block)
    requires Tiles(bs, lo, hi) && 0 <= l <= h < |bs|
    requires b.addr == bs[l].addr && b.End() == bs[h].End() && b.size >= 0
    requires b.free ==> (l > 0 ==> !bs[l - 1].free) && (h + 1 < |bs| ==> !bs[h + 1].free)
    ensures Tiles(bs[..l] + [b] + bs[h + 1..], lo, hi)
  {
    var t := bs[..l] + [b] + bs[h + 1..];
    forall p, q | 0 <= p && q == p + 1 && q < |t| ensures Meets(t[p], t[q]) {
      if q <= l {
        assert Meets(bs[p], bs[q]);
      } else {
        assert Meets(bs[p + h - l], bs[q + h - l]);
      }
    }
  }

  lemma ReleaseKeepsTiling(bs: seq<Block>, lo: int, hi: int, i: int)
    requires Tiles(bs, lo, hi) && 0 <= i < |bs|
    ensures Tiles(ReleaseAt(bs, i), lo, hi)
  {
    var l, h := CoverStart(bs, i), CoverEnd(bs, i);
    if l < i { assert Meets(bs[l], bs[i]); }
    if i < h { assert Meets(bs[i], bs[h]); }
    if 0 < l { assert Meets(bs[l - 1], bs[l]); }
    if h + 1 < |bs| { assert Meets(bs[h], bs[h + 1]); }
    var b := Block(bs[l].addr, bs[h].End() - bs[l].addr - HEADER, true);
    assert b.size >= bs[i].size;
    CoverKeepsTiling(bs, lo, hi, l, h, b);
    assert ReleaseAt(bs, i) == bs[..l] + [b] + bs[h + 1..];
  }

  // ---------------------------------------------------------------- the list is canonical

  lemma UsedByIndex(bs: seq<Block>, b: Block) returns (i: int)
    requires b in Used(bs)
    ensures 0 <= i < |bs| && bs[i] == b && !b.free && LiveAt(bs, b.Payload(), i)
  {
    i :| 0 <= i < |bs| && !bs[i].free && bs[i] == b;
  }

  lemma UsedTail(bs: seq<Block>, lo: int, hi: int)
    requires Tiles(bs, lo, hi) && bs != []
    ensures Used(bs[1..]) == Used(bs) - {bs[0]}
    ensures forall b :: b in Used(bs[1..]) ==> b.addr >= bs[0].End()
  {
    forall b | b in Used(bs[1..]) ensures b in Used(bs) && b.addr >= bs[0].End() && b != bs[0] {
      var i := UsedByIndex(bs[1..], b);
      assert bs[i + 1] == b;
      BlocksAscend(bs, lo, hi, 0, i + 1);
    }
    forall b | b in Used(bs) && b != bs[0] ensures b in Used(bs[1..]) {
      var i := UsedByIndex(bs, b);
      assert bs[1..][i - 1] == b;
    }
  }

  /** A block at the front of one tiling and free in the other would start two ways at once. */
  lemma HeadsAgree(a: seq<Block>, b: seq<Block>, lo: int, hi: int)
    requires Tiles(a, lo, hi) && Tiles(b, lo, hi) && Used(a) == Used(b) && a != [] && b != []
    ensures a[0] == b[0]
  {
    UsedTail(a, lo, hi);
    UsedTail(b, lo, hi);
    if !a[0].free {
      assert a[0] in Used(b);
    } else if !b[0].free {
      assert b[0] in Used(a);
    } else {
      FreeHeadEnd(a, b, lo, hi);
      FreeHeadEnd(b, a, lo, hi);
    }
  }

  lemma FreeHeadEnd(a: seq<Block>, b: seq<Block>, lo: int, hi: int)
    requires Tiles(a, lo, hi) && Tiles(b, lo, hi) && Used(a) == Used(b)
    requires a != [] && b != [] && a[0].free && b[0].free
    ensures b[0].End() <= a[0].End()
  {
    UsedTail(b, lo, hi);
    BlocksInside(b, lo, hi, 0);
    if |a| > 1 {
      assert Meets(a[0], a[1]);
      assert a[1] in Used(a);
      assert a[1] != b[0];
    }
  }

  /** The block list is a function of the allocated blocks alone: nothing else about the
      history of the heap can be read off it. */
  lemma {:induction false} BlockListIsCanonical(a: seq<Block>, b: seq<Block>, lo: int, hi: int)
    requires Tiles(a, lo, hi) && Tiles(b, lo, hi) && Used(a) == Used(b)
    ensures a == b
    decreases |a|
  {
    if a == [] {
      if b != [] { BlocksInside(b, lo, hi, 0); }
    } else if b == [] {
      BlocksInside(a, lo, hi, 0);
    } else {
      HeadsAgree(a, b, lo, hi);
      TilesTail(a, lo, hi);
      TilesTail(b, lo, hi);
      UsedTail(a, lo, hi);
      UsedTail(b, lo, hi);
      BlockListIsCanonical(a[1..], b[1..], a[0].End(), hi);
      assert a == [a[0]] + a[1..] && b == [b[0]] + b[1..];
    }
  }

  // ---------------------------------------------------------------- runs

  /** The heap as its callers see it: the block list, and for every live pointer the
      number of bytes that were asked for. */
  datatype State = State(blocks: seq<Block>, live: map<int, int>)

  datatype Op = Malloc(size: int) | Free(ptr: int)

  ghost predicate LiveAt(bs: seq<Block>, p: int, i: int) {
    0 <= i < |bs| && !bs[i].free && bs[i].Payload() == p
  }

  ghost predicate Holds(bs: seq<Block>, p: int, bytes: int) {
    exists i :: LiveAt(bs, p, i) && bytes <= bs[i].size
  }

  ghost predicate Inv(s: State) {
    && TilesHeap(s.blocks)
    && (forall p :: p in s.live ==> s.live[p] > 0 && Holds(s.blocks, p, s.live[p]))
    && (forall p, i :: LiveAt(s.blocks, p, i) ==> p in s.live)
  }

  function InitialState(): State { State(InitialBlocks(), map[]) }

  /** The bytes a request looks for, in 32-bit arithmetic. */
  function Need(size: int): int { (size + HEADER) % WORD }

  /** One call that finds a hole (`Malloc`) or is given a live pointer (`Free`); requests
      of zero bytes and frees of the null pointer change nothing. */
  ghost predicate Step(s: State, op: Op, s': State) {
    match op
    case Malloc(size) =>
      if size == 0 then s' == s
      else 0 < size < WORD - HEADER && exists i :: IsFirstFit(s.blocks, Need(size), i) && s' == Taken(s, i, size)
    case Free(p) =>
      if p == 0 then s' == s
      else exists i :: LiveAt(s.blocks, p, i) && s' == Released(s, i)
  }

  ghost function Taken(s: State, i: int, size: int): State
    requires 0 <= i < |s.blocks|
  {
    State(TakeAt(s.blocks, i, size), s.live[s.blocks[i].Payload() := size])
  }

  ghost function Released(s: State, i: int): State
    requires 0 <= i < |s.blocks|
  {
    State(ReleaseAt(s.blocks, i), s.live - {s.blocks[i].Payload()})
  }

  ghost predicate IsRun(ss: seq<State>, ops: seq<Op>) {
    && |ss| == |ops| + 1
    && ss[0] == InitialState()
    && forall k :: 0 <= k < |ops| ==> Step(ss[k], ops[k], ss[k + 1])
  }

  lemma DistinctPayloads(bs: seq<Block>, lo: int, hi: int, i: int, j: int)
    requires Tiles(bs, lo, hi) && 0 <= i < |bs| && 0 <= j < |bs| && bs[i].Payload() == bs[j].Payload()
    ensures i == j
  {
    if i < j {
      BlocksAscend(bs, lo, hi, i, j);
    } else if j < i {
      BlocksAscend(bs, lo, hi, j, i);
    }
  }

  ghost function Granted(bs: seq<Block>, i: int, size: int): Block
    requires 0 <= i < |bs|
  {
    Block(bs[i].addr, if bs[i].size >= size + HEADER + 8 then size else bs[i].size, false)
  }

  lemma UsedAfterTake(bs: seq<Block>, i: int, size: int)
    requires 0 <= i < |bs| && bs[i].free
    ensures Used(TakeAt(bs, i, size)) == Used(bs) + {Granted(bs, i, size)}
  {
    var t := TakeAt(bs, i, size);
    var d := |t| - |bs|;
    assert t[i] == Granted(bs, i, size);
    forall b | b in Used(t) ensures b in Used(bs) + {t[i]} {
      var j := UsedByIndex(t, b);
      assert j > i ==> j - d >= 0 && (j == i + d || bs[j - d] == t[j]);
    }
    forall b | b in Used(bs) ensures b in Used(t) {
      var j := UsedByIndex(bs, b);
      assert t[if j < i then j else j + d] == b;
    }
  }

  lemma UsedLeftAfterRelease(bs: seq<Block>, lo: int, hi: int, i: int, b: Block)
    requires Tiles(bs, lo, hi) && 0 <= i < |bs| && b in Used(ReleaseAt(bs, i))
    ensures b in Used(bs) && b != bs[i]
  {
    var l, h, t := CoverStart(bs, i), CoverEnd(bs, i), ReleaseAt(bs, i);
    var j := UsedByIndex(t, b);
    var k := if j < l then j else j + h - l;
    assert j != l && bs[k] == b && k != i;
    if b == bs[i] { DistinctPayloads(bs, lo, hi, i, k); }
  }

  lemma UsedStaysAfterRelease(bs: seq<Block>, i: int, b: Block)
    requires 0 <= i < |bs| && b in Used(bs) && b != bs[i]
    ensures b in Used(ReleaseAt(bs, i))
  {
    var l, h, t := CoverStart(bs, i), CoverEnd(bs, i), ReleaseAt(bs, i);
    var j := UsedByIndex(bs, b);
    assert j < l || j > h;
    assert t[if j < l then j else j - (h - l)] == b;
  }

  lemma UsedAfterRelease(bs: seq<Block>, lo: int, hi: int, i: int)
    requires Tiles(bs, lo, hi) && 0 <= i < |bs| && !bs[i].free
    ensures Used(ReleaseAt(bs, i)) == Used(bs) - {bs[i]}
  {
    forall b | b in Used(ReleaseAt(bs, i)) ensures b in Used(bs) - {bs[i]} {
      UsedLeftAfterRelease(bs, lo, hi, i, b);
    }
    forall b | b in Used(bs) - {bs[i]} ensures b in Used(ReleaseAt(bs, i)) {
      UsedStaysAfterRelease(bs, i, b);
    }
  }

  lemma UsedHolds(bs: seq<Block>, b: Block, p: int, bytes: int)
    requires b in Used(bs) && b.Payload() == p && bytes <= b.size
    ensures Holds(bs, p, bytes)
  {
    var i := UsedByIndex(bs, b);
    assert LiveAt(bs, p, i);
  }

  lemma TakenKeepsInv(s: State, i: int, size: int)
    requires Inv(s) && 0 < size && 0 <= i < |s.blocks| && Fits(s.blocks[i], size + HEADER)
    ensures Inv(Taken(s, i, size))
    ensures s.blocks[i].Payload() !in s.live
  {
    var t := Taken(s, i, size);
    var g := Granted(s.blocks, i, size);
    TakeKeepsTiling(s.blocks, HEAP_START, HEAP_END, i, size);
    UsedAfterTake(s.blocks, i, size);
    if g.Payload() in s.live {
      var j :| LiveAt(s.blocks, g.Payload(), j);
      DistinctPayloads(s.blocks, HEAP_START, HEAP_END, i, j);
    }
    UsedHolds(t.blocks, g, g.Payload(), size);
    forall p, j | LiveAt(t.blocks, p, j) ensures p in t.live {
      if t.blocks[j] != g {
        var k := UsedByIndex(s.blocks, t.blocks[j]);
      }
    }
    forall p | p in s.live ensures Holds(t.blocks, p, s.live[p]) {
      var j :| LiveAt(s.blocks, p, j) && s.live[p] <= s.blocks[j].size;
      UsedHolds(t.blocks, s.blocks[j], p, s.live[p]);
    }
  }

  lemma ReleasedKeepsInv(s: State, i: int)
    requires Inv(s) && 0 <= i < |s.blocks| && !s.blocks[i].free
    ensures Inv(Released(s, i))
  {
    var t := Released(s, i);
    ReleaseKeepsTiling(s.blocks, HEAP_START, HEAP_END, i);
    UsedAfterRelease(s.blocks, HEAP_START, HEAP_END, i);
    forall p | p in t.live ensures Holds(t.blocks, p, t.live[p]) {
      var j :| LiveAt(s.blocks, p, j) && s.live[p] <= s.blocks[j].size;
      UsedHolds(t.blocks, s.blocks[j], p, s.live[p]);
    }
    forall p, j | LiveAt(t.blocks, p, j) ensures p in t.live {
      var k := UsedByIndex(s.blocks, t.blocks[j]);
      if p == s.blocks[i].Payload() {
        DistinctPayloads(s.blocks, HEAP_START, HEAP_END, i, k);
      }
    }
  }

  lemma StepKeepsInv(s: State, op: Op, s': State)
    requires Inv(s) && Step(s, op, s')
    ensures Inv(s')
  {
    match op
    case Malloc(size) =>
      if size != 0 {
        var i :| IsFirstFit(s.blocks, Need(size), i) && s' == Taken(s, i, size);
        TakenKeepsInv(s, i, size);
      }
    case Free(p) =>
      if p != 0 {
        var i :| LiveAt(s.blocks, p, i) && s' == Released(s, i);
        ReleasedKeepsInv(s, i);
      }
  }

  /** In every run the list tiles the heap and serves exactly the live pointers. */
  lemma {:induction false} RunKeepsInv(ss: seq<State>, ops: seq<Op>, k: int)
    requires IsRun(ss, ops) && 0 <= k <= |ops|
    ensures Inv(ss[k])
    decreases k
  {
    if k == 0 {
      assert forall b :: b !in Used(InitialBlocks());
    } else {
      RunKeepsInv(ss, ops, k - 1);
      assert Step(ss[k - 1], ops[k - 1], ss[k - 1 + 1]);
      StepKeepsInv(ss[k - 1], ops[k - 1], ss[k]);
    }
  }

  ghost predicate Disjoint(a: int, b: int, c: int, d: int) {
    b <= c || d <= a
  }

  lemma PayloadAvoidsHeader(s: State, p: int, i: int)
    requires Inv(s) && p in s.live && 0 <= i < |s.blocks|
    ensures HEAP_START + HEADER <= p && p + s.live[p] <= HEAP_END
    ensures Disjoint(p, p + s.live[p], s.blocks[i].addr, s.blocks[i].addr + HEADER)
  {
    var j :| LiveAt(s.blocks, p, j) && s.live[p] <= s.blocks[j].size;
    BlocksInside(s.blocks, HEAP_START, HEAP_END, j);
    if j < i { BlocksAscend(s.blocks, HEAP_START, HEAP_END, j, i); }
    if i < j { BlocksAscend(s.blocks, HEAP_START, HEAP_END, i, j); }
  }

  /** What the invariant means to callers: payloads are inside the heap, hold the bytes
      asked for, avoid every header and avoid each other. */
  lemma LivePayloadsAreSeparate(s: State, p: int, q: int, i: int)
    requires Inv(s) && p in s.live && q in s.live && p != q && 0 <= i < |s.blocks|
    ensures HEAP_START + HEADER <= p && p + s.live[p] <= HEAP_END
    ensures Disjoint(p, p + s.live[p], q, q + s.live[q])
    ensures Disjoint(p, p + s.live[p], s.blocks[i].addr, s.blocks[i].addr + HEADER)
  {
    PayloadAvoidsHeader(s, p, i);
    var j :| LiveAt(s.blocks, p, j) && s.live[p] <= s.blocks[j].size;
    var k :| LiveAt(s.blocks, q, k) && s.live[q] <= s.blocks[k].size;
    if j < k { BlocksAscend(s.blocks, HEAP_START, HEAP_END, j, k); }
    if k < j { BlocksAscend(s.blocks, HEAP_START, HEAP_END, k, j); }
  }

  lemma TakenKeepsBlock(s: State, i: int, size: int, b: Block)
    requires Inv(s) && 0 < size && 0 <= i < |s.blocks| && Fits(s.blocks[i], size + HEADER)
    requires b in Used(s.blocks) && b.Payload() in s.live
    ensures b in Used(Taken(s, i, size).blocks)
    ensures b.Payload() in Taken(s, i, size).live && Taken(s, i, size).live[b.Payload()] == s.live[b.Payload()]
  {
    TakenKeepsInv(s, i, size);
    UsedAfterTake(s.blocks, i, size);
  }

  lemma ReleasedKeepsBlock(s: State, i: int, b: Block)
    requires Inv(s) && 0 <= i < |s.blocks| && !s.blocks[i].free && b.Payload() != s.blocks[i].Payload()
    requires b in Used(s.blocks) && b.Payload() in s.live
    ensures b in Used(Released(s, i).blocks)
    ensures b.Payload() in Released(s, i).live && Released(s, i).live[b.Payload()] == s.live[b.Payload()]
  {
    UsedAfterRelease(s.blocks, HEAP_START, HEAP_END, i);
  }

  lemma StepKeepsBlock(s: State, op: Op, s': State, b: Block)
    requires Inv(s) && Step(s, op, s') && b in Used(s.blocks) && op != Free(b.Payload()) && b.Payload() in s.live
    ensures b in Used(s'.blocks)
    ensures b.Payload() in s'.live && s'.live[b.Payload()] == s.live[b.Payload()]
  {
    match op
    case Malloc(size) =>
      if size != 0 {
        var i :| IsFirstFit(s.blocks, Need(size), i) && s' == Taken(s, i, size);
        TakenKeepsBlock(s, i, size, b);
      }
    case Free(p) =>
      if p != 0 {
        var i :| LiveAt(s.blocks, p, i) && s' == Released(s, i);
        ReleasedKeepsBlock(s, i, b);
      }
  }

  lemma BlockIsLive(ss: seq<State>, ops: seq<Op>, k: int, block: Block)
    requires IsRun(ss, ops) && 0 <= k <= |ops| && block in Used(ss[k].blocks)
    ensures block.Payload() in ss[k].live
  {
    RunKeepsInv(ss, ops, k);
    var i := UsedByIndex(ss[k].blocks, block);
  }

  lemma StepOfRun(ss: seq<State>, ops: seq<Op>, k: int)
    requires IsRun(ss, ops) && 0 <= k < |ops|
    ensures Inv(ss[k]) && Step(ss[k], ops[k], ss[k + 1])
  {
    RunKeepsInv(ss, ops, k);
  }

  /** No call on other pointers moves, shrinks or grows a live block. */
  lemma {:induction false} LiveBlocksStayPut(ss: seq<State>, ops: seq<Op>, a: int, b: int, block: Block)
    requires IsRun(ss, ops) && 0 <= a <= b <= |ops| && block in Used(ss[a].blocks)
    requires forall k :: a <= k < b ==> ops[k] != Free(block.Payload())
    ensures block in Used(ss[b].blocks) && block.Payload() in ss[a].live
    ensures block.Payload() in ss[b].live && ss[b].live[block.Payload()] == ss[a].live[block.Payload()]
    decreases b
  {
    if a == b {
      BlockIsLive(ss, ops, a, block);
    } else {
      LiveBlocksStayPut(ss, ops, a, b - 1, block);
      StepOfRun(ss, ops, b - 1);
      StepKeepsBlock(ss[b - 1], ops[b - 1], ss[b], block);
    }
  }

  /** Once nothing is live, whatever the order of the frees, one free block is left. */
  lemma AllFreedRestoresHeap(ss: seq<State>, ops: seq<Op>, k: int)
    requires IsRun(ss, ops) && 0 <= k <= |ops| && ss[k].live == map[]
    ensures ss[k] == InitialState()
    ensures ss[k].blocks == [Block(0xD000_0000, 0x100_0000 - 16, true)]
  {
    RunKeepsInv(ss, ops, k);
    RunKeepsInv(ss, ops, 0);
    forall b ensures b !in Used(ss[k].blocks) && b !in Used(InitialBlocks()) {
      if b in Used(ss[k].blocks) { var i := UsedByIndex(ss[k].blocks, b); }
    }
    BlockListIsCanonical(ss[k].blocks, InitialBlocks(), HEAP_START, HEAP_END);
  }

  lemma ReleaseUndoesTake(bs: seq<Block>, i: int, size: int, j: int)
    requires TilesHeap(bs) && 0 <= size && 0 <= i < |bs| && Fits(bs[i], size + HEADER)
    requires LiveAt(TakeAt(bs, i, size), bs[i].Payload(), j)
    ensures ReleaseAt(TakeAt(bs, i, size), j) == bs
  {
    var t, g := TakeAt(bs, i, size), Granted(bs, i, size);
    TakeKeepsTiling(bs, HEAP_START, HEAP_END, i, size);
    DistinctPayloads(t, HEAP_START, HEAP_END, i, j);
    UsedAfterTake(bs, i, size);
    UsedAfterRelease(t, HEAP_START, HEAP_END, j);
    ReleaseKeepsTiling(t, HEAP_START, HEAP_END, j);
    if g in Used(bs) {
      var k := UsedByIndex(bs, g);
      DistinctPayloads(bs, HEAP_START, HEAP_END, i, k);
    }
    BlockListIsCanonical(ReleaseAt(t, j), bs, HEAP_START, HEAP_END);
  }

  /** Freeing the pointer that an allocation just returned restores the exact state,
      whether or not the hole was split. */
  lemma FreeUndoesMalloc(s: State, i: int, size: int, j: int)
    requires Inv(s) && 0 < size && IsFirstFit(s.blocks, size + HEADER, i)
    requires LiveAt(Taken(s, i, size).blocks, s.blocks[i].Payload(), j)
    ensures Released(Taken(s, i, size), j) == s
  {
    TakenKeepsInv(s, i, size);
    ReleaseUndoesTake(s.blocks, i, size, j);
    assert Released(Taken(s, i, size), j).live == s.live;
  }

  /** Any two histories that leave the same blocks allocated leave the same heap. */
  lemma HeapForgetsHistory(ss: seq<State>, ops: seq<Op>, k: int, tt: seq<State>, ops': seq<Op>, l: int)
    requires IsRun(ss, ops) && 0 <= k <= |ops|
    requires IsRun(tt, ops') && 0 <= l <= |ops'|
    requires Used(ss[k].blocks) == Used(tt[l].blocks)
    ensures ss[k].blocks == tt[l].blocks
  {
    RunKeepsInv(ss, ops, k);
    RunKeepsInv(tt, ops', l);
    BlockListIsCanonical(ss[k].blocks, tt[l].blocks, HEAP_START, HEAP_END);
  }
}
