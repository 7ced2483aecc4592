/** The allocator itself: `kmalloc_ap`, `kfree` and the hole search, working on linked
    headers in memory. Each call is proved to make one step of the heap in KernelHeap. */
module HeapAllocator {
  import opened Machine
  import opened KernelHeap

  lemma NothingAtNull(bs: seq<Block>)
    requires TilesHeap(bs)
    ensures forall b :: b in Used(bs) ==> b.addr + 16 != 0
  {
    forall b | b in Used(bs) ensures b.addr + 16 != 0 {
      var i := UsedByIndex(bs, b);
      BlocksInside(bs, HEAP_START, HEAP_END, i);
    }
  }

  /** Releasing the block whose payload is at ptr takes that one from the allocated blocks. */
  lemma UsedButOne(bs: seq<Block>, i: int, ptr: int)
    requires TilesHeap(bs) && LiveAt(bs, ptr, i)
    ensures forall b :: b in Used(ReleaseAt(bs, i)) <==> b in Used(bs) && b.addr + 16 != ptr
  {
    UsedAfterRelease(bs, HEAP_START, HEAP_END, i);
    forall b | b in Used(bs) && b.addr + 16 == ptr ensures b == bs[i] {
      var j := UsedByIndex(bs, b);
      DistinctPayloads(bs, HEAP_START, HEAP_END, i, j);
    }
  }

  /** `mem_block_t`: address 0 is the null link. */
  datatype Header = Header(size: int, next: int, prev: int, free: bool)

  type Memory = map<int, Header>

  function NextAddr(bs: seq<Block>, i: int): int
    requires 0 <= i < |bs|
  {
    if i + 1 < |bs| then bs[i + 1].addr else 0
  }

  function PrevAddr(bs: seq<Block>, i: int): int
    requires 0 <= i < |bs|
  {
    if i > 0 then bs[i - 1].addr else 0
  }

  ghost predicate HeaderAt(mem: Memory, bs: seq<Block>, i: int)
    requires 0 <= i < |bs|
  {
    && bs[i].addr in mem
    && mem[bs[i].addr] == Header(bs[i].size, NextAddr(bs, i), PrevAddr(bs, i), bs[i].free)
  }

  /** The headers in memory link exactly these blocks, in both directions. */
  ghost predicate Represents(mem: Memory, bs: seq<Block>) {
    forall i :: 0 <= i < |bs| ==> HeaderAt(mem, bs, i)
  }

  ghost predicate Ascending(bs: seq<Block>) {
    && (forall i :: 0 <= i < |bs| ==> bs[i].addr > 0)
    && (forall i, j :: 0 <= i < j < |bs| ==> bs[i].addr < bs[j].addr)
  }

  lemma TilingAscends(bs: seq<Block>)
    requires TilesHeap(bs)
    ensures Ascending(bs)
  {
    forall i | 0 <= i < |bs| ensures bs[i].addr > 0 {
      BlocksInside(bs, HEAP_START, HEAP_END, i);
    }
    forall i, j | 0 <= i < j < |bs| ensures bs[i].addr < bs[j].addr {
      BlocksAscend(bs, HEAP_START, HEAP_END, i, j);
    }
  }

  ghost function Addrs(bs: seq<Block>): set<int> {
    set i | 0 <= i < |bs| :: bs[i].addr
  }

  /** The cell at x is in both memories or in neither, with the same header. */
  predicate SameCell(m: Memory, m': Memory, x: int) {
    (x in m <==> x in m') && (x in m ==> m[x] == m'[x])
  }

  /** No cell outside `touched` has changed. */
  ghost predicate Untouched(m: Memory, m': Memory, touched: set<int>) {
    forall x :: x !in touched ==> SameCell(m, m', x)
  }

  lemma UntouchedTwice(m0: Memory, m1: Memory, m2: Memory, t1: set<int>, t2: set<int>, all: set<int>)
    requires Untouched(m0, m1, t1) && Untouched(m1, m2, t2) && t1 <= all && t2 <= all
    ensures Untouched(m0, m2, all)
  {
    forall x | x !in all ensures SameCell(m0, m2, x) {
      assert SameCell(m0, m1, x) && SameCell(m1, m2, x);
    }
  }

  // ---------------------------------------------------------------- link surgery

  function SetPrev(mem: Memory, at: int, prev: int): Memory {
    if at != 0 && at in mem then mem[at := mem[at].(prev := prev)] else mem
  }

  function Split(bs: seq<Block>, i: int, size: int): seq<Block>
    requires 0 <= i < |bs|
  {
    var rest := Block(bs[i].addr + HEADER + size, bs[i].size - size - HEADER, true);
    bs[..i] + [Block(bs[i].addr, size, bs[i].free), rest] + bs[i + 1..]
  }

  function Merge(bs: seq<Block>, i: int): seq<Block>
    requires 0 <= i && i + 1 < |bs|
  {
    bs[..i] + [Block(bs[i].addr, bs[i].size + bs[i + 1].size + HEADER, bs[i].free)] + bs[i + 2..]
  }

  lemma SplitLinks(mem: Memory, bs: seq<Block>, i: int, size: int, mem': Memory)
    requires Represents(mem, bs) && Ascending(bs) && 0 <= i < |bs| && size >= 0
    requires i + 1 < |bs| ==> bs[i].addr + HEADER + size < bs[i + 1].addr
    requires var h := bs[i].addr;
             var n := h + HEADER + size;
             h in mem &&
             mem' == SetPrev(mem[n := Header(bs[i].size - size - HEADER, mem[h].next, h, true)], mem[h].next, n)
                     [h := Header(size, n, mem[h].prev, bs[i].free)]
    ensures Represents(mem', Split(bs, i, size))
  {
    var t := Split(bs, i, size);
    assert HeaderAt(mem, bs, i);
    forall j | 0 <= j < |t| ensures HeaderAt(mem', t, j) {
      if j < i {
        assert HeaderAt(mem, bs, j);
        assert t[j] == bs[j];
      } else if j > i + 1 {
        assert HeaderAt(mem, bs, j - 1);
        assert t[j] == bs[j - 1];
      }
    }
  }

  lemma MergeLinks(mem: Memory, bs: seq<Block>, i: int, mem': Memory)
    requires Represents(mem, bs) && Ascending(bs) && 0 <= i && i + 1 < |bs|
    requires var a := bs[i].addr;
             var b := bs[i + 1].addr;
             a in mem && b in mem &&
             mem' == SetPrev(mem[a := Header(mem[a].size + mem[b].size + HEADER, mem[b].next, mem[a].prev,
                                             mem[a].free)],
                             mem[b].next, a)
    ensures Represents(mem', Merge(bs, i)) && Ascending(Merge(bs, i))
  {
    var t := Merge(bs, i);
    assert HeaderAt(mem, bs, i) && HeaderAt(mem, bs, i + 1);
    forall j | 0 <= j < |t| ensures HeaderAt(mem', t, j) {
      if j < i {
        assert HeaderAt(mem, bs, j);
        assert t[j] == bs[j];
      } else if j > i {
        assert HeaderAt(mem, bs, j + 1);
        assert t[j] == bs[j + 1];
      }
    }
  }

  lemma SetFreeLinks(mem: Memory, bs: seq<Block>, i: int, free: bool, mem': Memory)
    requires Represents(mem, bs) && Ascending(bs) && 0 <= i < |bs|
    requires bs[i].addr in mem && mem' == mem[bs[i].addr := mem[bs[i].addr].(free := free)]
    ensures Represents(mem', bs[i := bs[i].(free := free)]) && Ascending(bs[i := bs[i].(free := free)])
  {
    var t := bs[i := bs[i].(free := free)];
    forall j | 0 <= j < |t| ensures HeaderAt(mem', t, j) {
      assert HeaderAt(mem, bs, j);
    }
  }

  /** A first header linked to itself belongs to no block list. */
  lemma SelfLinkIsNoList(mem: Memory, bs: seq<Block>)
    requires HEAP_START in mem && mem[HEAP_START].next == HEAP_START
    ensures !(TilesHeap(bs) && Represents(mem, bs))
  {
    if TilesHeap(bs) && Represents(mem, bs) {
      assert HeaderAt(mem, bs, 0);
      if |bs| > 1 { BlocksAscend(bs, HEAP_START, HEAP_END, 0, 1); }
    }
  }

  /** Block i has room for `size` bytes and a further header without reaching the next block. */
  predicate RoomIn(bs: seq<Block>, i: int, size: int)
    requires 0 <= i < |bs|
  {
    && bs[i].size >= size + HEADER
    && bs[i].End() < WORD
    && (i + 1 < |bs| ==> bs[i].End() <= bs[i + 1].addr)
  }

  // ---------------------------------------------------------------- the allocator

  /** How a request ends: the null pointer, a block from the list, a kernel panic, the
      placement path that lays a new header over the first one, or, when size + 16 wraps, a
      block smaller than the request. */
  datatype Outcome = Null | Pointer(p: int) | Panic | Overlaid(p: int) | Undersized(p: int)

  /** The lists before and after block i went to a request of `size` bytes. */
  ghost predicate Grants(bs: seq<Block>, i: int, size: int, bs': seq<Block>)
    requires 0 <= i < |bs|
  {
    var addr, room := bs[i].addr, bs[i].size;
    bs' == if room >= size + 24
           then bs[..i] + [Block(addr, size, false), Block(addr + 16 + size, room - size - 16, true)] + bs[i + 1..]
           else bs[i := Block(addr, room, false)]
  }

  lemma RoomIff(bs: seq<Block>, size: int)
    requires 0 < size < WORD
    ensures var bytes := if size < 0xFFFF_FFF0 then size + 16 else size - 0xFFFF_FFF0;
            && (HasHole(bs, Need(size)) <==> exists i :: 0 <= i < |bs| && bs[i].free && bs[i].size >= bytes)
            && forall i :: IsFirstFit(bs, Need(size), i) ==>
                 && 0 <= i < |bs| && bs[i].free && bs[i].size >= bytes
                 && forall j :: 0 <= j < i ==> !bs[j].free || bs[j].size < bytes
  {
    assert forall i :: 0 <= i < |bs| ==> (Fits(bs[i], Need(size)) <==> bs[i].free && bs[i].size >= Need(size));
  }

  lemma SameKey(m: map<int, int>, p: int, q: int, v: int)
    requires p !in m && q !in m && m[p := v] == m[q := v]
    ensures p == q
  {
    assert p in m[q := v];
  }

  lemma TakeGrants(bs: seq<Block>, i: int, size: int)
    requires 0 <= i < |bs|
    ensures Grants(bs, i, size, TakeAt(bs, i, size))
  {
  }

  lemma StepGrants(s: State, size: int, s': State) returns (i: int)
    requires Inv(s) && size > 0 && Step(s, Malloc(size), s')
    ensures IsFirstFit(s.blocks, Need(size), i) && Grants(s.blocks, i, size, s'.blocks)
    ensures s'.live == s.live[s.blocks[i].addr + 16 := size] && s.blocks[i].addr + 16 !in s.live
  {
    i :| IsFirstFit(s.blocks, Need(size), i) && s' == Taken(s, i, size);
    TakenKeepsInv(s, i, size);
    TakeGrants(s.blocks, i, size);
  }

  class Heap {
    var mem: Memory
    var heapStart: int
    var heapEnd: int
    var placement: int
    ghost var state: State

    constructor ()
      ensures Valid() && state == InitialState()
    {
      mem := map[];
      heapStart, heapEnd, placement := 0, 0, HEAP_START;
      state := InitialState();
    }

    ghost predicate Valid()
      reads this
    {
      && placement == HEAP_START
      && Inv(state)
      && (heapStart == 0 ==> heapEnd == 0 && state == InitialState())
      && (heapStart != 0 ==> heapStart == heapEnd == HEAP_START && Represents(mem, state.blocks))
    }

    /** First fit: walk the links until a free block is large enough. */
    method FindHole(need: int) returns (hole: int, ghost i: int)
      requires Valid() && heapStart != 0
      ensures hole == 0 ==> !HasHole(state.blocks, need)
      ensures hole != 0 ==> IsFirstFit(state.blocks, need, i) && hole == state.blocks[i].addr
    {
      ghost var bs := state.blocks;
      TilingAscends(bs);
      var current := heapStart;
      i := 0;
      while current != 0
        invariant 0 <= i <= |bs|
        invariant current == if i < |bs| then bs[i].addr else 0
        invariant forall j :: 0 <= j < i ==> !Fits(bs[j], need)
        decreases |bs| - i
      {
        assert HeaderAt(mem, bs, i);
        if mem[current].free && mem[current].size >= need {
          return current, i;
        }
        current := mem[current].next;
        i := i + 1;
      }
      hole := 0;
    }

    method Init()
      requires Valid()
      modifies this
      ensures Valid() && heapStart != 0 && state == old(state)
      ensures Untouched(old(mem), mem, Addrs(state.blocks))
    {
      if heapStart == 0 {
        assert InitialBlocks()[0].addr in Addrs(InitialBlocks());
        heapStart := HEAP_START;
        mem := mem[heapStart := Header(HEAP_SIZE - HEADER, 0, 0, true)];
        heapEnd := heapStart;
      }
    }

    /** Cut block i after `size` bytes: the rest becomes a free block linked behind it. */
    method SplitHole(hole: int, size: int, ghost bs: seq<Block>, ghost i: int)
      requires Represents(mem, bs) && Ascending(bs) && 0 <= i < |bs| && hole == bs[i].addr && size >= 0
      modifies this`mem
      ensures hole in mem
      ensures RoomIn(bs, i, size) ==> Represents(mem, Split(bs, i, size))
      ensures RoomIn(bs, i, size) ==> Untouched(old(mem), mem, Addrs(Split(bs, i, size)))
    {
      ghost var m0 := mem;
      assert HeaderAt(mem, bs, i);
      if i + 1 < |bs| { assert HeaderAt(mem, bs, i + 1); }
      var newBlock := (hole + HEADER + size) % WORD;
      mem := mem[newBlock := Header((mem[hole].size - size - HEADER) % WORD, mem[hole].next, hole, true)];
      var next := mem[hole].next;
      if next != 0 {
        mem := mem[next := mem[next].(prev := newBlock)];
      }
      mem := mem[hole := mem[hole].(next := newBlock)];
      mem := mem[hole := mem[hole].(size := size)];
      if RoomIn(bs, i, size) {
        SplitLinks(m0, bs, i, size, mem);
        SplitAddrs(bs, i, size);
      }
    }

    method MarkBlock(block: int, free: bool, ghost bs: seq<Block>, ghost i: int)
      requires block in mem && 0 <= i < |bs| && block == bs[i].addr
      modifies this`mem
      ensures old(Represents(mem, bs)) && Ascending(bs) ==> Represents(mem, bs[i := bs[i].(free := free)])
      ensures Untouched(old(mem), mem, Addrs(bs))
    {
      ghost var m0 := mem;
      mem := mem[block := mem[block].(free := free)];
      if Represents(m0, bs) && Ascending(bs) {
        SetFreeLinks(m0, bs, i, free, mem);
      }
      assert block in Addrs(bs);
    }

    /** Block `a` swallows its successor `b`, and the block after `b` links back to `a`. */
    method MergeBlocks(a: int, b: int, ghost bs: seq<Block>, ghost i: int)
      requires Represents(mem, bs) && Ascending(bs) && 0 <= i && i + 1 < |bs|
      requires a == bs[i].addr && b == bs[i + 1].addr
      modifies this`mem
      ensures Represents(mem, Merge(bs, i)) && Ascending(Merge(bs, i))
      ensures Untouched(old(mem), mem, Addrs(bs))
    {
      ghost var m0 := mem;
      assert HeaderAt(mem, bs, i) && HeaderAt(mem, bs, i + 1);
      if i + 2 < |bs| { assert HeaderAt(mem, bs, i + 2); }
      mem := mem[a := mem[a].(size := mem[a].size + mem[b].size + HEADER)];
      mem := mem[a := mem[a].(next := mem[b].next)];
      var next := mem[b].next;
      if next != 0 {
        mem := mem[next := mem[next].(prev := a)];
      }
      MergeLinks(m0, bs, i, mem);
      assert a in Addrs(bs) && (i + 2 < |bs| ==> bs[i + 2].addr in Addrs(bs));
    }

    /** The split and the mark together. */
    method CutHole(hole: int, size: int, ghost bs: seq<Block>, ghost i: int)
      requires Represents(mem, bs) && Ascending(bs) && 0 <= i < |bs| && hole == bs[i].addr && size > 0
      modifies this`mem
      ensures RoomIn(bs, i, size) && bs[i].size >= size + HEADER + 8 ==>
                && Represents(mem, TakeAt(bs, i, size))
                && Untouched(old(mem), mem, Addrs(TakeAt(bs, i, size)))
    {
      SplitHole(hole, size, bs, i);
      if RoomIn(bs, i, size) && bs[i].size >= size + HEADER + 8 {
        SplitThenMark(bs, i, size);
      }
      MarkBlock(hole, false, Split(bs, i, size), i);
    }

    /** Take the free block i for `size` bytes, splitting off what is left over. */
    method TakeHole(hole: int, size: int, ghost i: int)
      requires Valid() && heapStart != 0 && 0 < size < WORD
      requires IsFirstFit(state.blocks, Need(size), i) && hole == state.blocks[i].addr
      modifies this`mem, this`state
      ensures size < WORD - HEADER ==> Valid() && state == Taken(old(state), i, size)
      ensures size < WORD - HEADER ==> Untouched(old(mem), mem, Addrs(old(state).blocks) + Addrs(state.blocks))
    {
      ghost var bs := state.blocks;
      ghost var fits := size < WORD - HEADER;
      TilingAscends(bs);
      BlocksInside(bs, HEAP_START, HEAP_END, i);
      if fits { TakenKeepsInv(state, i, size); }
      if i + 1 < |bs| { BlocksAscend(bs, HEAP_START, HEAP_END, i, i + 1); }
      assert HeaderAt(mem, bs, i);
      if mem[hole].size >= (size + HEADER + 8) % WORD {
        CutHole(hole, size, bs, i);
      } else {
        MarkBlock(hole, false, bs, i);
        assert fits ==> bs[i := bs[i].(free := false)] == TakeAt(bs, i, size);
      }
      if fits {
        state := Taken(state, i, size);
      }
    }

    /** No hole: the block goes to the placement pointer, which starts at the heap's start. */
    method PlaceBlock(size: int) returns (r: Outcome)
      requires Valid() && heapStart != 0 && 0 < size < WORD
      modifies this`mem, this`heapEnd, this`placement
      ensures r.Panic? <==> (HEAP_START + size + HEADER) % WORD > HEAP_END
      ensures r.Panic? || r.Overlaid?
      ensures r.Overlaid? ==> forall bs :: !(TilesHeap(bs) && Represents(mem, bs))
      ensures Untouched(old(mem), mem, {HEAP_START})
    {
      var oldPlacement := placement;
      placement := (placement + size + HEADER) % WORD;
      if placement > HEAP_START + HEAP_SIZE {
        return Panic;
      }
      mem := mem[oldPlacement := Header(size, 0, heapEnd, false)];
      mem := mem[heapEnd := mem[heapEnd].(next := oldPlacement)];
      heapEnd := oldPlacement;
      forall bs ensures !(TilesHeap(bs) && Represents(mem, bs)) {
        SelfLinkIsNoList(mem, bs);
      }
      return Overlaid(oldPlacement + HEADER);
    }

    /** `kmalloc_ap` for every 32-bit size, as a step of the heap. */
    method KmallocAp(size: int) returns (r: Outcome)
      requires Valid() && 0 <= size < WORD
      modifies this
      ensures r.Null? <==> size == 0
      ensures r.Null? ==> Valid() && state == old(state)
      ensures r.Pointer? <==> 0 < size < WORD - HEADER && HasHole(old(state).blocks, Need(size))
      ensures r.Pointer? ==> Valid() && Step(old(state), Malloc(size), state) && r.p !in old(state).live &&
                             r.p in state.live && state.live == old(state).live[r.p := size]
      ensures r.Undersized? <==> size >= WORD - HEADER && HasHole(old(state).blocks, Need(size))
      ensures r.Undersized? ==> exists i :: IsFirstFit(old(state).blocks, Need(size), i) &&
                                            r.p == old(state).blocks[i].Payload() && old(state).blocks[i].size < size
      ensures r.Panic? <==> size > 0 && !HasHole(old(state).blocks, Need(size)) &&
                            (HEAP_START + size + HEADER) % WORD > HEAP_END
      ensures r.Overlaid? ==> forall bs :: !(TilesHeap(bs) && Represents(mem, bs))
      ensures !r.Undersized? ==> Untouched(old(mem), mem, Addrs(old(state).blocks) + Addrs(state.blocks))
    {
      Init();
      if size == 0 {
        return Null;
      }
      ghost var bs, m1 := state.blocks, mem;
      var hole, i := FindHole((size + HEADER) % WORD);
      if hole == 0 {
        assert bs[0].addr == HEAP_START && HEAP_START in Addrs(bs);
        r := PlaceBlock(size);
        UntouchedTwice(old(mem), m1, mem, Addrs(bs), {HEAP_START}, Addrs(bs) + Addrs(state.blocks));
        return;
      }
      if size >= WORD - HEADER {
        WrappedRequestsUnderallocate(bs, size, i);
        TakeHole(hole, size, i);
        return Undersized(hole + HEADER);
      }
      TakenKeepsInv(state, i, size);
      TakeHole(hole, size, i);
      UntouchedTwice(old(mem), m1, mem, Addrs(bs), Addrs(bs) + Addrs(state.blocks), Addrs(bs) + Addrs(state.blocks));
      return Pointer(hole + HEADER);
    }

    /** For every 32-bit size: the first free block with `size` + 16 bytes, modulo 2^32, is cut
        to `size` bytes if at least 24 more are there, and handed out whole otherwise. */
    method Kmalloc(size: int) returns (r: Outcome)
      requires Valid() && 0 <= size < WORD
      modifies this
      ensures var bs, bytes := old(state.blocks), if size < 0xFFFF_FFF0 then size + 16 else size - 0xFFFF_FFF0;
              && (r.Pointer? || r.Undersized? <==>
                   size > 0 && exists i :: 0 <= i < |bs| && bs[i].free && bs[i].size >= bytes)
              && (r.Pointer? ==> size < 0xFFFF_FFF0) && (r.Undersized? ==> size >= 0xFFFF_FFF0)
              && (r.Pointer? || r.Undersized? ==>
                   exists i :: 0 <= i < |bs| && bs[i].free && bs[i].size >= bytes && r.p == bs[i].addr + 16 &&
                               (forall j :: 0 <= j < i ==> !bs[j].free || bs[j].size < bytes) &&
                               (r.Pointer? ==> Grants(bs, i, size, state.blocks)))
      ensures r.Null? <==> size == 0
      ensures r.Null? ==> Valid() && state == old(state)
      ensures r.Pointer? ==> Valid() && r.p !in old(state).live && state.live == old(state).live[r.p := size]
      ensures r.Panic? || r.Overlaid? ==> (r.Panic? <==> (0xD000_0000 + size + 16) % 0x1_0000_0000 > 0xD100_0000)
      ensures r.Overlaid? ==> forall bs :: !(TilesHeap(bs) && Represents(mem, bs))
      ensures !r.Undersized? ==> Untouched(old(mem), mem, Addrs(old(state).blocks) + Addrs(state.blocks))
    {
      ghost var s := state;
      r := KmallocAp(size);
      if size > 0 {
        RoomIff(s.blocks, size);
      }
      if r.Pointer? {
        ghost var i := StepGrants(s, size, state);
        SameKey(s.live, s.blocks[i].addr + 16, r.p, size);
      }
    }

    /** `ptr` is null or live, as the C interface demands of its callers. */
    method Kfree(ptr: int)
      requires Valid() && (ptr == 0 || ptr in state.live)
      modifies this
      ensures Valid() && Step(old(state), Free(ptr), state)
      ensures ptr != 0 ==> state.live == old(state).live - {ptr}
      ensures forall b :: b in Used(state.blocks) <==> b in Used(old(state).blocks) && b.addr + 16 != ptr
      ensures Untouched(old(mem), mem, Addrs(old(state).blocks))
    {
      ghost var bs := state.blocks;
      if ptr == 0 {
        NothingAtNull(bs);
        return;
      }
      ghost var i :| LiveAt(bs, ptr, i);
      TilingAscends(bs);
      ReleasedKeepsInv(state, i);
      UsedButOne(bs, i, ptr);
      ReleaseLinks(ptr - HEADER, bs, i);
      state := Released(state, i);
    }

    /** Join a block to a free predecessor; returns the block that now holds it. */
    method JoinPrev(block: int, ghost bs: seq<Block>, ghost i: int) returns (joined: int)
      requires Represents(mem, bs) && Ascending(bs) && 0 <= i < |bs| && block == bs[i].addr
      modifies this`mem
      ensures Represents(mem, PrevJoined(bs, i)) && Ascending(PrevJoined(bs, i))
      ensures joined == PrevJoined(bs, i)[CoverStart(bs, i)].addr
      ensures Untouched(old(mem), mem, Addrs(bs))
    {
      assert HeaderAt(mem, bs, i);
      if i > 0 { assert HeaderAt(mem, bs, i - 1); }
      joined := block;
      if mem[block].prev != 0 && mem[mem[block].prev].free {
        joined := mem[block].prev;
        MergeBlocks(joined, block, bs, i - 1);
      }
    }

    /** Join a block to a free successor. */
    method JoinNext(block: int, ghost bs: seq<Block>, ghost i: int)
      requires Represents(mem, bs) && Ascending(bs) && 0 <= i < |bs| && block == bs[i].addr
      modifies this`mem
      ensures Represents(mem, NextJoined(bs, i))
      ensures Untouched(old(mem), mem, Addrs(bs))
    {
      assert HeaderAt(mem, bs, i);
      if i + 1 < |bs| { assert HeaderAt(mem, bs, i + 1); }
      if mem[block].next != 0 && mem[mem[block].next].free {
        MergeBlocks(block, mem[block].next, bs, i);
      }
    }

    /** The pointer work of `kfree`: mark the block, then join it to a free predecessor and
        to a free successor. */
    method ReleaseLinks(target: int, ghost bs: seq<Block>, ghost i: int)
      requires Represents(mem, bs) && Ascending(bs) && 0 <= i < |bs| && target == bs[i].addr
      requires i > 0 ==> Meets(bs[i - 1], bs[i])
      requires i + 1 < |bs| ==> Meets(bs[i], bs[i + 1])
      modifies this`mem
      ensures Represents(mem, ReleaseAt(bs, i))
      ensures Untouched(old(mem), mem, Addrs(bs))
    {
      assert HeaderAt(mem, bs, i);
      ghost var cs := bs[i := bs[i].(free := true)];
      MarkBlock(target, true, bs, i);
      ghost var m1 := mem;
      JoinBoth(target, cs, i);
      MergesAreRelease(bs, i, cs);
      JoinedAddrs(bs, i, cs);
      UntouchedTwice(old(mem), m1, mem, Addrs(bs), Addrs(cs) + Addrs(PrevJoined(cs, i)), Addrs(bs));
    }

    method JoinBoth(block: int, ghost bs: seq<Block>, ghost i: int)
      requires Represents(mem, bs) && Ascending(bs) && 0 <= i < |bs| && block == bs[i].addr
      modifies this`mem
      ensures Represents(mem, NextJoined(PrevJoined(bs, i), CoverStart(bs, i)))
      ensures Untouched(old(mem), mem, Addrs(bs) + Addrs(PrevJoined(bs, i)))
    {
      var joined := JoinPrev(block, bs, i);
      ghost var m1, ds := mem, PrevJoined(bs, i);
      JoinNext(joined, ds, CoverStart(bs, i));
      UntouchedTwice(old(mem), m1, mem, Addrs(bs), Addrs(ds), Addrs(bs) + Addrs(ds));
    }
  }

  // ---------------------------------------------------------------- the two joins as list operations

  /** Block i after joining it to a free predecessor; it is then block CoverStart(bs, i). */
  function PrevJoined(bs: seq<Block>, i: int): (r: seq<Block>)
    requires 0 <= i < |bs|
    ensures CoverStart(bs, i) < |r|
  {
    if i > 0 && bs[i - 1].free then Merge(bs, i - 1) else bs
  }

  function NextJoined(bs: seq<Block>, i: int): seq<Block>
    requires 0 <= i < |bs|
  {
    if i + 1 < |bs| && bs[i + 1].free then Merge(bs, i) else bs
  }

  lemma JoinedAddrs(bs: seq<Block>, i: int, cs: seq<Block>)
    requires 0 <= i < |bs| && cs == bs[i := bs[i].(free := true)]
    ensures Addrs(cs) == Addrs(bs) && Addrs(PrevJoined(cs, i)) <= Addrs(bs)
  {
    SameAddrs(bs, cs);
    if i > 0 { MergeAddrs(cs, i - 1); }
  }

  lemma SameAddrs(bs: seq<Block>, cs: seq<Block>)
    requires |bs| == |cs| && forall k :: 0 <= k < |bs| ==> bs[k].addr == cs[k].addr
    ensures Addrs(bs) == Addrs(cs)
  {
    forall x ensures x in Addrs(bs) <==> x in Addrs(cs) {
      if x in Addrs(bs) {
        var k :| 0 <= k < |bs| && bs[k].addr == x;
        assert cs[k].addr in Addrs(cs);
      }
    }
  }

  lemma MergeAddrs(bs: seq<Block>, i: int)
    requires 0 <= i && i + 1 < |bs|
    ensures Addrs(Merge(bs, i)) <= Addrs(bs)
  {
    var t := Merge(bs, i);
    forall k | 0 <= k < |t| ensures t[k].addr in Addrs(bs) {
      assert t[k].addr == bs[if k <= i then k else k + 1].addr;
    }
  }

  lemma SplitAddrs(bs: seq<Block>, i: int, size: int)
    requires 0 <= i < |bs|
    ensures Addrs(Split(bs, i, size)) == Addrs(bs) + {bs[i].addr + HEADER + size}
  {
    var t := Split(bs, i, size);
    forall k | 0 <= k < |bs| ensures bs[k].addr in Addrs(t) {
      assert t[if k <= i then k else k + 1].addr == bs[k].addr;
    }
    assert t[i + 1].addr in Addrs(t);
    forall k | 0 <= k < |t| && k != i + 1 ensures t[k].addr in Addrs(bs) {
      assert t[k].addr == bs[if k <= i then k else k - 1].addr;
    }
  }

  lemma SplitThenMark(bs: seq<Block>, i: int, size: int)
    requires Ascending(bs) && 0 <= i < |bs| && 0 < size && bs[i].size >= size + HEADER + 8
    requires i + 1 < |bs| ==> bs[i].End() <= bs[i + 1].addr
    ensures var cut := Split(bs, i, size);
            && Ascending(cut) && cut[i := cut[i].(free := false)] == TakeAt(bs, i, size)
            && Addrs(cut) == Addrs(TakeAt(bs, i, size))
  {
    var cut := Split(bs, i, size);
    forall k | i + 2 <= k < |cut| ensures cut[k].addr >= bs[i].End() {
      assert cut[k] == bs[k - 1];
    }
    SameAddrs(cut, cut[i := cut[i].(free := false)]);
  }

  lemma MergeRight(bs: seq<Block>, i: int, cs: seq<Block>)
    requires 0 <= i && i + 1 < |bs| && cs == bs[i := bs[i].(free := true)] && Meets(bs[i], bs[i + 1])
    requires bs[i + 1].free && (i > 0 ==> !bs[i - 1].free)
    ensures Merge(cs, i) == ReleaseAt(bs, i)
  {
    assert cs[..i] == bs[..i] && cs[i + 2..] == bs[i + 2..];
  }

  /** Merging with a free neighbour on either side gives the one block `ReleaseAt` describes. */
  lemma MergesAreRelease(bs: seq<Block>, i: int, cs: seq<Block>)
    requires 0 <= i < |bs| && cs == bs[i := bs[i].(free := true)]
    requires i > 0 ==> Meets(bs[i - 1], bs[i])
    requires i + 1 < |bs| ==> Meets(bs[i], bs[i + 1])
    ensures NextJoined(PrevJoined(cs, i), CoverStart(cs, i)) == ReleaseAt(bs, i)
  {
    if i > 0 && bs[i - 1].free {
      MergeLeft(bs, i, cs);
    } else if i + 1 < |bs| && bs[i + 1].free {
      MergeRight(bs, i, cs);
    } else {
      assert cs == bs[..i] + [cs[i]] + bs[i + 1..];
    }
  }

  /** A list whose block i has already swallowed its free predecessor. */
  ghost function Swallowed(bs: seq<Block>, i: int): seq<Block>
    requires 0 < i < |bs|
  {
    bs[..i - 1] + [Block(bs[i - 1].addr, bs[i].End() - bs[i - 1].addr - HEADER, true)] + bs[i + 1..]
  }

  lemma MergeSwallows(bs: seq<Block>, i: int, cs: seq<Block>)
    requires 0 < i < |bs| && cs == bs[i := bs[i].(free := true)]
    requires bs[i - 1].free && Meets(bs[i - 1], bs[i])
    ensures Merge(cs, i - 1) == Swallowed(bs, i)
  {
    assert cs[..i - 1] == bs[..i - 1];
    assert cs[i + 1..] == bs[i + 1..];
  }

  lemma SwallowBoth(bs: seq<Block>, i: int, ds: seq<Block>)
    requires 0 < i && i + 1 < |bs| && bs[i - 1].free && bs[i + 1].free && Meets(bs[i], bs[i + 1])
    requires ds == Swallowed(bs, i)
    ensures Merge(ds, i - 1) == ReleaseAt(bs, i)
  {
    assert ds[i] == bs[i + 1] && ds[..i - 1] == bs[..i - 1];
    assert ds[i + 1..] == bs[i + 2..];
  }

  lemma MergeLeft(bs: seq<Block>, i: int, cs: seq<Block>)
    requires 0 < i < |bs| && cs == bs[i := bs[i].(free := true)]
    requires bs[i - 1].free && Meets(bs[i - 1], bs[i])
    requires i + 1 < |bs| ==> Meets(bs[i], bs[i + 1])
    ensures NextJoined(Merge(cs, i - 1), i - 1) == ReleaseAt(bs, i)
  {
    MergeSwallows(bs, i, cs);
    if i + 1 < |bs| && bs[i + 1].free {
      SwallowBoth(bs, i, Swallowed(bs, i));
    }
  }

  // ---------------------------------------------------------------- header writes and payloads

  /** No header written by a call overlaps a payload that is live before and after it. */
  lemma HeaderWritesSparePayloads(s: State, op: Op, s': State, x: int, p: int)
    requires Inv(s) && Step(s, op, s') && x in Addrs(s.blocks) + Addrs(s'.blocks) && p in s.live && p in s'.live
    ensures s'.live[p] == s.live[p] && Disjoint(p, p + s.live[p], x, x + HEADER)
  {
    StepKeepsInv(s, op, s');
    StepKeepsRequest(s, op, s', p);
    if x in Addrs(s.blocks) {
      var i :| 0 <= i < |s.blocks| && s.blocks[i].addr == x;
      PayloadAvoidsHeader(s, p, i);
    } else {
      var i :| 0 <= i < |s'.blocks| && s'.blocks[i].addr == x;
      PayloadAvoidsHeader(s', p, i);
    }
  }

  lemma StepKeepsRequest(s: State, op: Op, s': State, p: int)
    requires Inv(s) && Step(s, op, s') && p in s.live && p in s'.live
    ensures s'.live[p] == s.live[p]
  {
    if op.Malloc? && op.size != 0 {
      var i :| IsFirstFit(s.blocks, Need(op.size), i) && s' == Taken(s, i, op.size);
      TakenKeepsInv(s, i, op.size);
    }
  }

  /** Every header cell that differs between m and m' lies outside the live payloads. */
  ghost predicate PayloadsSpared(live: map<int, int>, m: Memory, m': Memory) {
    forall x, p :: p in live && !SameCell(m, m', x) ==> Disjoint(p, p + live[p], x, x + HEADER)
  }

  /** No header cell that a call changed overlaps a payload that is live before and after. */
  lemma CallSparesPayloads(s: State, op: Op, s': State, live: map<int, int>, m: Memory, m': Memory)
    requires Inv(s) && Step(s, op, s') && Untouched(m, m', Addrs(s.blocks) + Addrs(s'.blocks))
    requires forall p :: p in live ==> p in s.live && p in s'.live && live[p] == s.live[p]
    ensures PayloadsSpared(live, m, m')
  {
    var touched := Addrs(s.blocks) + Addrs(s'.blocks);
    forall x, p | x in touched && p in live ensures Disjoint(p, p + live[p], x, x + HEADER) {
      HeaderWritesSparePayloads(s, op, s', x, p);
    }
    AllSpared(live, touched, m, m');
  }

  lemma AllSpared(live: map<int, int>, touched: set<int>, m: Memory, m': Memory)
    requires Untouched(m, m', touched)
    requires forall x, p :: x in touched && p in live ==> Disjoint(p, p + live[p], x, x + HEADER)
    ensures PayloadsSpared(live, m, m')
  {
  }

  // ---------------------------------------------------------------- requests that wrap

  /** The 32-bit sum covers the request exactly when it does not wrap; a wrapped request is
      given a block of the heap that is smaller than what was asked for. */
  lemma WrappedRequestsUnderallocate(bs: seq<Block>, size: int, i: int)
    requires TilesHeap(bs) && 0 < size < WORD && IsFirstFit(bs, Need(size), i)
    ensures size <= bs[i].size <==> size < WORD - HEADER
  {
    BlocksInside(bs, HEAP_START, HEAP_END, i);
  }
}
