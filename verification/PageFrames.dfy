/** Physical page frames of kernel/mm.c: a bitmap of 32-bit words that refines a set of
    frame numbers, and page entries that own frames. Frame 0 doubles as "no frame". */
module PageFrames {
  import opened Machine
  import opened BitWords

  const MAX_BLOCKS := 0x10_0000

  // ---------------------------------------------------------------- the bitmap

  predicate BitSet(words: seq<bv32>, bit: int)
    requires 0 <= bit < 32 * |words|
  {
    Test(words[bit / 32], bit % 32)
  }

  ghost function BitsOf(words: seq<bv32>, total: int): set<int>
    requires total <= 32 * |words|
  {
    set b | 0 <= b < total && BitSet(words, b)
  }

  /** Frame b is bit b % 32 of word b / 32. */
  lemma FrameBits(words: seq<bv32>, total: int, b: int)
    requires total <= 32 * |words| && 0 <= b < total
    ensures b in BitsOf(words, total) <==> words[b / 32] & Mask(b % 32) != 0
  {
  }

  /** A word that differs from the old one in one bit only changes that one member. */
  lemma OneBitChanges(words: seq<bv32>, total: int, bit: int, w: bv32, on: bool)
    requires 0 <= bit < total <= 32 * |words|
    requires forall k :: 0 <= k < 32 ==> Test(w, k) == if k == bit % 32 then on else Test(words[bit / 32], k)
    ensures BitsOf(words[bit / 32 := w], total) ==
            if on then BitsOf(words, total) + {bit} else BitsOf(words, total) - {bit}
  {
    var after := words[bit / 32 := w];
    forall b | 0 <= b < total ensures BitSet(after, b) == if b == bit then on else BitSet(words, b) {
      assert b / 32 == bit / 32 ==> (b == bit <==> b % 32 == bit % 32);
    }
  }

  // ---------------------------------------------------------------- one call

  predicate LeastClear(total: int, bits: set<int>, i: int) {
    0 <= i < total && i !in bits && forall j :: 0 <= j < i ==> j in bits
  }

  predicate AllSet(total: int, bits: set<int>) {
    forall b :: 0 <= b < total ==> b in bits
  }

  /** The part of the allocator that a call can change: set bits, counter, one entry's frame. */
  datatype Slot = Slot(bits: set<int>, used: int, frame: int)

  ghost predicate Allocates(total: int, a: Slot, b: Slot) {
    if a.frame != 0 then b == a
    else LeastClear(total, a.bits, b.frame) && b.bits == a.bits + {b.frame} && b.used == (a.used + 1) % WORD
  }

  ghost predicate Releases(a: Slot, b: Slot) {
    if a.frame == 0 then b == a
    else b == Slot(a.bits - {a.frame}, (a.used - 1) % WORD, 0)
  }

  class Page {
    var present: bool
    var rw: bool
    var user: bool
    var frame: int
  }

  class FrameAllocator {
    const bitmap: array<bv32>
    const totalBlocks: int
    var usedBlocks: int

    /** An allocator over any bitmap and any counter value. */
    constructor (bitmap: array<bv32>, totalBlocks: int, usedBlocks: int)
      requires 0 <= totalBlocks <= 32 * bitmap.Length && totalBlocks < MAX_BLOCKS && 0 <= usedBlocks < WORD
      ensures Valid() && this.bitmap == bitmap && this.totalBlocks == totalBlocks && this.usedBlocks == usedBlocks
    {
      this.bitmap, this.totalBlocks, this.usedBlocks := bitmap, totalBlocks, usedBlocks;
    }

    ghost predicate Valid()
      reads this
    {
      0 <= totalBlocks <= 32 * bitmap.Length && totalBlocks < MAX_BLOCKS && 0 <= usedBlocks < WORD
    }

    ghost function Bits(): set<int>
      requires Valid()
      reads this, bitmap
    {
      BitsOf(bitmap[..], totalBlocks)
    }

    ghost function View(page: Page): Slot
      requires Valid()
      reads this, bitmap, page
    {
      Slot(Bits(), usedBlocks, page.frame)
    }

    method SetBit(bit: int)
      requires Valid() && 0 <= bit < totalBlocks
      modifies bitmap
      ensures Bits() == old(Bits()) + {bit}
    {
      ghost var before := bitmap[..];
      var w := OrMask(bitmap[bit / 32], bit % 32);
      bitmap[bit / 32] := w;
      OneBitChanges(before, totalBlocks, bit, w, true);
      assert bitmap[..] == before[bit / 32 := w];
    }

    method UnsetBit(bit: int)
      requires Valid() && 0 <= bit < totalBlocks
      modifies bitmap
      ensures Bits() == old(Bits()) - {bit}
    {
      ghost var before := bitmap[..];
      var w := AndNotMask(bitmap[bit / 32], bit % 32);
      bitmap[bit / 32] := w;
      OneBitChanges(before, totalBlocks, bit, w, false);
      assert bitmap[..] == before[bit / 32 := w];
    }

    /** The least clear bit, or -1 exactly when every bit is set. */
    method FirstFree() returns (r: int)
      requires Valid()
      ensures r == -1 <==> AllSet(totalBlocks, Bits())
      ensures r != -1 ==> LeastClear(totalBlocks, Bits(), r)
    {
      for i := 0 to totalBlocks
        invariant forall b :: 0 <= b < i ==> b in Bits()
      {
        if !Test(bitmap[i / 32], i % 32) {
          assert i !in Bits();
          return i;
        }
      }
      return -1;
    }

    method AllocFrame(page: Page, isKernel: bool, isWriteable: bool) returns (panic: bool)
      requires Valid()
      modifies this, bitmap, page
      ensures panic <==> old(page.frame) == 0 && AllSet(totalBlocks, old(Bits()))
      ensures panic ==> Valid() && View(page) == old(View(page))
      ensures !panic ==> Valid() && Allocates(totalBlocks, old(View(page)), View(page))
      ensures panic || old(page.frame) != 0 ==>
                unchanged(page) && Bits() == old(Bits()) && usedBlocks == old(usedBlocks)
      ensures !panic && old(page.frame) == 0 ==>
                && page.present && page.rw == isWriteable && page.user == !isKernel
                && 0 <= page.frame < totalBlocks && page.frame !in old(Bits())
                && (forall b :: 0 <= b < page.frame ==> b in old(Bits()))
                && Bits() == old(Bits()) + {page.frame} && usedBlocks == (old(usedBlocks) + 1) % 0x1_0000_0000
    {
      if page.frame != 0 {
        return false;
      }
      var idx := FirstFree();
      if idx == -1 {
        return true;
      }
      SetBit(idx);
      page.present := true;
      page.rw := isWriteable;
      page.user := !isKernel;
      page.frame := idx;
      usedBlocks := (usedBlocks + 1) % WORD;
      return false;
    }

    method FreeFrame(page: Page)
      requires Valid() && (page.frame == 0 || 0 < page.frame < totalBlocks)
      modifies this`usedBlocks, bitmap, page
      ensures Valid() && Releases(old(View(page)), View(page))
      ensures page.frame == 0 && page.present == old(page.present)
      ensures page.rw == old(page.rw) && page.user == old(page.user)
      ensures Bits() == old(Bits()) - (if old(page.frame) == 0 then {} else {old(page.frame)})
      ensures usedBlocks == if old(page.frame) == 0 then old(usedBlocks) else (old(usedBlocks) - 1) % 0x1_0000_0000
    {
      var frame := page.frame;
      if frame == 0 {
        return;
      }
      UnsetBit(frame);
      page.frame := 0;
      usedBlocks := (usedBlocks - 1) % WORD;
    }
  }

  // ---------------------------------------------------------------- runs over many entries

  /** `frame[p]` is the frame recorded in page entry p. */
  datatype State = State(total: int, bits: set<int>, used: int, frame: map<int, int>)

  datatype Op = Alloc(entry: int) | Free(entry: int)

  ghost predicate Step(s: State, op: Op, s': State) {
    && op.entry in s.frame
    && op.entry in s'.frame
    && s'.total == s.total
    && s'.frame == s.frame[op.entry := s'.frame[op.entry]]
    && var a := Slot(s.bits, s.used, s.frame[op.entry]);
       var b := Slot(s'.bits, s'.used, s'.frame[op.entry]);
       if op.Alloc? then Allocates(s.total, a, b) else Releases(a, b)
  }

  ghost predicate IsRun(ss: seq<State>, ops: seq<Op>) {
    |ss| == |ops| + 1 && forall k :: 0 <= k < |ops| ==> Step(ss[k], ops[k], ss[k + 1])
  }

  ghost function Owned(s: State): set<int> {
    set p | p in s.frame && s.frame[p] != 0 :: s.frame[p]
  }

  /** Every owned frame lies in range, has its bit set and belongs to one entry. */
  ghost predicate Exclusive(s: State) {
    && (forall p :: p in s.frame ==> 0 <= s.frame[p] < s.total || s.frame[p] == 0)
    && Owned(s) <= s.bits
    && (forall p, q :: p in s.frame && q in s.frame && p != q && s.frame[p] != 0 ==> s.frame[p] != s.frame[q])
  }

  ghost function Drift(s: State): int { (s.used - |s.bits|) % WORD }

  lemma StepOwned(s: State, op: Op, s': State)
    requires Exclusive(s) && Step(s, op, s')
    ensures Owned(s') == Owned(s) - {s.frame[op.entry]} + (if s'.frame[op.entry] == 0 then {} else {s'.frame[op.entry]})
  {
    var p := op.entry;
    forall f | f in Owned(s) && f != s.frame[p] ensures f in Owned(s') {
      var q :| q in s.frame && s.frame[q] == f;
      assert q in s'.frame && s'.frame[q] == f;
    }
    if s'.frame[p] != 0 { assert s'.frame[p] in Owned(s'); }
    forall f | f in Owned(s') && f != s'.frame[p] ensures f in Owned(s) - {s.frame[p]} {
      var q :| q in s'.frame && s'.frame[q] == f;
      assert q in s.frame && s.frame[q] == f;
    }
  }

  lemma StepKeepsExclusive(s: State, op: Op, s': State)
    requires Exclusive(s) && Step(s, op, s')
    ensures Exclusive(s')
  {
    var p := op.entry;
    forall q | q in s'.frame && s'.frame[q] != 0 ensures s'.frame[q] in s'.bits {
      if q != p || s'.frame[q] == s.frame[q] {
        assert s.frame[q] in Owned(s);
      }
    }
    forall q | q in s.frame && s.frame[q] != 0 ensures s.frame[q] in s.bits {
      assert s.frame[q] in Owned(s);
    }
  }

  lemma CountersMoveTogether(used: int, n: int)
    ensures ((used + 1) % WORD - (n + 1)) % WORD == (used - n) % WORD
    ensures ((used - 1) % WORD - (n - 1)) % WORD == (used - n) % WORD
  {
  }

  lemma OneBitCounts(bits: set<int>, f: int)
    ensures f !in bits ==> |bits + {f}| == |bits| + 1
    ensures f in bits ==> |bits - {f}| == |bits| - 1
  {
    if f in bits { assert bits == bits - {f} + {f}; }
  }

  lemma StepKeepsDrift(s: State, op: Op, s': State)
    requires Exclusive(s) && Step(s, op, s')
    ensures Drift(s') == Drift(s)
  {
    var f, f' := s.frame[op.entry], s'.frame[op.entry];
    CountersMoveTogether(s.used, |s.bits|);
    if op.Alloc? && f == 0 {
      OneBitCounts(s.bits, f');
    } else if op.Free? && f != 0 {
      assert f in Owned(s);
      OneBitCounts(s.bits, f);
    }
  }

  lemma StepKeepsUnowned(s: State, op: Op, s': State)
    requires Exclusive(s) && Step(s, op, s')
    ensures s'.bits - Owned(s') - {0} == s.bits - Owned(s) - {0}
  {
    StepOwned(s, op, s');
    var f, f' := s.frame[op.entry], s'.frame[op.entry];
    if f != 0 { assert f in Owned(s); }
  }

  /** In every run ownership stays exclusive, the counter moves with the number of set bits,
      and apart from frame 0 the set bits without an owner never change: no frame is lost
      and none is handed out twice. */
  lemma {:induction false} RunKeepsFrames(ss: seq<State>, ops: seq<Op>, k: int)
    requires IsRun(ss, ops) && 0 <= k <= |ops| && Exclusive(ss[0])
    ensures Exclusive(ss[k]) && Drift(ss[k]) == Drift(ss[0])
    ensures ss[k].bits - Owned(ss[k]) - {0} == ss[0].bits - Owned(ss[0]) - {0}
    decreases k
  {
    if k > 0 {
      RunKeepsFrames(ss, ops, k - 1);
      assert Step(ss[k - 1], ops[k - 1], ss[k - 1 + 1]);
      StepKeepsExclusive(ss[k - 1], ops[k - 1], ss[k]);
      StepKeepsDrift(ss[k - 1], ops[k - 1], ss[k]);
      StepKeepsUnowned(ss[k - 1], ops[k - 1], ss[k]);
    }
  }

  /** An allocation leaves the entry without a frame exactly when bit 0 was still clear:
      bit 0 is then set and counted, yet no entry owns it. */
  lemma FrameZeroIsNobodys(s: State, p: int, s': State)
    requires Exclusive(s) && Step(s, Alloc(p), s')
    ensures s'.frame[p] == 0 <==> s.frame[p] == 0 && 0 !in s.bits
    ensures s'.frame[p] == 0 ==> s'.bits == s.bits + {0} && Owned(s') == Owned(s)
  {
    StepOwned(s, Alloc(p), s');
    assert 0 !in Owned(s);
  }

  /** Freeing right after allocating gives back the bits and the entry, unless frame 0 was taken. */
  lemma FreeUndoesAlloc(s: State, p: int, s': State, s'': State)
    requires Exclusive(s) && 0 <= s.used < WORD && Step(s, Alloc(p), s') && Step(s', Free(p), s'') && s.frame[p] == 0
    ensures s'' == s <==> 0 in s.bits
  {
    assert s''.frame[p] == 0;
    assert s''.frame == s.frame;
  }

  // ---------------------------------------------------------------- a table of entries

  /** The page entries of a table, all served by one allocator. */
  class FrameTable {
    const frames: FrameAllocator
    const pages: seq<Page>

    constructor (frames: FrameAllocator, pages: seq<Page>)
      requires frames.Valid() && forall i, j :: 0 <= i < j < |pages| ==> pages[i] != pages[j]
      requires Exclusive(StateOf(frames, pages))
      ensures Valid() && this.frames == frames && this.pages == pages
    {
      this.frames, this.pages := frames, pages;
    }

    ghost predicate Valid()
      reads this, frames, frames.bitmap, pages
    {
      && frames.Valid()
      && (forall i, j :: 0 <= i < j < |pages| ==> pages[i] != pages[j])
      && Exclusive(View())
    }

    ghost function View(): State
      requires frames.Valid()
      reads this, frames, frames.bitmap, pages
    {
      StateOf(frames, pages)
    }

    /** `mm_alloc_frame` on entry p makes one step of the run, or panics and changes nothing. */
    method AllocEntry(p: int, isKernel: bool, isWriteable: bool) returns (panic: bool)
      requires Valid() && 0 <= p < |pages|
      modifies frames, frames.bitmap, pages
      ensures Valid()
      ensures if panic then View() == old(View()) else Step(old(View()), Alloc(p), View())
    {
      ghost var s := View();
      panic := frames.AllocFrame(pages[p], isKernel, isWriteable);
      if !panic {
        assert View().frame == s.frame[p := pages[p].frame];
        StepKeepsExclusive(s, Alloc(p), View());
      } else {
        assert View().frame == s.frame;
      }
    }

    /** `mm_free_frame` on entry p makes one step of the run. */
    method FreeEntry(p: int)
      requires Valid() && 0 <= p < |pages|
      modifies frames, frames.bitmap, pages
      ensures Valid() && Step(old(View()), Free(p), View())
    {
      ghost var s := View();
      assert s.frame[p] == pages[p].frame;
      if pages[p].frame != 0 { assert s.frame[p] in Owned(s); }
      frames.FreeFrame(pages[p]);
      assert View().frame == s.frame[p := pages[p].frame];
      StepKeepsExclusive(s, Free(p), View());
    }
  }

  /** What an allocator and the entries it serves hold, as one state of a run. */
  ghost function StateOf(frames: FrameAllocator, pages: seq<Page>): State
    requires frames.Valid()
    reads frames, frames.bitmap, pages
  {
    State(frames.totalBlocks, frames.Bits(), frames.usedBlocks, map p | 0 <= p < |pages| :: p := pages[p].frame)
  }
}
