/** `mm_get_page` of kernel/mm.c: a two-level table whose second level is built on demand
    in blocks of the kernel heap, refining a flat map from page number to page entry. */
module PageTables {
  import opened Machine
  import opened KernelHeap
  import opened HeapAllocator

  const PAGE_SIZE := 4096
  const ENTRIES := 1024
  const PAGES := ENTRIES * ENTRIES

  function Word(base: int, k: int): int { base + 4 * k }

  /** Where the entry of page n lives, given the table pointers of the directory. */
  function EntryAddr(tables: seq<int>, n: int): int
    requires |tables| == ENTRIES && 0 <= n < PAGES
  {
    Word(tables[n / ENTRIES], n % ENTRIES)
  }

  /** Each table is a live heap block of a page or more, and no two directory slots share one. */
  ghost predicate TablesOwned(tables: seq<int>, live: map<int, int>) {
    && |tables| == ENTRIES
    && (forall i :: 0 <= i < ENTRIES && tables[i] != 0 ==> tables[i] in live && live[tables[i]] >= PAGE_SIZE)
    && (forall i, j :: 0 <= i < j < ENTRIES && tables[i] != 0 ==> tables[i] != tables[j])
  }

  ghost predicate TablesPresent(tables: seq<int>, words: map<int, int>)
    requires |tables| == ENTRIES
  {
    forall n :: 0 <= n < PAGES && tables[n / ENTRIES] != 0 ==> EntryAddr(tables, n) in words
  }

  /** The flat view: every page whose table exists, with the entry word it holds. */
  ghost function Flat(tables: seq<int>, words: map<int, int>): map<int, int>
    requires |tables| == ENTRIES && TablesPresent(tables, words)
  {
    map n | 0 <= n < PAGES && tables[n / ENTRIES] != 0 :: words[EntryAddr(tables, n)]
  }

  /** Two pages have the same entry only if they are the same page: within a table by
      offset, across tables because live heap payloads do not overlap. */
  lemma EntriesAreDistinct(s: State, tables: seq<int>, n: int, m: int)
    requires Inv(s) && TablesOwned(tables, s.live) && 0 <= n < PAGES && 0 <= m < PAGES
    requires tables[n / ENTRIES] != 0 && tables[m / ENTRIES] != 0
    ensures EntryAddr(tables, n) == EntryAddr(tables, m) <==> n == m
  {
    var i, j := n / ENTRIES, m / ENTRIES;
    if i != j {
      LivePayloadsAreSeparate(s, tables[i], tables[j], 0);
    }
  }

  /** The entries of consecutive pages under one table lie four bytes apart, the first of them
      at the start of the table. */
  lemma EntriesInARow(tables: seq<int>, n: int)
    requires |tables| == 1024 && 0 <= n < 1024 * 1024
    ensures n % 1024 == 0 ==> EntryAddr(tables, n) == tables[n / 1024]
    ensures n % 1024 < 1023 ==> n + 1 < 1024 * 1024 && EntryAddr(tables, n + 1) == EntryAddr(tables, n) + 4
  {
    if n % 1024 < 1023 {
      assert (n + 1) / 1024 == n / 1024 && (n + 1) % 1024 == n % 1024 + 1;
    }
  }

  lemma EntryOffset(tables: seq<int>, addr: int)
    requires |tables| == 1024 && 0 <= addr < 0x1_0000_0000
    ensures addr / 0x40_0000 == addr / PAGE_SIZE / ENTRIES && 0 <= addr / 0x40_0000 < 1024
    ensures EntryAddr(tables, addr / PAGE_SIZE) == tables[addr / 0x40_0000] + 4 * (addr / 0x1000 % 0x400)
  {
  }

  function PageWords(p: int): set<int> {
    set k | 0 <= k < ENTRIES :: Word(p, k)
  }

  /** The words of one page, all zero. */
  function Zeroed(p: int): map<int, int> {
    map a | a in PageWords(p) :: 0
  }

  /** No free block has that many bytes. */
  ghost predicate NoRoomFor(bs: seq<Block>, bytes: int) {
    forall i :: 0 <= i < |bs| ==> !bs[i].free || bs[i].size < bytes
  }

  lemma PageFitsIff(bs: seq<Block>)
    ensures HasHole(bs, Need(PAGE_SIZE)) <==> !NoRoomFor(bs, 4096 + 16)
  {
    RoomIff(bs, PAGE_SIZE);
  }

  function ZeroTable(slot: int): map<int, int> {
    map n | 0 <= n < PAGES && n / ENTRIES == slot :: 0
  }

  /** A page is in the flat view exactly when the slot of its address holds a table. */
  lemma PageHasTableIff(tables: seq<int>, words: map<int, int>, addr: int)
    requires |tables| == 1024 && TablesPresent(tables, words) && 0 <= addr < 0x1_0000_0000
    ensures addr / PAGE_SIZE in Flat(tables, words) <==> tables[addr / 0x40_0000] != 0
    ensures tables[addr / 0x40_0000] != 0 ==>
              var at := tables[addr / 0x40_0000] + 4 * (addr / 0x1000 % 0x400);
              at in words && Flat(tables, words)[addr / PAGE_SIZE] == words[at]
  {
    EntryOffset(tables, addr);
  }

  /** A new table gives exactly the 1024 pages of its 4 MB an entry, and that entry is zero. */
  lemma ZeroTableEntries(flat: map<int, int>, slot: int)
    requires 0 <= slot < 1024 && forall n :: n in flat ==> n / 1024 != slot
    ensures var after := flat + ZeroTable(slot);
            && (forall n :: n in after <==> n in flat || 1024 * slot <= n < 1024 * slot + 1024)
            && (forall n :: n in flat ==> after[n] == flat[n])
            && (forall n :: n in after && n !in flat ==> after[n] == 0)
  {
    forall n ensures n in ZeroTable(slot) <==> 1024 * slot <= n < 1024 * slot + 1024 {
    }
  }

  /** `tmp | 0x7` */
  function OrSeven(p: int): int { p - p % 8 + 7 }

  /** Its three low bits are set and every other bit is as before. */
  lemma LowBitsSet(p: int)
    ensures OrSeven(p) % 8 == 7 && OrSeven(p) / 8 == p / 8
  {
  }

  /** No other live payload shares a word with the page just allocated. */
  lemma OtherPayloadsUntouched(s: State, p: int, q: int, a: int)
    requires Inv(s) && p in s.live && s.live[p] == PAGE_SIZE && q in s.live && q != p && q <= a < q + s.live[q]
    ensures a !in Zeroed(p)
  {
    LivePayloadsAreSeparate(s, p, q, 0);
  }

  ghost predicate PayloadsKept(live: map<int, int>, words: map<int, int>, words': map<int, int>) {
    forall q, a :: q in live && q <= a < q + live[q] && a in words ==> a in words' && words'[a] == words[a]
  }

  lemma AllPayloadsKept(s: State, p: int, words: map<int, int>)
    requires Inv(s) && p in s.live && s.live[p] == PAGE_SIZE
    ensures PayloadsKept(s.live - {p}, words, words + Zeroed(p))
  {
    forall q, a | q in s.live - {p} && q <= a < q + s.live[q] ensures a !in Zeroed(p) {
      OtherPayloadsUntouched(s, p, q, a);
    }
  }

  /** The words written into a new page overlap no header of the heap. */
  lemma ZeroingSparesHeaders(s: State, p: int, i: int, a: int)
    requires Inv(s) && p in s.live && s.live[p] == PAGE_SIZE && 0 <= i < |s.blocks| && a in Zeroed(p)
    ensures Disjoint(a, a + 4, s.blocks[i].addr, s.blocks[i].addr + HEADER)
  {
    PayloadAvoidsHeader(s, p, i);
  }

  /** No word written between `words` and words' overlaps the header of a block. */
  ghost predicate HeadersSpared(bs: seq<Block>, words: map<int, int>, words': map<int, int>) {
    forall a, i :: a in words' && (a !in words || words'[a] != words[a]) && 0 <= i < |bs| ==>
      Disjoint(a, a + 4, bs[i].addr, bs[i].addr + HEADER)
  }

  lemma AllHeadersSpared(s: State, p: int, words: map<int, int>)
    requires Inv(s) && p in s.live && s.live[p] == PAGE_SIZE
    ensures HeadersSpared(s.blocks, words, words + Zeroed(p))
  {
    forall a, i | a in Zeroed(p) && 0 <= i < |s.blocks|
      ensures Disjoint(a, a + 4, s.blocks[i].addr, s.blocks[i].addr + HEADER)
    {
      ZeroingSparesHeaders(s, p, i, a);
    }
  }

  /** No header written between m and m' overlaps the entry of a page that has a table. */
  ghost predicate EntriesSpared(tables: seq<int>, m: Memory, m': Memory)
    requires |tables| == ENTRIES
  {
    forall x, n :: 0 <= n < PAGES && tables[n / ENTRIES] != 0 && !SameCell(m, m', x) ==>
      Disjoint(EntryAddr(tables, n), EntryAddr(tables, n) + 4, x, x + HEADER)
  }

  lemma OwnedEntriesSpared(tables: seq<int>, live: map<int, int>, m: Memory, m': Memory)
    requires TablesOwned(tables, live) && PayloadsSpared(live, m, m')
    ensures EntriesSpared(tables, m, m')
  {
    forall x, n | 0 <= n < PAGES && tables[n / ENTRIES] != 0 && !SameCell(m, m', x)
      ensures Disjoint(EntryAddr(tables, n), EntryAddr(tables, n) + 4, x, x + HEADER)
    {
      var p := tables[n / ENTRIES];
      assert p in live && Disjoint(p, p + live[p], x, x + HEADER);
    }
  }

  lemma NewTableOwned(s: State, tables: seq<int>, slot: int, p: int)
    requires Inv(s) && p in s.live && s.live[p] == PAGE_SIZE
    requires TablesOwned(tables, s.live - {p}) && 0 <= slot < ENTRIES
    ensures p != 0 && TablesOwned(tables[slot := p], s.live)
  {
    var i :| LiveAt(s.blocks, p, i);
    BlocksInside(s.blocks, HEAP_START, HEAP_END, i);
  }

  /** In slot's new table the entry of page n is zero; elsewhere it keeps place and value. */
  ghost predicate Placed(tables: seq<int>, words: map<int, int>, slot: int, p: int, n: int)
    requires |tables| == ENTRIES && 0 <= slot < ENTRIES && 0 <= n < PAGES
  {
    if n / ENTRIES == slot then EntryAddr(tables[slot := p], n) in Zeroed(p)
    else
      && EntryAddr(tables[slot := p], n) == EntryAddr(tables, n)
      && (tables[n / ENTRIES] != 0 ==> EntryAddr(tables, n) in words && EntryAddr(tables, n) !in Zeroed(p))
  }

  lemma EntryPlaced(s: State, tables: seq<int>, words: map<int, int>, slot: int, p: int, n: int)
    requires Inv(s) && p in s.live && s.live[p] == PAGE_SIZE
    requires TablesOwned(tables, s.live - {p}) && TablesPresent(tables, words)
    requires 0 <= slot < ENTRIES && tables[slot] == 0 && 0 <= n < PAGES
    ensures Placed(tables, words, slot, p, n)
  {
    if n / ENTRIES != slot && tables[n / ENTRIES] != 0 {
      OtherPayloadsUntouched(s, p, tables[n / ENTRIES], EntryAddr(tables, n));
    }
  }

  lemma AllPlaced(s: State, tables: seq<int>, words: map<int, int>, slot: int, p: int)
    requires Inv(s) && p in s.live && s.live[p] == PAGE_SIZE
    requires TablesOwned(tables, s.live - {p}) && TablesPresent(tables, words)
    requires 0 <= slot < ENTRIES && tables[slot] == 0
    ensures forall n :: 0 <= n < PAGES ==> Placed(tables, words, slot, p, n)
  {
    forall n | 0 <= n < PAGES ensures Placed(tables, words, slot, p, n) {
      EntryPlaced(s, tables, words, slot, p, n);
    }
  }

  lemma PresentAfterInstall(tables: seq<int>, words: map<int, int>, slot: int, p: int)
    requires |tables| == ENTRIES && 0 <= slot < ENTRIES
    requires forall n :: 0 <= n < PAGES ==> Placed(tables, words, slot, p, n)
    ensures TablesPresent(tables[slot := p], words + Zeroed(p))
  {
    var tables', words' := tables[slot := p], words + Zeroed(p);
    forall n | 0 <= n < PAGES && tables'[n / ENTRIES] != 0 ensures EntryAddr(tables', n) in words' {
      assert Placed(tables, words, slot, p, n);
    }
  }

  lemma EntryAfterInstall(tables: seq<int>, words: map<int, int>, slot: int, p: int, n: int)
    requires |tables| == ENTRIES && 0 <= slot < ENTRIES && p != 0 && tables[slot] == 0 && 0 <= n < PAGES
    requires TablesPresent(tables, words) && TablesPresent(tables[slot := p], words + Zeroed(p))
    requires Placed(tables, words, slot, p, n)
    ensures n in Flat(tables[slot := p], words + Zeroed(p)) <==> n / ENTRIES == slot || n in Flat(tables, words)
    ensures n in Flat(tables[slot := p], words + Zeroed(p)) ==>
            Flat(tables[slot := p], words + Zeroed(p))[n] == if n / ENTRIES == slot then 0 else Flat(tables, words)[n]
  {
  }

  lemma FlatAfterInstall(tables: seq<int>, words: map<int, int>, slot: int, p: int)
    requires |tables| == ENTRIES && 0 <= slot < ENTRIES && p != 0 && tables[slot] == 0
    requires TablesPresent(tables, words) && TablesPresent(tables[slot := p], words + Zeroed(p))
    requires forall n :: 0 <= n < PAGES ==> Placed(tables, words, slot, p, n)
    ensures Flat(tables[slot := p], words + Zeroed(p)) == Flat(tables, words) + ZeroTable(slot)
  {
    var flat, flat' := Flat(tables, words) + ZeroTable(slot), Flat(tables[slot := p], words + Zeroed(p));
    forall n | 0 <= n < PAGES ensures (n in flat <==> n in flat') && (n in flat ==> flat[n] == flat'[n]) {
      EntryAfterInstall(tables, words, slot, p, n);
    }
  }

  /** Installing a freshly allocated page at p in an empty slot: ownership is kept, the flat
      map gains 1024 zero entries and nothing else that is live changes. */
  lemma {:induction false} TableInstalled(s: State, live: map<int, int>, tables: seq<int>, words: map<int, int>,
                                          slot: int, p: int)
    requires Inv(s) && p !in live && s.live == live[p := PAGE_SIZE]
    requires TablesOwned(tables, live) && TablesPresent(tables, words)
    requires 0 <= slot < ENTRIES && tables[slot] == 0
    ensures p != 0 && TablesOwned(tables[slot := p], s.live)
    ensures TablesPresent(tables[slot := p], words + Zeroed(p))
    ensures Flat(tables[slot := p], words + Zeroed(p)) == Flat(tables, words) + ZeroTable(slot)
    ensures PayloadsKept(live, words, words + Zeroed(p))
    ensures HeadersSpared(s.blocks, words, words + Zeroed(p))
  {
    assert s.live - {p} == live;
    AllHeadersSpared(s, p, words);
    NewTableOwned(s, tables, slot, p);
    AllPayloadsKept(s, p, words);
    AllPlaced(s, tables, words, slot, p);
    PresentAfterInstall(tables, words, slot, p);
    FlatAfterInstall(tables, words, slot, p);
  }

  datatype Lookup = Missing | Entry(ptr: int) | HeapFailed

  class PageDirectory {
    const heap: Heap
    var tables: seq<int>
    var tablesPhysical: seq<int>
    var words: map<int, int>

    constructor (heap: Heap)
      requires heap.Valid()
      ensures Valid() && this.heap == heap && View() == map[]
    {
      this.heap := heap;
      tables := seq(ENTRIES, i => 0);
      tablesPhysical := seq(ENTRIES, i => 0);
      words := map[];
    }

    ghost predicate Valid()
      reads this, heap
    {
      && heap.Valid()
      && TablesOwned(tables, heap.state.live)
      && |tablesPhysical| == ENTRIES
      && TablesPresent(tables, words)
    }

    ghost function View(): map<int, int>
      requires Valid()
      reads this, heap
    {
      Flat(tables, words)
    }

    method GetPage(addr: int, make: bool) returns (r: Lookup)
      requires Valid() && 0 <= addr < WORD
      modifies this, heap
      ensures r.Missing? <==> !make && addr / PAGE_SIZE !in old(View())
      ensures r.HeapFailed? <==>
                make && addr / PAGE_SIZE !in old(View()) && NoRoomFor(old(heap.state).blocks, 4096 + 16)
      ensures !r.HeapFailed? ==> Valid()
      ensures r.Missing? ==> View() == old(View())
      ensures r.Entry? ==> addr / PAGE_SIZE in View() && r.ptr == EntryAddr(tables, addr / PAGE_SIZE)
      ensures r.Entry? && addr / PAGE_SIZE in old(View()) ==> View() == old(View())
      ensures r.Entry? && addr / PAGE_SIZE !in old(View()) ==>
                View() == old(View()) + ZeroTable(addr / PAGE_SIZE / ENTRIES)
      ensures r.Entry? ==> forall n :: n in old(View()) ==> EntryAddr(tables, n) == old(EntryAddr(tables, n))
      ensures r.Entry? ==> PayloadsKept(old(heap.state).live, old(words), words)
      ensures r.Entry? ==> EntriesSpared(old(tables), old(heap.mem), heap.mem)
      ensures r.Entry? ==> HeadersSpared(heap.state.blocks, old(words), words)
      ensures r.Entry? ==> |tables| == 1024 && r.ptr == tables[addr / 0x40_0000] + 4 * (addr / 0x1000 % 0x400)
      ensures r.Missing? || addr / PAGE_SIZE in old(View()) ==> tablesPhysical == old(tablesPhysical)
      ensures r.Entry? && addr / PAGE_SIZE !in old(View()) ==>
                var slot := addr / PAGE_SIZE / ENTRIES;
                && |tables| == |tablesPhysical| == 1024
                && tablesPhysical == old(tablesPhysical)[slot := tablesPhysical[slot]]
                && tablesPhysical[slot] % 8 == 7 && tablesPhysical[slot] / 8 == tables[slot] / 8
    {
      r := GetEntry(addr / PAGE_SIZE, make);
      if r.Entry? {
        EntryOffset(tables, addr);
        LowBitsSet(tables[addr / PAGE_SIZE / ENTRIES]);
      }
    }

    /** The rest of `mm_get_page`, for a page number. */
    method GetEntry(page: int, make: bool) returns (r: Lookup)
      requires Valid() && 0 <= page < PAGES
      modifies this, heap
      ensures r.Missing? <==> !make && page !in old(View())
      ensures r.HeapFailed? <==>
                make && page !in old(View()) && NoRoomFor(old(heap.state).blocks, 4096 + 16)
      ensures !r.HeapFailed? ==> Valid()
      ensures r.Missing? ==> View() == old(View())
      ensures r.Entry? ==> page in View() && r.ptr == EntryAddr(tables, page)
      ensures r.Entry? && page in old(View()) ==> View() == old(View())
      ensures r.Entry? && page !in old(View()) ==>
                View() == old(View()) + ZeroTable(page / ENTRIES)
      ensures r.Entry? ==> forall n :: n in old(View()) ==> EntryAddr(tables, n) == old(EntryAddr(tables, n))
      ensures r.Entry? ==> PayloadsKept(old(heap.state).live, old(words), words)
      ensures r.Entry? ==> EntriesSpared(old(tables), old(heap.mem), heap.mem)
      ensures r.Entry? ==> HeadersSpared(heap.state.blocks, old(words), words)
      ensures r.Missing? || page in old(View()) ==> tablesPhysical == old(tablesPhysical)
      ensures r.Entry? && page !in old(View()) ==>
                var slot := page / ENTRIES;
                tablesPhysical == old(tablesPhysical)[slot := OrSeven(tables[slot])]
    {
      var slot := page / ENTRIES;
      if tables[slot] != 0 {
        return Entry(tables[slot] + 4 * (page % ENTRIES));
      } else if make {
        r := MakeTable(slot);
        if r.HeapFailed? {
          return HeapFailed;
        }
        return Entry(tables[slot] + 4 * (page % ENTRIES));
      }
      return Missing;
    }

    /** A page from the heap, or 0 when no hole is left. */
    method AllocPage() returns (p: int)
      requires heap.Valid()
      modifies heap
      ensures p == 0 <==> NoRoomFor(old(heap.state).blocks, 4096 + 16)
      ensures p != 0 ==> heap.Valid() && p !in old(heap.state).live &&
                         heap.state.live == old(heap.state).live[p := PAGE_SIZE]
      ensures p != 0 ==> PayloadsSpared(old(heap.state).live, old(heap.mem), heap.mem)
    {
      ghost var s, m := heap.state, heap.mem;
      PageFitsIff(s.blocks);
      var got := heap.KmallocAp(PAGE_SIZE);
      if !got.Pointer? {
        return 0;
      }
      p := got.p;
      ghost var i :| LiveAt(heap.state.blocks, p, i);
      BlocksInside(heap.state.blocks, HEAP_START, HEAP_END, i);
      CallSparesPayloads(s, Malloc(PAGE_SIZE), heap.state, s.live, m, heap.mem);
    }

    /** Point an empty directory slot at a page just allocated, and clear the page. */
    method Install(slot: int, p: int, ghost live: map<int, int>)
      requires heap.Valid() && p !in live && heap.state.live == live[p := PAGE_SIZE]
      requires TablesOwned(tables, live) && TablesPresent(tables, words) && |tablesPhysical| == ENTRIES
      requires 0 <= slot < ENTRIES && tables[slot] == 0
      modifies this
      ensures Valid() && tables == old(tables)[slot := p] && p != 0
      ensures tablesPhysical == old(tablesPhysical)[slot := OrSeven(p)]
      ensures View() == Flat(old(tables), old(words)) + ZeroTable(slot)
      ensures PayloadsKept(live, old(words), words) && HeadersSpared(heap.state.blocks, old(words), words)
    {
      TableInstalled(heap.state, live, tables, words, slot, p);
      tables := tables[slot := p];
      words := words + Zeroed(p);
      tablesPhysical := tablesPhysical[slot := OrSeven(p)];
    }

    /** Back an empty directory slot with a zeroed table from the heap. */
    method MakeTable(slot: int) returns (r: Lookup)
      requires Valid() && 0 <= slot < ENTRIES && tables[slot] == 0
      modifies this, heap
      ensures r.HeapFailed? <==> NoRoomFor(old(heap.state).blocks, 4096 + 16)
      ensures !r.HeapFailed? ==> Valid() && tables[slot] != 0 && tables == old(tables)[slot := tables[slot]]
      ensures !r.HeapFailed? ==> View() == old(View()) + ZeroTable(slot)
      ensures !r.HeapFailed? ==> PayloadsKept(old(heap.state).live, old(words), words)
      ensures !r.HeapFailed? ==> EntriesSpared(old(tables), old(heap.mem), heap.mem)
      ensures !r.HeapFailed? ==> HeadersSpared(heap.state.blocks, old(words), words)
      ensures !r.HeapFailed? ==> tablesPhysical == old(tablesPhysical)[slot := OrSeven(tables[slot])]
    {
      ghost var live := heap.state.live;
      var p := AllocPage();
      if p == 0 {
        return HeapFailed;
      }
      OwnedEntriesSpared(tables, live, old(heap.mem), heap.mem);
      Install(slot, p, live);
      return Entry(p);
    }
  }
}
