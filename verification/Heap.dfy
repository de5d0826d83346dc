// Physical pages and the heap break of a process: PhysPageManager
// (inc/klibs/palloc.h) and ProcessDesc::sbrk (proc/tasks.cpp).
module Heap {
  import opened Common
  import opened PhysAddr
  import opened PageMap
  import opened ProcessMap
  import opened MemMaps

  const HEAP_FLAGS: bv32 := PG_WRITABLE | PG_USER

  function Entry(page: bv16): Pde {
    Encode(page, HEAP_FLAGS)
  }

  // memory::ceil by the page size.
  function CeilPages(n: nat): (k: nat)
    ensures k * PAGE_SIZE >= n && (k > 0 ==> (k - 1) * PAGE_SIZE < n)
  {
    if n % PAGE_SIZE > 0 then n / PAGE_SIZE + 1 else n / PAGE_SIZE
  }

  // ----- One page more, one page less -----

  // The free pages (a stack and a bitmap), the process's mappings (a stack and
  // a bitmap), and the pages of its heap from the bottom up.
  datatype HeapState = HeapState(
    free: seq<bv16>, isFree: set<bv16>, stack: seq<Mapping>, used: set<nat>, pages: seq<bv16>)

  function Slot(start: nat, n: nat): VirtNo {
    (start + n) % ENTRIES
  }

  predicate CanAlloc(h: HeapState) {
    h.free != [] && h.free[|h.free| - 1] in h.isFree
  }

  predicate CanGrow(h: HeapState, start: nat) {
    CanAlloc(h) && Slot(start, |h.pages|) !in h.used
  }

  function Top(s: seq<bv16>): bv16
    requires s != []
  {
    s[|s| - 1]
  }

  function Pop<T>(s: seq<T>): seq<T> {
    if s == [] then s else s[..|s| - 1]
  }

  function Grow(h: HeapState, start: nat): HeapState {
    if !CanGrow(h, start) then h
    else
      var page, v := Top(h.free), Slot(start, |h.pages|);
      HeapState(Pop(h.free), h.isFree - {page}, h.stack + [Mapping(Entry(page), v)], h.used + {v}, h.pages + [page])
  }

  // Growing that fails still takes the top off the free stack: an entry whose
  // bit is clear is dropped, and a page that finds its place taken is lost.
  function FailedGrow(h: HeapState): HeapState {
    if h.free == [] then h
    else h.(free := Pop(h.free), isFree := h.isFree - {Top(h.free)})
  }

  function Shrink(h: HeapState, start: nat): HeapState
    requires h.pages != []
  {
    var page, v := Top(h.pages), Slot(start, |h.pages| - 1);
    HeapState(
      if page in h.isFree then h.free else h.free + [page],
      h.isFree + {page},
      if v in h.used then Dropped(h.stack, FirstOf(h.stack, Entry(page))) else h.stack,
      h.used - {v},
      Pop(h.pages))
  }

  function GrowN(h: HeapState, start: nat, k: nat): HeapState {
    if k == 0 then h else Grow(GrowN(h, start, k - 1), start)
  }

  predicate CanGrowN(h: HeapState, start: nat, k: nat) {
    k == 0 || (CanGrowN(h, start, k - 1) && CanGrow(GrowN(h, start, k - 1), start))
  }

  function ShrinkN(h: HeapState, start: nat, k: nat): (r: HeapState)
    requires k <= |h.pages|
    ensures |r.pages| == |h.pages| - k
  {
    if k == 0 then h else Shrink(ShrinkN(h, start, k - 1), start)
  }

  // ----- What every heap keeps -----

  function HeapMappings(pages: seq<bv16>, start: nat): (r: seq<Mapping>)
    ensures |r| == |pages|
    ensures forall i :: 0 <= i < |pages| ==> r[i] == Mapping(Entry(pages[i]), Slot(start, i))
  {
    seq(|pages|, i requires 0 <= i < |pages| => Mapping(Entry(pages[i]), Slot(start, i)))
  }

  // Heap page i is mapped at start + i to the i-th page of the page stack,
  // behind the mappings the process began with; no mapped page is free.
  ghost predicate HeapOk(h: HeapState, start: nat, base: seq<Mapping>) {
    && 2 <= start && start + |h.pages| <= ENTRIES
    && h.stack == base + HeapMappings(h.pages, start)
    && Good(h.stack)
    && TinyOk(h.stack, h.used)
    && NoneFree(h.stack, h.isFree)
    && (forall p :: p in h.isFree ==> IsFreePage(p))
    && (forall p :: p in h.pages ==> IsFreePage(p))
  }

  ghost predicate NoneFree(stack: seq<Mapping>, isFree: set<bv16>) {
    forall i :: 0 <= i < |stack| ==> IndexBits(stack[i].phys) !in isFree
  }

  // A page number that memory detection can hand out: twelve bits, not the
  // kernel's.
  predicate IsFreePage(p: bv16) {
    p & 0xf000 == 0 && p != 1
  }

  lemma EntryFacts(p: bv16)
    requires IsFreePage(p)
    ensures IndexBits(Entry(p)) == p && Present(Entry(p)) && PageIndex(Entry(p)) != KERNEL_PAGE
  {
    EntryFlags();
    IndexIsRecovered(p, HEAP_FLAGS);
    FlagsOfEncode(p, HEAP_FLAGS);
    EntryNamesPage(p, HEAP_FLAGS);
    KernelNumber();
    hide Encode;
    hide IndexBits;
    hide Present;
    hide PageIndex;
    if p as nat == KERNEL_PAGE {
      NumberIsInjective(p, 1);
    }
  }

  // Heap pages are present, writable, for user programs, and 4 MB.
  lemma HeapEntryBits(page: bv16)
    ensures page < 0x400 ==> Entry(page).bits == ((page as bv32) << 22) | 0x87
  {
    EntryLayout(page, HEAP_FLAGS);
    hide Encode;
  }

  lemma EntryFlags()
    ensures HEAP_FLAGS & 0xffffe000 == 0
  {
  }

  lemma KernelNumber()
    ensures 1 as bv16 as nat == KERNEL_PAGE
  {
  }

  // A page that was free is mapped nowhere, so mapping it keeps the stack good.
  lemma GoodPush(stack: seq<Mapping>, used: set<nat>, isFree: set<bv16>, m: Mapping)
    requires Good(stack) && TinyOk(stack, used) && NoneFree(stack, isFree)
    requires IndexBits(m.phys) in isFree && m.virt !in used && 2 <= m.virt
    requires Present(m.phys) && PageIndex(m.phys) != KERNEL_PAGE
    ensures Good(stack + [m]) && NoneFree(stack + [m], isFree - {IndexBits(m.phys)})
  {
    hide IndexBits;
    hide Present;
    hide PageIndex;
    forall i | 0 <= i < |stack| ensures stack[i].virt != m.virt && PageIndex(stack[i].phys) != PageIndex(m.phys) {
      if PageIndex(stack[i].phys) == PageIndex(m.phys) {
        IndexIsInjective(stack[i].phys, m.phys);
      }
    }
  }

  lemma GoodPop(stack: seq<Mapping>, isFree: set<bv16>, m: Mapping)
    requires Good(stack + [m]) && NoneFree(stack + [m], isFree)
    ensures Good(stack) && NoneFree(stack, isFree + {IndexBits(m.phys)})
  {
    hide IndexBits;
    hide Present;
    hide PageIndex;
    var s := stack + [m];
    assert s[|stack|] == m;
    forall i | 0 <= i < |stack|
      ensures 2 <= stack[i].virt && Present(stack[i].phys) && PageIndex(stack[i].phys) != KERNEL_PAGE
      ensures IndexBits(stack[i].phys) !in isFree + {IndexBits(m.phys)}
    {
      assert s[i] == stack[i];
      if IndexBits(stack[i].phys) == IndexBits(m.phys) {
        SameIndexBits(stack[i].phys, m.phys);
      }
    }
    forall i, j | 0 <= i < j < |stack|
      ensures stack[i].virt != stack[j].virt && PageIndex(stack[i].phys) != PageIndex(stack[j].phys)
    {
      assert s[i] == stack[i] && s[j] == stack[j];
    }
  }

  lemma SameIndexBits(p: Pde, q: Pde)
    requires IndexBits(p) == IndexBits(q)
    ensures PageIndex(p) == PageIndex(q)
  {
  }

  lemma GrowKeepsOk(h: HeapState, start: nat, base: seq<Mapping>)
    requires HeapOk(h, start, base) && CanGrow(h, start) && start + |h.pages| < ENTRIES
    ensures HeapOk(Grow(h, start), start, base)
  {
    hide Good;
    hide TinyOk;
    hide NoneFree;
    hide Entry;
    hide IsFreePage;
    hide IndexBits;
    hide Present;
    hide PageIndex;
    var page, v, g := Top(h.free), Slot(start, |h.pages|), Grow(h, start);
    EntryFacts(page);
    var m := Mapping(Entry(page), v);
    assert g.stack == base + HeapMappings(g.pages, start);
    GoodPush(h.stack, h.used, h.isFree, m);
    TinyPush(h.stack, h.used, m);
  }

  // Taking the last page away again gives back everything: the free pages and
  // their order, the mappings and their order.
  lemma ShrinkUndoesGrow(h: HeapState, start: nat, base: seq<Mapping>)
    requires HeapOk(h, start, base) && CanGrow(h, start) && start + |h.pages| < ENTRIES
    ensures Shrink(Grow(h, start), start) == h
  {
    hide HeapOk;
    hide FirstOf;
    hide Entry;
    hide Slot;
    LastIsFirst(h, start, base);
    PushedAndPopped(h.pages, Top(h.free));
    var page, v, g := Top(h.free), Slot(start, |h.pages|), Grow(h, start);
    hide Top;
    hide Pop;
    var r := Shrink(g, start);
    PoppedAndPushed(h.free);
    assert r.free == h.free;
    assert r.isFree == h.isFree;
    assert r.used == h.used;
    assert Dropped(g.stack, |h.stack|) == h.stack;
  }

  lemma PushedAndPopped(s: seq<bv16>, page: bv16)
    ensures Top(s + [page]) == page && Pop(s + [page]) == s
  {
  }

  lemma PoppedAndPushed(s: seq<bv16>)
    requires s != []
    ensures Pop(s) + [Top(s)] == s
  {
  }

  // The topmost heap page is a real page number, its mapping is the last of the
  // stack, and no other mapping is for that page.
  lemma TopFacts(h: HeapState, start: nat, base: seq<Mapping>)
    requires HeapOk(h, start, base) && h.pages != []
    ensures IsFreePage(Top(h.pages)) && Top(h.pages) !in h.isFree && start + |h.pages| <= ENTRIES
    ensures h.stack != [] && Slot(start, |h.pages| - 1) in h.used
    ensures FirstOf(h.stack, Entry(Top(h.pages))) == |h.stack| - 1
    ensures h.stack == Pop(h.stack) + [Mapping(Entry(Top(h.pages)), Slot(start, |h.pages| - 1))]
    ensures Pop(h.stack) == base + HeapMappings(Pop(h.pages), start)
  {
    hide Entry;
    hide IsFreePage;
    hide IndexBits;
    hide Good;
    hide FirstOf;
    var i := |h.pages| - 1;
    LastMapping(base, h.pages, start);
    TopIsOwn(h.pages[i]);
    OnlyMappingOf(h.stack, |h.stack| - 1);
  }

  lemma LastMapping(base: seq<Mapping>, pages: seq<bv16>, start: nat)
    requires pages != []
    ensures var stack := base + HeapMappings(pages, start);
            && stack != [] && stack[|stack| - 1] == Mapping(Entry(Top(pages)), Slot(start, |pages| - 1))
            && Pop(stack) == base + HeapMappings(Pop(pages), start)
            && stack == Pop(stack) + [stack[|stack| - 1]]
  {
    hide Entry;
    hide Slot;
  }

  lemma TopIsOwn(page: bv16)
    requires IsFreePage(page)
    ensures IndexBits(Entry(page)) == page
  {
    EntryFacts(page);
    hide *;
  }

  lemma OnlyMappingOf(stack: seq<Mapping>, i: nat)
    requires Good(stack) && i < |stack|
    ensures FirstOf(stack, stack[i].phys) == i
  {
    var f := FirstOf(stack, stack[i].phys);
    SameAsItself(stack[i].phys);
    hide SamePage;
    hide PageIndex;
    hide Present;
    if f < i {
      SamePageSameIndex(stack[f].phys, stack[i].phys);
    }
  }

  // Dropping the topmost page leaves a heap in order.
  lemma ShrinkKeepsOk(h: HeapState, start: nat, base: seq<Mapping>)
    requires HeapOk(h, start, base) && h.pages != []
    ensures HeapOk(Shrink(h, start), start, base)
  {
    hide Good;
    hide TinyOk;
    hide NoneFree;
    hide Entry;
    hide IsFreePage;
    hide IndexBits;
    hide FirstOf;
    TopFacts(h, start, base);
    var page, r := Top(h.pages), Shrink(h, start);
    var m := Mapping(Entry(page), Slot(start, |h.pages| - 1));
    TopIsOwn(page);
    assert r.stack == Pop(h.stack);
    TinyPop(Pop(h.stack), h.used, m);
    GoodPop(Pop(h.stack), h.isFree, m);
  }

  lemma LastIsFirst(h: HeapState, start: nat, base: seq<Mapping>)
    requires HeapOk(h, start, base) && CanGrow(h, start) && start + |h.pages| < ENTRIES
    ensures FirstOf(Grow(h, start).stack, Entry(Top(h.free))) == |h.stack|
  {
    hide HeapOk;
    hide FirstOf;
    hide Entry;
    GrowKeepsOk(h, start, base);
    TopFacts(Grow(h, start), start, base);
  }

  lemma {:induction false} GrowNKeepsOk(h: HeapState, start: nat, base: seq<Mapping>, k: nat)
    requires HeapOk(h, start, base) && CanGrowN(h, start, k) && start + |h.pages| + k <= ENTRIES
    ensures HeapOk(GrowN(h, start, k), start, base) && |GrowN(h, start, k).pages| == |h.pages| + k
  {
    hide HeapOk;
    if k > 0 {
      GrowNKeepsOk(h, start, base, k - 1);
      GrowKeepsOk(GrowN(h, start, k - 1), start, base);
    }
  }

  // Pages are only ever moved between the free set and the heap.
  lemma GrowMovesOnePage(h: HeapState, start: nat)
    requires CanGrow(h, start)
    ensures var g := Grow(h, start);
            && g.isFree + (set p | p in g.pages) == h.isFree + (set p | p in h.pages)
            && Top(h.free) !in g.isFree && g.pages == h.pages + [Top(h.free)]
  {
    hide Entry;
    var g := Grow(h, start);
    assert forall p :: p in g.pages <==> p in h.pages || p == Top(h.free);
  }

  lemma {:induction false} PagesAreConserved(h: HeapState, start: nat, k: nat)
    requires CanGrowN(h, start, k)
    ensures var g := GrowN(h, start, k);
            g.isFree + (set p | p in g.pages) == h.isFree + (set p | p in h.pages)
  {
    hide CanGrow;
    hide Grow;
    if k > 0 {
      PagesAreConserved(h, start, k - 1);
      GrowMovesOnePage(GrowN(h, start, k - 1), start);
    }
  }

  // ----- The program -----

  class PhysPageManager {
    var isPhysAddrFree: set<bv16>
    var freePhysAddr: seq<bv16>

    method AllocPage() returns (page: Option<bv16>)
      modifies this
      ensures old(freePhysAddr) == [] ==> page.None? && freePhysAddr == [] && isPhysAddrFree == old(isPhysAddrFree)
      ensures old(freePhysAddr) != [] ==>
                var top := Top(old(freePhysAddr));
                && freePhysAddr == Pop(old(freePhysAddr))
                && isPhysAddrFree == old(isPhysAddrFree) - {top}
                && page == if top in old(isPhysAddrFree) then Some(top) else None
    {
      if freePhysAddr == [] {
        return None;
      }
      var top := freePhysAddr[|freePhysAddr| - 1];
      freePhysAddr := freePhysAddr[..|freePhysAddr| - 1];
      if top !in isPhysAddrFree {
        return None;
      }
      isPhysAddrFree := isPhysAddrFree - {top};
      page := Some(top);
    }

    method FreePage(page: bv16)
      modifies this
      ensures isPhysAddrFree == old(isPhysAddrFree) + {page}
      ensures freePhysAddr == old(freePhysAddr) + if page in old(isPhysAddrFree) then [] else [page]
    {
      if page in isPhysAddrFree {
        return;
      }
      isPhysAddrFree := isPhysAddrFree + {page};
      freePhysAddr := freePhysAddr + [page];
    }
  }

  // How growing by `need` pages can end: all of them came, or one did not.
  ghost predicate GrowOutcome(h: HeapState, start: nat, need: int, ok: bool, r: HeapState) {
    if need <= 0 then ok && r == h
    else if ok then CanGrowN(h, start, need) && r == GrowN(h, start, need)
    else exists j: nat :: j < need && FailsAfter(h, start, j, r)
  }

  ghost predicate FailsAfter(h: HeapState, start: nat, j: nat, r: HeapState) {
    CanGrowN(h, start, j) && !CanGrow(GrowN(h, start, j), start) && r == FailedGrow(GrowN(h, start, j))
  }

  lemma MorePagesNeeded(n: nat, k: nat)
    requires n > k * PAGE_SIZE
    ensures CeilPages(n) > k
  {
  }

  lemma EnoughPages(n: nat, n0: nat, k: nat)
    requires n <= (n0 + k) * PAGE_SIZE && (k > 0 ==> (n0 + k - 1) * PAGE_SIZE < n)
    ensures if CeilPages(n) <= n0 then k == 0 else CeilPages(n) == n0 + k
  {
  }

  class ProcessDesc {
    const memmap: TinyMemMap
    var heapPhysicalPages: seq<bv16>
    var heapStartingPageIdx: nat
    var heapSize: nat
    var numHeapPages: nat

    constructor (start: nat)
      ensures memmap.Valid() && fresh(memmap) && memmap.pdStack == []
      ensures heapPhysicalPages == [] && heapStartingPageIdx == start && heapSize == numHeapPages == 0
    {
      memmap := new TinyMemMap();
      heapPhysicalPages := [];
      heapStartingPageIdx := start;
      heapSize := 0;
      numHeapPages := 0;
    }

    ghost function State(physPages: PhysPageManager): HeapState
      reads this, memmap, physPages
    {
      HeapState(physPages.freePhysAddr, physPages.isPhysAddrFree,
                memmap.pdStack, memmap.isVirtAddrUsed, heapPhysicalPages)
    }

    // The CPU shows the pages of this heap where the heap says they are.
    ghost predicate Shown(active: Tables)
      reads this
    {
      && active.Shape()
      && forall i :: 0 <= i < |heapPhysicalPages| ==>
           SamePage(active.virt2phys[Slot(heapStartingPageIdx, i)], Entry(heapPhysicalPages[i]))
    }

    // The first loop of sbrk.
    method GrowHeap(physPages: PhysPageManager) returns (ok: bool)
      requires memmap.Valid() && numHeapPages == |heapPhysicalPages|
      requires heapStartingPageIdx * PAGE_SIZE + heapSize <= ADDRESS_SPACE
      modifies this`heapPhysicalPages, this`numHeapPages, memmap, physPages
      ensures memmap.Valid() && numHeapPages == |heapPhysicalPages|
      ensures GrowOutcome(old(State(physPages)), heapStartingPageIdx,
                          CeilPages(heapSize) - old(numHeapPages), ok, State(physPages))
      ensures numHeapPages >= old(numHeapPages) && (ok ==> heapSize <= numHeapPages * PAGE_SIZE)
    {
      hide Grow;
      hide CanGrow;
      hide FailedGrow;
      ghost var h, k, n0, start := State(physPages), 0, numHeapPages, heapStartingPageIdx;
      while heapSize > numHeapPages * PAGE_SIZE
        invariant memmap.Valid() && numHeapPages == |heapPhysicalPages| == n0 + k
        invariant CanGrowN(h, start, k) && State(physPages) == GrowN(h, start, k)
        invariant k > 0 ==> (numHeapPages - 1) * PAGE_SIZE < heapSize
        decreases heapSize - numHeapPages * PAGE_SIZE
      {
        MorePagesNeeded(heapSize, numHeapPages);
        ok := AddPage(physPages);
        if !ok {
          assert FailsAfter(h, start, k, State(physPages));
          return false;
        }
        k := k + 1;
      }
      EnoughPages(heapSize, n0, k);
      ok := true;
    }

    // One turn of that loop.
    method AddPage(physPages: PhysPageManager) returns (ok: bool)
      requires memmap.Valid() && numHeapPages == |heapPhysicalPages|
      requires (heapStartingPageIdx + numHeapPages) * PAGE_SIZE < ADDRESS_SPACE
      modifies this`heapPhysicalPages, this`numHeapPages, memmap, physPages
      ensures memmap.Valid() && numHeapPages == |heapPhysicalPages| == old(numHeapPages) + if ok then 1 else 0
      ensures ok == CanGrow(old(State(physPages)), heapStartingPageIdx)
      ensures State(physPages) == if ok then Grow(old(State(physPages)), heapStartingPageIdx)
                                  else FailedGrow(old(State(physPages)))
    {
      hide Entry;
      var physAddr := physPages.AllocPage();
      if physAddr.None? {
        return false;
      }
      var virt := (heapStartingPageIdx + numHeapPages) * PAGE_SIZE;
      assert VirtIndex(virt) == Slot(heapStartingPageIdx, numHeapPages);
      ok := memmap.Add(virt, Entry(physAddr.value));
      if !ok {
        return false;
      }
      heapPhysicalPages := heapPhysicalPages + [physAddr.value];
      numHeapPages := numHeapPages + 1;
    }

    // One turn of the second loop of sbrk: the topmost page goes, provided the
    // CPU shows there what the heap says.
    method DropPage(physPages: PhysPageManager, cpu0: MemMapManager, ghost base: seq<Mapping>) returns (ok: bool)
      requires memmap.Valid() && cpu0.Valid() && numHeapPages == |heapPhysicalPages| > 0
      requires HeapOk(State(physPages), heapStartingPageIdx, base) && Shown(cpu0.Active())
      modifies this`heapPhysicalPages, this`numHeapPages, memmap, physPages
      ensures ok && numHeapPages == |heapPhysicalPages| == old(numHeapPages) - 1
      ensures heapPhysicalPages == old(heapPhysicalPages)[..numHeapPages]
      ensures State(physPages) == Shrink(old(State(physPages)), heapStartingPageIdx)
    {
      hide HeapOk;
      hide TinyOk;
      hide Entry;
      hide SamePage;
      hide FirstOf;
      hide IndexBits;
      hide IsFreePage;
      ghost var h := State(physPages);
      TopFacts(h, heapStartingPageIdx, base);
      numHeapPages := numHeapPages - 1;
      var virt := (heapStartingPageIdx + numHeapPages) * PAGE_SIZE;
      assert VirtIndex(virt) == Slot(heapStartingPageIdx, numHeapPages);
      var physAddr := cpu0.TranslateVirt(virt);
      var page := heapPhysicalPages[|heapPhysicalPages| - 1];
      heapPhysicalPages := heapPhysicalPages[..|heapPhysicalPages| - 1];
      if !SamePage(physAddr, Entry(page)) {
        return false;
      }
      ShownPage(physAddr, page);
      SamePageFirst(h.stack, physAddr, Entry(page));
      physPages.FreePage(IndexBits(physAddr));
      var _ := memmap.Remove(virt, physAddr);
      ok := true;
    }

    // The second loop of sbrk.
    method ShrinkHeap(physPages: PhysPageManager, cpu0: MemMapManager, ghost base: seq<Mapping>) returns (ok: bool)
      requires memmap.Valid() && cpu0.Valid() && numHeapPages == |heapPhysicalPages|
      requires HeapOk(State(physPages), heapStartingPageIdx, base)
      requires heapSize + PAGE_SIZE <= numHeapPages * PAGE_SIZE ==> Shown(cpu0.Active())
      requires {memmap, this, physPages} !! cpu0.Repr() + {cpu0}
      modifies this`heapPhysicalPages, this`numHeapPages, memmap, physPages
      ensures ok && memmap.Valid() && numHeapPages == |heapPhysicalPages|
      ensures HeapOk(State(physPages), heapStartingPageIdx, base)
      ensures var h, start := old(State(physPages)), heapStartingPageIdx;
              var spare := old(numHeapPages) - CeilPages(heapSize);
              if spare <= 0 then State(physPages) == h
              else spare <= |h.pages| && State(physPages) == ShrinkN(h, start, spare)
    {
      hide HeapOk;
      hide TinyOk;
      hide SamePage;
      hide Entry;
      hide Shrink;
      ghost var h, start, k, n0 := State(physPages), heapStartingPageIdx, 0, numHeapPages;
      while heapSize + PAGE_SIZE <= numHeapPages * PAGE_SIZE
        invariant 0 <= k <= n0 && numHeapPages == |heapPhysicalPages| == n0 - k
        invariant memmap.Valid() && HeapOk(State(physPages), start, base)
        invariant State(physPages) == ShrinkN(h, start, k)
        invariant cpu0.Valid() && cpu0.Active() == old(cpu0.Active())
        invariant heapSize + PAGE_SIZE <= numHeapPages * PAGE_SIZE ==> Shown(cpu0.Active())
        invariant k > 0 ==> heapSize <= numHeapPages * PAGE_SIZE
        decreases numHeapPages
      {
        ShrinkKeepsOk(State(physPages), start, base);
        ok := DropPage(physPages, cpu0, base);
        HeapIsTiny(State(physPages), start, base);
        k := k + 1;
      }
      SparePages(heapSize, n0, k);
      ok := true;
    }

    // The part of the destructor that gives the heap back: as far as the free
    // pages go, the same as shrinking to nothing.
    method FreeHeap(physPages: PhysPageManager)
      modifies this`heapPhysicalPages, physPages
      ensures heapPhysicalPages == []
      ensures var h := old(State(physPages));
              var r := ShrinkN(h, heapStartingPageIdx, |h.pages|);
              physPages.freePhysAddr == r.free && physPages.isPhysAddrFree == r.isFree
    {
      hide Entry;
      hide FirstOf;
      hide Slot;
      ghost var h, k := State(physPages), 0;
      while heapPhysicalPages != []
        invariant 0 <= k <= |h.pages|
        invariant var r := ShrinkN(h, heapStartingPageIdx, k);
                  && physPages.freePhysAddr == r.free && physPages.isPhysAddrFree == r.isFree
                  && heapPhysicalPages == r.pages
        decreases |heapPhysicalPages|
      {
        var page := heapPhysicalPages[|heapPhysicalPages| - 1];
        heapPhysicalPages := heapPhysicalPages[..|heapPhysicalPages| - 1];
        physPages.FreePage(page);
        k := k + 1;
      }
    }

    // Both loops of sbrk: the heap gets the pages its size needs.
    method FitPages(physPages: PhysPageManager, cpu0: MemMapManager, ghost base: seq<Mapping>) returns (ok: bool)
      requires memmap.Valid() && cpu0.Valid() && numHeapPages == |heapPhysicalPages|
      requires HeapOk(State(physPages), heapStartingPageIdx, base) && Shown(cpu0.Active())
      requires heapStartingPageIdx * PAGE_SIZE + heapSize <= ADDRESS_SPACE
      requires {memmap, this, physPages} !! cpu0.Repr() + {cpu0}
      modifies this`heapPhysicalPages, this`numHeapPages, memmap, physPages
      ensures memmap.Valid() && numHeapPages == |heapPhysicalPages|
      ensures ok <==> Reaches(old(State(physPages)), heapStartingPageIdx, CeilPages(heapSize))
      ensures HeapOk(State(physPages), heapStartingPageIdx, base)
      ensures ok ==> Resized(old(State(physPages)), heapStartingPageIdx, CeilPages(heapSize), State(physPages))
      ensures !ok ==> GrowOutcome(old(State(physPages)), heapStartingPageIdx,
                                  CeilPages(heapSize) - old(numHeapPages), false, State(physPages))
    {
      hide HeapOk;
      hide TinyOk;
      hide SamePage;
      hide Entry;
      hide Grow;
      hide CanGrow;
      hide FailedGrow;
      hide Shrink;
      ghost var h, start, need := State(physPages), heapStartingPageIdx, CeilPages(heapSize) - numHeapPages;
      RoomForHeap(start, heapSize);
      ok := GrowHeap(physPages);
      OutcomeIsDecided(h, start, base, need, ok, State(physPages));
      if ok {
        ok := ShrinkHeap(physPages, cpu0, base);
      }
    }

    // Moves the break by delta and returns the old break.  Growing takes one
    // free page for each 4 MB begun, shrinking gives them back; the process's
    // map is loaded again.
    method Sbrk(delta: int, physPages: PhysPageManager, cpu0: MemMapManager, ghost base: seq<Mapping>)
      returns (r: Option<nat>)
      requires memmap.Valid() && cpu0.Valid() && numHeapPages == |heapPhysicalPages|
      requires HeapOk(State(physPages), heapStartingPageIdx, base) && Shown(cpu0.Active())
      requires heapStartingPageIdx * PAGE_SIZE + heapSize + delta <= ADDRESS_SPACE
      requires {memmap, this, physPages} !! cpu0.Repr() + {cpu0}
      modifies this, memmap, physPages, cpu0, cpu0.Repr()
      ensures heapStartingPageIdx == old(heapStartingPageIdx)
      ensures memmap.Valid() && cpu0.Valid() && numHeapPages == |heapPhysicalPages|
      // It succeeds if and only if the break stays in the heap, the pages can
      // be had, and the new map of the process can be loaded.
      ensures r.Some? <==>
                && old(heapSize) + delta >= 0
                && Reaches(old(State(physPages)), heapStartingPageIdx, CeilPages(old(heapSize) + delta))
                && old(cpu0.bIsStarted) && !Conflicts(old(cpu0.Common()), memmap.pdStack)
      // So it does whenever the pages can be had and the common map has nothing
      // where the process has its pages and will have its heap.
      ensures && old(heapSize) + delta >= 0
              && Reaches(old(State(physPages)), heapStartingPageIdx, CeilPages(old(heapSize) + delta))
              && old(cpu0.bIsStarted) && NoneShown(old(cpu0.Common()), base)
              && VacantHeap(old(cpu0.Common()), heapStartingPageIdx, CeilPages(old(heapSize) + delta))
              ==> r.Some?
      // Whatever happens, the heap is in order.
      ensures HeapOk(State(physPages), heapStartingPageIdx, base)
      // Contracting below the start of the heap changes nothing.
      ensures old(heapSize) + delta < 0 ==> heapSize == old(heapSize) && State(physPages) == old(State(physPages))
      // Otherwise the new size stays, whether or not the pages for it were had.
      ensures old(heapSize) + delta >= 0 ==>
                && heapSize == old(heapSize) + delta
                && var h, start, n := old(State(physPages)), heapStartingPageIdx, CeilPages(heapSize);
                   if Reaches(h, start, n) then Resized(h, start, n, State(physPages)) && numHeapPages == n
                   else GrowOutcome(h, start, n - old(numHeapPages), false, State(physPages))
      // Success: the old break, and the CPU's map is loaded from the new pages.
      ensures r.Some? ==>
                && r.value == heapStartingPageIdx * PAGE_SIZE + old(heapSize)
                && cpu0.Active() == ProcessMap.Loaded(cpu0.Common(), memmap.pdStack)
      // What the next call asks for holds again, unless the process and the
      // common pages share a page.
      ensures var c, stack := cpu0.Common(), memmap.pdStack;
              r.Some? && Inverse(c) && !SharesVirt(c, stack) && !SharesPhys(c, stack) ==> Shown(cpu0.Active())
    {
      hide HeapOk;
      hide TinyOk;
      hide SamePage;
      hide Resized;
      hide ProcessMap.Loaded;
      hide Conflicts;
      hide SharesVirt;
      hide SharesPhys;
      hide Inverse;
      hide Reaches;
      hide GrowOutcome;
      hide NoneShown;
      hide VacantHeap;
      var oldHeapSize := heapSize;
      if delta < 0 && heapSize < -delta {
        return None;
      }
      heapSize := heapSize + delta;
      var ok := FitPages(physPages, cpu0, base);
      if !ok {
        return None;
      }
      ResizedCount(old(State(physPages)), heapStartingPageIdx, CeilPages(heapSize), State(physPages));
      HeapIsTiny(State(physPages), heapStartingPageIdx, base);
      HeapIsVacant(cpu0.Common(), State(physPages), heapStartingPageIdx, base);
      ok := cpu0.LoadProcessMap(memmap);
      if !ok {
        return None;
      }
      r := Some(heapStartingPageIdx * PAGE_SIZE + oldHeapSize);
      LoadShowsHeap(cpu0.Common(), State(physPages), heapStartingPageIdx, base);
    }
  }

  // Loading a process's map puts each page of its heap where sbrk looks for it.
  lemma LoadShowsHeap(common: Tables, h: HeapState, start: nat, base: seq<Mapping>)
    requires HeapOk(h, start, base) && common.Shape()
    ensures Inverse(common) && !SharesVirt(common, h.stack) && !SharesPhys(common, h.stack) ==>
              forall i :: 0 <= i < |h.pages| ==>
                SamePage(ProcessMap.Loaded(common, h.stack).virt2phys[Slot(start, i)], Entry(h.pages[i]))
  {
    hide ProcessMap.Loaded;
    hide SharesVirt;
    hide SharesPhys;
    hide Inverse;
    hide Entry;
    hide SamePage;
    hide PageIndex;
    hide Present;
    hide IsFreePage;
    hide PageAt;
    if Inverse(common) && !SharesVirt(common, h.stack) && !SharesPhys(common, h.stack) {
      LoadedIsUnion(common, h.stack);
      forall i | 0 <= i < |h.pages|
        ensures SamePage(ProcessMap.Loaded(common, h.stack).virt2phys[Slot(start, i)], Entry(h.pages[i]))
      {
        assert h.stack[|base| + i] == Mapping(Entry(h.pages[i]), Slot(start, i));
        PageAtMember(h.stack, Slot(start, i));
        SameAsItself(Entry(h.pages[i]));
      }
    }
  }

  // The common map has nothing at the first n places of a heap.
  ghost predicate VacantHeap(common: Tables, start: nat, n: nat)
    requires common.Shape()
  {
    forall i :: 0 <= i < n ==> !Present(common.virt2phys[Slot(start, i)])
  }

  lemma HeapIsVacant(common: Tables, h: HeapState, start: nat, base: seq<Mapping>)
    requires HeapOk(h, start, base) && common.Shape()
    ensures NoneShown(common, base) && VacantHeap(common, start, |h.pages|) ==> NoneShown(common, h.stack)
  {
    hide Present;
    hide Entry;
    hide Good;
    hide TinyOk;
    hide NoneFree;
  }

  // The heap after resizing to n pages.
  ghost predicate Resized(h: HeapState, start: nat, n: nat, r: HeapState) {
    if |h.pages| <= n then CanGrowN(h, start, n - |h.pages|) && r == GrowN(h, start, n - |h.pages|)
    else r == ShrinkN(h, start, |h.pages| - n)
  }

  // Growing again after giving a page back restores everything, too.
  lemma GrowUndoesShrink(h: HeapState, start: nat, base: seq<Mapping>)
    requires HeapOk(h, start, base) && h.pages != []
    ensures CanGrow(Shrink(h, start), start) && Grow(Shrink(h, start), start) == h
  {
    hide HeapOk;
    hide FirstOf;
    hide Entry;
    TopFacts(h, start, base);
    var g := Shrink(h, start);
    assert g.stack == Pop(h.stack);
    assert Grow(g, start).isFree == h.isFree;
    assert Grow(g, start).used == h.used;
    assert Pop(h.pages) + [Top(h.pages)] == h.pages;
    assert Pop(h.free + [Top(h.pages)]) == h.free;
  }

  // The state that h reaches at n pages.
  function At(h: HeapState, start: nat, n: nat): HeapState {
    if |h.pages| <= n then GrowN(h, start, n - |h.pages|) else ShrinkN(h, start, |h.pages| - n)
  }

  ghost predicate Reaches(h: HeapState, start: nat, n: nat) {
    |h.pages| <= n ==> CanGrowN(h, start, n - |h.pages|)
  }

  lemma {:induction false} ShrinkNKeepsOk(h: HeapState, start: nat, base: seq<Mapping>, k: nat)
    requires HeapOk(h, start, base) && k <= |h.pages|
    ensures HeapOk(ShrinkN(h, start, k), start, base)
  {
    hide HeapOk;
    hide Shrink;
    if k > 0 {
      ShrinkNKeepsOk(h, start, base, k - 1);
      ShrinkKeepsOk(ShrinkN(h, start, k - 1), start, base);
    }
  }

  lemma AtKeepsOk(h: HeapState, start: nat, base: seq<Mapping>, n: nat)
    requires HeapOk(h, start, base) && Reaches(h, start, n) && start + n <= ENTRIES
    ensures HeapOk(At(h, start, n), start, base) && |At(h, start, n).pages| == n
  {
    hide HeapOk;
    if |h.pages| <= n {
      GrowNKeepsOk(h, start, base, n - |h.pages|);
    } else {
      ShrinkNKeepsOk(h, start, base, |h.pages| - n);
    }
  }

  // One page up from n.
  lemma StepUp(h: HeapState, start: nat, base: seq<Mapping>, n: nat)
    requires HeapOk(h, start, base) && Reaches(h, start, n) && start + n < ENTRIES
    requires CanGrow(At(h, start, n), start)
    ensures Reaches(h, start, n + 1) && Grow(At(h, start, n), start) == At(h, start, n + 1)
  {
    hide HeapOk;
    hide Grow;
    hide Shrink;
    hide CanGrow;
    if n < |h.pages| {
      var k := |h.pages| - n;
      ShrinkNKeepsOk(h, start, base, k - 1);
      GrowUndoesShrink(ShrinkN(h, start, k - 1), start, base);
    }
  }

  // One page down from n.
  lemma StepDown(h: HeapState, start: nat, base: seq<Mapping>, n: nat)
    requires HeapOk(h, start, base) && Reaches(h, start, n) && start + n <= ENTRIES && n > 0
    ensures Reaches(h, start, n - 1) && |At(h, start, n).pages| == n
    ensures Shrink(At(h, start, n), start) == At(h, start, n - 1)
  {
    hide HeapOk;
    hide Grow;
    hide Shrink;
    hide CanGrow;
    AtKeepsOk(h, start, base, n);
    if |h.pages| < n {
      var k := n - |h.pages|;
      GrowNKeepsOk(h, start, base, k - 1);
      ShrinkUndoesGrow(GrowN(h, start, k - 1), start, base);
      assert At(h, start, n) == Grow(GrowN(h, start, k - 1), start);
      assert At(h, start, n - 1) == GrowN(h, start, k - 1);
    } else {
      var k := |h.pages| - n;
      NoPages(h, start);
      assert At(h, start, n) == ShrinkN(h, start, k);
      assert At(h, start, n - 1) == ShrinkN(h, start, k + 1);
    }
  }

  lemma {:induction false} StepsUp(h: HeapState, start: nat, base: seq<Mapping>, n: nat, k: nat)
    requires HeapOk(h, start, base) && Reaches(h, start, n) && start + n + k <= ENTRIES
    requires CanGrowN(At(h, start, n), start, k)
    ensures Reaches(h, start, n + k) && GrowN(At(h, start, n), start, k) == At(h, start, n + k)
  {
    hide HeapOk;
    hide At;
    hide Reaches;
    hide Grow;
    hide CanGrow;
    if k > 0 {
      StepsUp(h, start, base, n, k - 1);
      StepUp(h, start, base, n + k - 1);
    }
  }

  lemma {:induction false} StepsDown(h: HeapState, start: nat, base: seq<Mapping>, n: nat, k: nat)
    requires HeapOk(h, start, base) && Reaches(h, start, n) && start + n <= ENTRIES && k <= n
    ensures Reaches(h, start, n - k) && |At(h, start, n).pages| == n
    ensures ShrinkN(At(h, start, n), start, k) == At(h, start, n - k)
  {
    hide HeapOk;
    hide At;
    hide Reaches;
    hide Shrink;
    AtKeepsOk(h, start, base, n);
    if k > 0 {
      StepsDown(h, start, base, n, k - 1);
      StepDown(h, start, base, n - k + 1);
    }
  }

  // Resizing twice is resizing once: free pages, their order, mappings and heap
  // pages depend only on the last size.  In particular sbrk(d) then sbrk(-d)
  // restores all of them (m = the first size).
  lemma ResizingForgetsTheWay(h: HeapState, start: nat, base: seq<Mapping>, n: nat, g: HeapState, m: nat, r: HeapState)
    requires HeapOk(h, start, base) && start + n <= ENTRIES && start + m <= ENTRIES
    requires Resized(h, start, n, g) && Resized(g, start, m, r)
    ensures Resized(h, start, m, r) && (m == |h.pages| ==> r == h)
  {
    hide HeapOk;
    hide GrowN;
    hide CanGrowN;
    hide ShrinkN;
    assert g == At(h, start, n) && Reaches(h, start, n);
    AtKeepsOk(h, start, base, n);
    if n <= m {
      StepsUp(h, start, base, n, m - n);
    } else {
      StepsDown(h, start, base, n, n - m);
    }
    NoPages(h, start);
  }

  lemma NoPages(h: HeapState, start: nat)
    ensures GrowN(h, start, 0) == h && ShrinkN(h, start, 0) == h
  {
  }

  // Pages only move between the free set and the heap, in both directions.
  lemma ResizingConservesPages(h: HeapState, start: nat, base: seq<Mapping>, n: nat, g: HeapState)
    requires HeapOk(h, start, base) && start + n <= ENTRIES && Resized(h, start, n, g)
    ensures g.isFree + (set p | p in g.pages) == h.isFree + (set p | p in h.pages)
  {
    hide HeapOk;
    NoPages(h, start);
    if |h.pages| <= n {
      PagesAreConserved(h, start, n - |h.pages|);
    } else {
      AtKeepsOk(h, start, base, n);
      StepsBackUp(h, start, base, n, |h.pages| - n);
      PagesAreConserved(g, start, |h.pages| - n);
    }
  }

  lemma {:induction false} StepsBackUp(h: HeapState, start: nat, base: seq<Mapping>, n: nat, k: nat)
    requires HeapOk(h, start, base) && n + k <= |h.pages|
    ensures CanGrowN(At(h, start, n), start, k) && GrowN(At(h, start, n), start, k) == At(h, start, n + k)
  {
    hide HeapOk;
    hide Grow;
    hide Shrink;
    hide CanGrow;
    NoPages(h, start);
    if k > 0 {
      StepsBackUp(h, start, base, n, k - 1);
      var j := |h.pages| - (n + k - 1);
      ShrinkNKeepsOk(h, start, base, j - 1);
      GrowUndoesShrink(ShrinkN(h, start, j - 1), start, base);
    }
  }

  lemma ResizedCount(h: HeapState, start: nat, n: nat, r: HeapState)
    requires Resized(h, start, n, r)
    ensures |r.pages| == n
  {
    if |h.pages| <= n {
      GrowsBy(h, start, n - |h.pages|);
    }
  }

  lemma {:induction false} GrowsBy(h: HeapState, start: nat, k: nat)
    requires CanGrowN(h, start, k)
    ensures |GrowN(h, start, k).pages| == |h.pages| + k
  {
    hide Entry;
    if k > 0 {
      GrowsBy(h, start, k - 1);
    }
  }

  lemma RoomForHeap(start: nat, n: nat)
    requires start * PAGE_SIZE + n <= ADDRESS_SPACE
    ensures start + CeilPages(n) <= ENTRIES
  {
  }

  lemma {:induction false} CanGrowFewer(h: HeapState, start: nat, k: nat, j: nat)
    requires CanGrowN(h, start, k) && j < k
    ensures CanGrowN(h, start, j) && CanGrow(GrowN(h, start, j), start)
  {
    hide CanGrow;
    hide Grow;
    if j < k - 1 {
      CanGrowFewer(h, start, k - 1, j);
    }
  }

  // A growth that failed leaves the heap in order; a free page may be lost.
  lemma FailedGrowKeepsOk(h: HeapState, start: nat, base: seq<Mapping>)
    requires HeapOk(h, start, base)
    ensures HeapOk(FailedGrow(h), start, base)
  {
    hide Good;
    hide TinyOk;
    hide IsFreePage;
    hide IndexBits;
    assert NoneFree(h.stack, FailedGrow(h).isFree);
  }

  // Growing succeeds exactly when all the pages can be had, and the heap is in
  // order either way.
  lemma OutcomeIsDecided(h: HeapState, start: nat, base: seq<Mapping>, need: int, ok: bool, r: HeapState)
    requires HeapOk(h, start, base) && GrowOutcome(h, start, need, ok, r)
    requires start + |h.pages| + need <= ENTRIES
    ensures ok <==> (need > 0 ==> CanGrowN(h, start, need))
    ensures HeapOk(r, start, base) && (ok ==> |r.pages| == |h.pages| + if need > 0 then need else 0)
  {
    hide HeapOk;
    hide CanGrow;
    hide FailedGrow;
    hide Grow;
    if need > 0 {
      if ok {
        GrowNKeepsOk(h, start, base, need);
      } else {
        var j: nat :| j < need && FailsAfter(h, start, j, r);
        if CanGrowN(h, start, need) {
          CanGrowFewer(h, start, need, j);
        }
        GrowNKeepsOk(h, start, base, j);
        FailedGrowKeepsOk(GrowN(h, start, j), start, base);
      }
    }
  }

  lemma SparePages(n: nat, n0: nat, k: nat)
    requires k <= n0 && n + PAGE_SIZE > (n0 - k) * PAGE_SIZE && (k > 0 ==> n <= (n0 - k) * PAGE_SIZE)
    ensures if CeilPages(n) >= n0 then k == 0 else CeilPages(n) == n0 - k
  {
  }

  lemma HeapIsTiny(h: HeapState, start: nat, base: seq<Mapping>)
    requires HeapOk(h, start, base)
    ensures TinyOk(h.stack, h.used) && start + |h.pages| <= ENTRIES
  {
  }

  lemma ShownPage(p: Pde, page: bv16)
    requires SamePage(p, Entry(page)) && IsFreePage(page)
    ensures IndexBits(p) == page
  {
    EntryFacts(page);
    SameBits(p, Entry(page));
    hide *;
  }

  lemma SamePageAsBoth(p: Pde, q: Pde, r: Pde)
    requires SamePage(p, q)
    ensures SamePage(r, p) <==> SamePage(r, q)
  {
  }

  // Removing by an entry or by the one the CPU marked removes the same mapping.
  lemma {:induction false} SamePageFirst(stack: seq<Mapping>, p: Pde, q: Pde)
    requires SamePage(p, q)
    ensures FirstOf(stack, p) == FirstOf(stack, q)
  {
    hide SamePage;
    if stack != [] {
      SamePageAsBoth(p, q, stack[0].phys);
      SamePageFirst(stack[1..], p, q);
    }
  }
}
