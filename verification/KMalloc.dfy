// The classes of klibs/kmalloc.cpp, proved against the values of Pools and
// Arenas, with the page sources they draw on.
module KMalloc {
  import opened Common
  import opened Pools
  import opened Arenas
  import opened PhysAddr
  import opened PageMap
  import opened MemMaps
  import Heap

  class ObjectPool {
    const size: nat
    const base: nat
    var freeMap: set<nat>
    var freeStack: seq<nat>
    var numValidElements: nat

    function Value(): Pool
      reads this
    {
      Pool(size, base, freeStack, freeMap)
    }

    ghost predicate Valid()
      reads this
    {
      IsBlockSize(size) && numValidElements == NumElements(size) - HeaderElements(size)
    }

    constructor (size: nat, base: nat)
      requires IsBlockSize(size)
      ensures Valid() && Value() == Fresh(size, base)
    {
      this.size := size;
      this.base := base;
      freeMap := {};
      freeStack := [];
      numValidElements := NumElements(size) - HeaderElements(size);
      new;
      MarkAll();
    }

    // Marks the header occupied and the rest free.
    method MarkAll()
      requires Valid() && freeMap == {} && freeStack == []
      modifies this`freeMap, this`freeStack
      ensures Value() == Fresh(size, base)
    {
      hide HeaderElements;
      hide NumElements;
      var h, n := HeaderElements(size), NumElements(size);
      for i := 0 to h
        invariant freeMap == {} && freeStack == []
      {
        freeMap := freeMap - {i};
      }
      for i := h to n
        invariant freeMap == Between(h, i) && freeStack == Elements(size, base, h, i)
      {
        freeMap := freeMap + {i};
        freeStack := Pushed(freeStack, base + size * i, n);
      }
    }

    method Get() returns (block: Option<nat>)
      requires Valid()
      modifies this`freeMap, this`freeStack
      ensures Valid() && (block.None? <==> old(freeStack) == [])
      ensures block.Some? ==> block.value == Last(old(freeStack)) && Value() == Pools.Get(old(Value()))
      ensures block.None? ==> Value() == old(Value())
    {
      if freeStack == [] {
        return None;
      }
      var addr := freeStack[|freeStack| - 1];
      freeStack := freeStack[..|freeStack| - 1];
      freeMap := freeMap - {MapIndex(Value(), addr)};
      block := Some(addr);
    }

    method IsEmpty() returns (r: bool)
      requires Valid()
      ensures r == Pools.IsEmpty(Value())
    {
      r := |freeStack| == numValidElements;
    }

    method Release(addr: nat) returns (ok: bool)
      requires Valid()
      modifies this`freeMap, this`freeStack
      ensures Valid() && ok == Releases(old(Value()), addr) && Value() == Pools.Release(old(Value()), addr)
    {
      var idx := MapIndex(Value(), addr);
      if idx >= NumElements(size) {
        return false;
      }
      if idx !in freeMap {
        freeMap := freeMap - {idx};
        freeStack := Pushed(freeStack, addr, NumElements(size));
        return true;
      }
      ok := false;
    }
  }

  // ----- Pages -----

  const REGION_START: nat := 0xc000_0000
  const REGION_PAGES: nat := 255

  // The last gigabyte of the address space: VirtualMemRegion of
  // inc/klibs/palloc.h.
  class VirtualMemRegion {
    var isVirtAddrUsed: set<nat>
    var freeVirtAddr: seq<nat>

    ghost predicate Valid()
      reads this
    {
      && Distinct(freeVirtAddr)
      && (forall i :: i in freeVirtAddr ==> i < REGION_PAGES && i !in isVirtAddrUsed)
      && (forall i :: i in isVirtAddrUsed ==> i < REGION_PAGES)
    }

    constructor ()
      ensures Valid() && isVirtAddrUsed == {} && |freeVirtAddr| == REGION_PAGES
    {
      isVirtAddrUsed := {};
      freeVirtAddr := seq(REGION_PAGES, i => i);
    }

    method AllocPage() returns (page: Option<nat>)
      requires Valid()
      modifies this
      ensures Valid()
      ensures old(freeVirtAddr) == [] ==> page.None? && isVirtAddrUsed == old(isVirtAddrUsed) && freeVirtAddr == []
      ensures old(freeVirtAddr) != [] ==>
                var top := Last(old(freeVirtAddr));
                && page == Some(REGION_START + top * PAGE_SIZE) && top !in old(isVirtAddrUsed)
                && isVirtAddrUsed == old(isVirtAddrUsed) + {top}
                && freeVirtAddr == old(freeVirtAddr)[..|old(freeVirtAddr)| - 1]
    {
      if freeVirtAddr == [] {
        return None;
      }
      var top := freeVirtAddr[|freeVirtAddr| - 1];
      freeVirtAddr := freeVirtAddr[..|freeVirtAddr| - 1];
      isVirtAddrUsed := isVirtAddrUsed + {top};
      LastIsElsewhereAbsent(old(freeVirtAddr));
      page := Some(REGION_START + top * PAGE_SIZE);
    }

    // The index is taken from the bottom of memory, not of the region, so no
    // page of the region is ever given back.
    method FreePage(addr: Address)
      requires Valid()
      modifies this
      ensures REGION_START <= addr ==> isVirtAddrUsed == old(isVirtAddrUsed) && freeVirtAddr == old(freeVirtAddr)
      ensures VirtIndex(addr) in old(isVirtAddrUsed) ==>
                isVirtAddrUsed == old(isVirtAddrUsed) - {VirtIndex(addr)}
                && freeVirtAddr == old(freeVirtAddr) + [VirtIndex(addr)]
      ensures Valid()
    {
      var pageIndex := VirtIndex(addr);
      if pageIndex in isVirtAddrUsed {
        isVirtAddrUsed := isVirtAddrUsed - {pageIndex};
        freeVirtAddr := freeVirtAddr + [pageIndex];
        assert forall i :: i in freeVirtAddr <==> i in old(freeVirtAddr) || i == pageIndex;
      }
    }
  }

  lemma LastIsElsewhereAbsent(s: seq<nat>)
    requires Distinct(s) && s != []
    ensures var front := s[..|s| - 1];
            Distinct(front) && Last(s) !in front && forall x :: x in front ==> x in s
  {
  }

  // ----- The slots -----

  ghost predicate AllValid(pools: seq<ObjectPool>)
    reads pools
  {
    forall i :: 0 <= i < |pools| ==> pools[i].Valid()
  }

  function Values(pools: seq<ObjectPool>): (r: seq<Pool>)
    reads pools
    ensures |r| == |pools|
    ensures forall i :: 0 <= i < |pools| ==> r[i] == pools[i].Value()
    ensures AllValid(pools) ==> forall i :: 0 <= i < |r| ==> WellSized(r[i])
  {
    if pools == [] then [] else Values(pools[..|pools| - 1]) + [pools[|pools| - 1].Value()]
  }

  // Stack.first with the test for emptiness.
  method SearchEmpty(pools: seq<ObjectPool>) returns (i: nat)
    requires AllValid(pools)
    ensures i == FirstEmpty(Values(pools))
  {
    hide HeaderElements;
    hide NumElements;
    hide Values;
    hide FirstEmpty;
    i := 0;
    while i < |pools|
      invariant i <= |pools|
      invariant forall j :: 0 <= j < i ==> !IsEmpty(Values(pools)[j])
    {
      var empty := pools[i].IsEmpty();
      if empty {
        return;
      }
      i := i + 1;
    }
  }

  // Stack.first with get: the first pool that has a free block gives it.
  method SearchFree(pools: seq<ObjectPool>) returns (block: Option<nat>)
    requires AllValid(pools) && NoTwice(pools)
    modifies pools
    ensures AllValid(pools)
    ensures var was := old(Values(pools));
            var i := FirstFree(was);
            if i < |pools| then block == Some(Last(was[i].free)) && WellSized(was[i])
                                && Values(pools) == was[i := Pools.Get(was[i])]
            else block.None? && Values(pools) == was
  {
    hide HeaderElements;
    hide NumElements;
    hide Values;
    hide FirstFree;
    hide Pools.Get;
    ghost var was := Values(pools);
    var i := 0;
    while i < |pools|
      invariant i <= |pools| && AllValid(pools)
      invariant forall j :: 0 <= j < |pools| ==> pools[j].Value() == was[j]
      invariant forall j :: 0 <= j < i ==> was[j].free == []
    {
      block := pools[i].Get();
      if block.Some? {
        assert Values(pools) == was[i := Pools.Get(was[i])];
        return;
      }
      i := i + 1;
    }
    assert Values(pools) == was;
    block := None;
  }

  // Stack.firstTrue with release.
  method SearchOwner(pools: seq<ObjectPool>, addr: nat) returns (ok: bool)
    requires AllValid(pools) && NoTwice(pools)
    modifies pools
    ensures AllValid(pools)
    ensures var was := old(Values(pools));
            var i := FirstReleasing(was, addr);
            && ok == (i < |pools|)
            && Values(pools) == if ok then was[i := Pools.Release(was[i], addr)] else was
  {
    hide HeaderElements;
    hide NumElements;
    hide Values;
    hide FirstReleasing;
    hide Releases;
    ghost var was := Values(pools);
    var i := 0;
    while i < |pools|
      invariant i <= |pools| && AllValid(pools)
      invariant forall j :: 0 <= j < |pools| ==> pools[j].Value() == was[j]
      invariant forall j :: 0 <= j < i ==> !Releases(was[j], addr)
    {
      ok := pools[i].Release(addr);
      if ok {
        assert Values(pools) == was[i := Pools.Release(was[i], addr)];
        return;
      }
      i := i + 1;
    }
    assert Values(pools) == was;
    ok := false;
  }

  ghost predicate NoTwice(pools: seq<ObjectPool>) {
    forall i, j :: 0 <= i < j < |pools| ==> pools[i] != pools[j]
  }

  // No pool is in two places.
  ghost predicate Apart(slots: seq<seq<ObjectPool>>) {
    forall k: nat, i: nat, l: nat, j: nat {:trigger slots[k][i], slots[l][j]} ::
      k < |slots| && i < |slots[k]| && l < |slots| && j < |slots[l]| && slots[k][i] == slots[l][j] ==> k == l && i == j
  }

  lemma ApartInSlot(slots: seq<seq<ObjectPool>>, k: nat)
    requires Apart(slots) && k < |slots|
    ensures NoTwice(slots[k])
    ensures forall l: nat, j: nat :: l < |slots| && l != k && j < |slots[l]| ==> slots[l][j] !in slots[k]
  {
  }

  lemma ApartDrop(slots: seq<seq<ObjectPool>>, k: nat, i: nat)
    requires Apart(slots) && k < |slots| && i < |slots[k]|
    ensures Apart(slots[k := slots[k][..i] + slots[k][i + 1..]])
  {
    var t := slots[k := slots[k][..i] + slots[k][i + 1..]];
    forall l: nat, j: nat | l < |t| && j < |t[l]|
      ensures t[l][j] == slots[l][if l == k && j >= i then j + 1 else j]
    {
    }
  }

  lemma ApartPush(slots: seq<seq<ObjectPool>>, k: nat, p: ObjectPool)
    requires Apart(slots) && k < |slots| && forall l: nat, j: nat :: l < |slots| && j < |slots[l]| ==> slots[l][j] != p
    ensures Apart(slots[k := slots[k] + [p]])
  {
    var t := slots[k := slots[k] + [p]];
    forall l: nat, j: nat | l < |t| && j < |t[l]|
      ensures t[l][j] == if l == k && j == |slots[k]| then p else slots[l][j]
    {
    }
  }

  // The pools of one class are in order and have these values.
  ghost predicate SlotIs(pools: seq<ObjectPool>, k: nat, values: seq<Pool>)
    reads pools
  {
    k < NUM_CLASSES && |pools| <= MAX_POOLS_IN_SLOT && AllValid(pools) && Values(pools) == values
    && forall i :: 0 <= i < |pools| ==> pools[i].size == SizeOf(k)
  }

  lemma SlotDrop(pools: seq<ObjectPool>, k: nat, values: seq<Pool>, i: nat)
    requires SlotIs(pools, k, values) && i < |pools|
    ensures |values| == |pools| && SlotIs(pools[..i] + pools[i + 1..], k, values[..i] + values[i + 1..])
  {
    hide Values;
  }

  lemma SlotPush(pools: seq<ObjectPool>, k: nat, values: seq<Pool>, p: ObjectPool)
    requires SlotIs(pools, k, values) && p.Valid() && p.size == SizeOf(k) && |pools| < MAX_POOLS_IN_SLOT
    ensures SlotIs(pools + [p], k, values + [p.Value()])
  {
    hide Values;
  }

  ghost predicate PageUsed(base: nat, used: set<nat>) {
    && REGION_START <= base && (base - REGION_START) % PAGE_SIZE == 0
    && (base - REGION_START) / PAGE_SIZE in used
  }

  // Every pool lies in a page that the region has given out.
  ghost predicate PagesIn(s: Arena, used: set<nat>) {
    forall k: nat, i: nat {:trigger s.At(k, i)} :: s.Has(k, i) ==> PageUsed(s.At(k, i).base, used)
  }

  ghost predicate PagesReady(phys: Heap.PhysPageManager, virt: VirtualMemRegion, cpu0: MemMapManager)
    reads phys, virt, cpu0, cpu0.Repr()
  {
    && virt.Valid() && cpu0.Valid() && Inverse(cpu0.Common())
    && forall p :: p in phys.isPhysAddrFree ==> Heap.IsFreePage(p)
  }

  function RegionPage(v: nat): (a: Address)
    requires v < REGION_PAGES
    ensures VirtIndex(a) == REGION_START / PAGE_SIZE + v && PageUsed(a, {v}) && a % POOL_SIZE == 0
  {
    REGION_START + v * PAGE_SIZE
  }

  // The entry that maps page p for the kernel.
  function KernelEntry(p: bv16): Pde {
    MarkGlobal(Encode(p, PG_WRITABLE))
  }

  // It is present, writable, global and 4 MB, and not for user programs.
  lemma KernelEntryBits(p: bv16)
    ensures p < 0x400 ==> KernelEntry(p).bits == ((p as bv32) << 22) | 0x183
  {
    EntryLayout(p, PG_WRITABLE);
    hide Encode;
  }

  // Both maps of the manager have room for the page at page v of the region.
  ghost predicate Mappable(common: Tables, active: Tables, v: nat, p: bv16)
    requires common.Shape() && active.Shape() && v < REGION_PAGES
  {
    && CanAdd(common, VirtIndex(RegionPage(v)), KernelEntry(p))
    && CanAdd(active, VirtIndex(RegionPage(v)), KernelEntry(p))
  }

  // A new page can be had: one of memory, one of the region, and both maps have
  // room for it there.
  ghost predicate PageToHave(phys: Heap.PhysPageManager, virt: VirtualMemRegion, cpu0: MemMapManager)
    requires PagesReady(phys, virt, cpu0)
    reads phys, virt, cpu0, cpu0.Repr()
  {
    && phys.freePhysAddr != [] && Heap.Top(phys.freePhysAddr) in phys.isPhysAddrFree
    && virt.freeVirtAddr != [] && Last(virt.freeVirtAddr) < REGION_PAGES
    && Mappable(cpu0.Common(), cpu0.Active(), Last(virt.freeVirtAddr), Heap.Top(phys.freePhysAddr))
  }

  // Room is where neither map shows anything at that place, nor the page itself
  // anywhere.
  lemma MappableWhereVacant(common: Tables, active: Tables, v: nat, p: bv16)
    requires Inverse(common) && Inverse(active) && v < REGION_PAGES && Heap.IsFreePage(p)
    ensures var at := REGION_START / PAGE_SIZE + v;
            Mappable(common, active, v, p) <==>
              && !Present(common.virt2phys[at]) && !Present(active.virt2phys[at])
              && forall u :: 2 <= u < ENTRIES ==>
                   && (Present(common.virt2phys[u]) ==> PageIndex(common.virt2phys[u]) != p as nat)
                   && (Present(active.virt2phys[u]) ==> PageIndex(active.virt2phys[u]) != p as nat)
  {
    KernelEntryFacts(p);
    KernelEntryPage(p);
    hide KernelEntry;
    hide Present;
    hide PageIndex;
    hide Heap.IsFreePage;
    var at := REGION_START / PAGE_SIZE + v;
    AddsWhereVacant(common, at, KernelEntry(p));
    AddsWhereVacant(active, at, KernelEntry(p));
    hide Inverse;
    hide CanAdd;
  }

  lemma KernelEntryPage(p: bv16)
    requires Heap.IsFreePage(p)
    ensures PageIndex(KernelEntry(p)) == p as nat
  {
    WritableFlags();
    EntryNamesPage(p, PG_WRITABLE);
    GlobalSameIndex(Encode(p, PG_WRITABLE));
    hide Encode;
    hide MarkGlobal;
    hide Present;
    hide PageIndex;
  }

  // A page of the region for page p of memory.  When the mapping is refused the
  // page of the region is not given back.
  method MapPage(p: bv16, virt: VirtualMemRegion, cpu0: MemMapManager) returns (page: Option<nat>, ghost v: nat)
    requires virt.Valid() && cpu0.Valid() && Inverse(cpu0.Common())
    modifies virt, cpu0.commonMemMap.Repr(), cpu0.Loaded().Repr()
    ensures virt.Valid() && cpu0.Valid() && v < REGION_PAGES
    ensures old(virt.freeVirtAddr) != [] ==> v == Last(old(virt.freeVirtAddr))
    ensures if old(virt.freeVirtAddr) == [] then page.None? && virt.isVirtAddrUsed == old(virt.isVirtAddrUsed)
            else v !in old(virt.isVirtAddrUsed) && virt.isVirtAddrUsed == old(virt.isVirtAddrUsed) + {v}
                 && page == if Mappable(old(cpu0.Common()), old(cpu0.Active()), v, p) then Some(RegionPage(v)) else None
    ensures cpu0.Common() == if page.Some? then AddTo(old(cpu0.Common()), VirtIndex(RegionPage(v)), KernelEntry(p))
                             else old(cpu0.Common())
    ensures cpu0.Active() == if page.Some? then AddTo(old(cpu0.Active()), VirtIndex(RegionPage(v)), KernelEntry(p))
                             else old(cpu0.Active())
  {
    hide Encode;
    hide MarkGlobal;
    hide Present;
    hide PageIndex;
    hide Inverse;
    hide CanAdd;
    hide AddTo;
    hide VirtIndex;
    v := if virt.freeVirtAddr == [] then 0 else Last(virt.freeVirtAddr);
    page := virt.AllocPage();
    if page.Some? {
      FlagsOfEncode(p, PG_WRITABLE);
      var mapped := cpu0.AddCommonPage(page.value, Encode(p, PG_WRITABLE));
      if !mapped {
        virt.FreePage(page.value);
        return None, v;
      }
    }
  }

  // Any page will do to ask whether a request would be served.
  function Offer(can: bool): Option<nat> {
    if can then Some(0) else None
  }

  lemma OfferDecides(s: Arena, k: nat, page: Option<nat>, can: bool)
    requires s.Shape() && k < NUM_CLASSES
    requires page.Some? == can || (page.None? && (FindEmpty(s, 0).Some? || s.total == MAX_POOLS))
    requires FirstFree(s.slots[k]) == |s.slots[k]| < MAX_POOLS_IN_SLOT
    ensures Allocate(s, k, page).block.None? <==> Allocate(s, k, Offer(can)).block.None?
  {
    hide Fresh;
    hide Pools.Get;
    hide FirstFree;
    hide FindEmpty;
    hide TakeFromNew;
    hide WithoutPool;
  }

  // A page of memory, a page of the region and the mapping between them, or
  // nothing: a failure gives the memory back.
  method AcquirePage(phys: Heap.PhysPageManager, virt: VirtualMemRegion, cpu0: MemMapManager)
    returns (page: Option<nat>, ghost p: bv16, ghost v: nat)
    requires PagesReady(phys, virt, cpu0)
    modifies phys, virt, cpu0.commonMemMap.Repr(), cpu0.Loaded().Repr()
    ensures PagesReady(phys, virt, cpu0) && v < REGION_PAGES && old(virt.isVirtAddrUsed) <= virt.isVirtAddrUsed
    ensures page.Some? <==> old(PageToHave(phys, virt, cpu0))
    ensures phys.isPhysAddrFree == old(phys.isPhysAddrFree) - if page.Some? then {p} else {}
    ensures page.Some? ==>
              && p in old(phys.isPhysAddrFree) && page.value == RegionPage(v)
              && v !in old(virt.isVirtAddrUsed) && v in virt.isVirtAddrUsed
              && cpu0.Common() == AddTo(old(cpu0.Common()), VirtIndex(page.value), KernelEntry(p))
              && cpu0.Active() == AddTo(old(cpu0.Active()), VirtIndex(page.value), KernelEntry(p))
    ensures page.None? ==> cpu0.Common() == old(cpu0.Common()) && cpu0.Active() == old(cpu0.Active())
    // Exactly a refused mapping costs a page of the region.
    ensures page.None? && p in old(phys.isPhysAddrFree) && old(virt.freeVirtAddr) != [] ==>
              && !Mappable(old(cpu0.Common()), old(cpu0.Active()), v, p)
              && v !in old(virt.isVirtAddrUsed) && virt.isVirtAddrUsed == old(virt.isVirtAddrUsed) + {v}
    ensures page.None? && (p !in old(phys.isPhysAddrFree) || old(virt.freeVirtAddr) == []) ==>
              virt.isVirtAddrUsed == old(virt.isVirtAddrUsed)
    ensures p in old(phys.isPhysAddrFree) <==>
              old(phys.freePhysAddr) != [] && Heap.Top(old(phys.freePhysAddr)) in old(phys.isPhysAddrFree)
  {
    hide Encode;
    hide KernelEntry;
    hide Mappable;
    hide Present;
    hide PageIndex;
    hide Inverse;
    hide AddTo;
    hide VirtIndex;
    hide Heap.IsFreePage;
    p, v := 1, 0;
    NotFree();
    var physAddr := phys.AllocPage();
    if physAddr.None? {
      return None, p, v;
    }
    p := physAddr.value;
    page, v := MapPage(physAddr.value, virt, cpu0);
    if page.None? {
      phys.FreePage(physAddr.value);
    } else {
      KernelEntryFacts(p);
      AddKeepsInverse(old(cpu0.Common()), VirtIndex(RegionPage(v)), KernelEntry(p));
    }
  }

  lemma KernelEntryFacts(p: bv16)
    requires Heap.IsFreePage(p)
    ensures Present(KernelEntry(p)) && PageIndex(KernelEntry(p)) != KERNEL_PAGE
  {
    Heap.KernelNumber();
    WritableFlags();
    EntryNamesPage(p, PG_WRITABLE);
    GlobalSameIndex(Encode(p, PG_WRITABLE));
    hide Encode;
    hide MarkGlobal;
    hide Present;
    hide PageIndex;
    if p as nat == KERNEL_PAGE {
      NumberIsInjective(p, 1);
    }
  }

  lemma WritableFlags()
    ensures PG_WRITABLE & 0xffffe000 == 0
  {
  }

  lemma NotFree()
    ensures !Heap.IsFreePage(1)
  {
  }

  lemma InUse(v: nat, used: set<nat>)
    requires v < REGION_PAGES && v in used
    ensures PageUsed(RegionPage(v), used)
  {
  }

  lemma NewPageIsFresh(s: Arena, used: set<nat>, v: nat)
    requires PagesIn(s, used) && v !in used && v < REGION_PAGES
    ensures !IsPageOf(s, RegionPage(v))
  {
    assert !PageUsed(RegionPage(v), used);
  }

  // Allocation and freeing leave the pools in pages given out.
  lemma AllocateKeepsPages(s: Arena, k: nat, page: Option<nat>, used: set<nat>, used': set<nat>)
    requires s.Shape() && k < NUM_CLASSES && PagesIn(s, used) && used <= used'
    requires page.Some? ==> PageUsed(page.value, used')
    ensures PagesIn(Allocate(s, k, page).arena, used')
  {
    hide Fresh;
    hide Pools.Get;
    hide FirstFree;
    hide FindEmpty;
    hide PageUsed;
    MorePages(s, used, used');
    hide PagesIn;
    var i := FirstFree(s.slots[k]);
    var e := FindEmpty(s, 0);
    if i < |s.slots[k]| {
      GetBase(s.slots[k][i]);
      PageKept(s, k, i, Pools.Get(s.slots[k][i]), used');
    } else if |s.slots[k]| != MAX_POOLS_IN_SLOT {
      if e.Some? {
        PagesWithout(s, e.value.k, e.value.i, used');
        PageTaken(WithoutPool(s, e.value.k, e.value.i), k, s.At(e.value.k, e.value.i).base, used');
      } else if page.Some? {
        PageTaken(s, k, page.value, used');
        PagesAnyTotal(TakeFromNew(s, k, page.value), Incremented(s.total), used');
      }
    }
  }

  lemma MorePages(s: Arena, used: set<nat>, used': set<nat>)
    requires PagesIn(s, used) && used <= used'
    ensures PagesIn(s, used')
  {
    forall k: nat, i: nat | s.Has(k, i) ensures PageUsed(s.At(k, i).base, used') {
      assert PageUsed(s.At(k, i).base, used);
    }
  }

  lemma PagesAnyTotal(s: Arena, n: nat, used: set<nat>)
    requires PagesIn(s, used)
    ensures PagesIn(s.(total := n), used)
  {
    hide PageUsed;
    var t := s.(total := n);
    forall k: nat, i: nat | t.Has(k, i) ensures PageUsed(t.At(k, i).base, used) {
      assert t.At(k, i) == s.At(k, i);
    }
  }

  lemma PageKept(s: Arena, k: nat, i: nat, q: Pool, used: set<nat>)
    requires s.Has(k, i) && PagesIn(s, used) && q.base == s.At(k, i).base
    ensures PagesIn(WithPool(s, k, i, q), used)
  {
    hide PageUsed;
    SamePlaces(s, k, i, q);
    hide WithPool;
    var t := WithPool(s, k, i, q);
    forall l: nat, j: nat | t.Has(l, j) ensures PageUsed(t.At(l, j).base, used) {
      assert PageUsed(s.At(l, j).base, used);
    }
  }

  lemma PagesWithout(s: Arena, k: nat, i: nat, used: set<nat>)
    requires s.Has(k, i) && PagesIn(s, used)
    ensures PagesIn(WithoutPool(s, k, i), used) && PageUsed(s.At(k, i).base, used)
  {
    hide PageUsed;
    DropPlaces(s, k, i);
    hide WithoutPool;
    var t := WithoutPool(s, k, i);
    forall l: nat, j: nat | t.Has(l, j) ensures PageUsed(t.At(l, j).base, used) {
      assert PageUsed(s.At(l, Before(k, i, l, j)).base, used);
    }
  }

  lemma PageTaken(s: Arena, k: nat, base: nat, used: set<nat>)
    requires s.Shape() && k < NUM_CLASSES && PagesIn(s, used) && PageUsed(base, used)
    ensures PagesIn(TakeFromNew(s, k, base), used)
  {
    hide PageUsed;
    hide Fresh;
    hide Pools.Get;
    var p := Fresh(SizeOf(k), base);
    FreshBase(SizeOf(k), base);
    GetBase(p);
    var t := WithNewPool(s, k, base);
    forall l: nat, j: nat | t.Has(l, j) ensures PageUsed(t.At(l, j).base, used) {
      if !(l == k && j == |s.slots[k]|) {
        assert t.At(l, j) == s.At(l, j);
      }
    }
    PageKept(t, k, |s.slots[k]|, Pools.Get(p), used);
  }

  lemma GetBase(p: Pool)
    requires WellSized(p) && p.free != []
    ensures Pools.Get(p).base == p.base
  {
  }

  // The five named slots of the program, by class.  The ghost `view` is what
  // all the pools hold.
  class KMemory {
    var slots: seq<seq<ObjectPool>>
    var totalNumPools: nat
    ghost var view: Arena
    ghost var repr: set<ObjectPool>

    ghost predicate Valid()
      reads this, repr
    {
      && |slots| == |view.slots| == NUM_CLASSES && totalNumPools == view.total && Apart(slots)
      && (forall k: nat, i: nat :: k < NUM_CLASSES && i < |slots[k]| ==> slots[k][i] in repr)
      && (forall k :: 0 <= k < NUM_CLASSES ==> SlotIs(slots[k], k, view.slots[k]))
    }

    lemma ValidShape()
      requires Valid()
      ensures view.Shape()
    {
      hide Values;
      hide Apart;
      forall k: nat, i: nat | view.Has(k, i) ensures WellSized(view.slots[k][i]) {
        assert SlotIs(slots[k], k, view.slots[k]);
      }
    }

    constructor ()
      ensures Valid() && view == Arenas.Empty()
    {
      slots := [[], [], [], [], []];
      totalNumPools := 0;
      view := Arenas.Empty();
      repr := {};
    }

    // Takes an empty pool of one class out of use; its page is the result.
    method ParaFindAndReleaseFreePool(k: nat) returns (page: Option<nat>)
      requires Valid() && k < NUM_CLASSES
      modifies this`slots, this`totalNumPools, this`view
      ensures Valid() && old(view).Shape()
      ensures var s := old(view);
              var i := FirstEmpty(s.slots[k]);
              if i < |s.slots[k]| then page == Some(s.slots[k][i].base) && view == WithoutPool(s, k, i)
              else page.None? && view == s
    {
      hide Values;
      hide FirstEmpty;
      hide IsEmpty;
      hide Apart;
      ValidShape();
      assert SlotIs(slots[k], k, view.slots[k]);
      var i := SearchEmpty(slots[k]);
      if i == |slots[k]| {
        return None;
      }
      page := Some(slots[k][i].base);
      ApartDrop(slots, k, i);
      SlotDrop(slots[k], k, view.slots[k], i);
      slots := slots[k := slots[k][..i] + slots[k][i + 1..]];
      totalNumPools := Decremented(totalNumPools);
      view := WithoutPool(view, k, i);
      forall l | 0 <= l < NUM_CLASSES ensures SlotIs(slots[l], l, view.slots[l]) {
        assert old(SlotIs(slots[l], l, view.slots[l]));
      }
    }

    // A block from the first pool of the class that has one.
    method GetFromSlot(k: nat) returns (block: Option<nat>)
      requires Valid() && k < NUM_CLASSES
      modifies this`view, repr
      ensures Valid() && old(view).Shape()
      ensures var slot := old(view).slots[k];
              var i := FirstFree(slot);
              if i < |slot|
              then block == Some(Last(slot[i].free)) && view == WithPool(old(view), k, i, Pools.Get(slot[i]))
              else block.None? && view == old(view)
    {
      hide Apart;
      hide Values;
      hide FirstFree;
      hide Pools.Get;
      ValidShape();
      ApartInSlot(slots, k);
      assert SlotIs(slots[k], k, view.slots[k]);
      ghost var i := FirstFree(view.slots[k]);
      block := SearchFree(slots[k]);
      if block.Some? {
        view := WithPool(view, k, i, Pools.Get(view.slots[k][i]));
      }
      forall l | 0 <= l < NUM_CLASSES ensures SlotIs(slots[l], l, view.slots[l]) {
        assert old(SlotIs(slots[l], l, view.slots[l]));
      }
    }

    lemma SameLength(k: nat)
      requires Valid() && k < NUM_CLASSES
      ensures |slots[k]| == |view.slots[k]| <= MAX_POOLS_IN_SLOT
    {
      hide Values;
      assert SlotIs(slots[k], k, view.slots[k]);
    }

    // Looks through all classes but the largest.
    method FindAndReleaseFreePool() returns (page: Option<nat>)
      requires Valid()
      modifies this`slots, this`totalNumPools, this`view
      ensures Valid() && old(view).Shape()
      ensures var s := old(view);
              match FindEmpty(s, 0)
              case Some(at) => page == Some(s.At(at.k, at.i).base) && view == WithoutPool(s, at.k, at.i)
              case None => page.None? && view == s
    {
      hide FirstEmpty;
      hide IsEmpty;
      hide Apart;
      hide SlotIs;
      ValidShape();
      FindEmptyCases(view);
      page := ParaFindAndReleaseFreePool(0);
      if page.None? {
        page := ParaFindAndReleaseFreePool(1);
      }
      if page.None? {
        page := ParaFindAndReleaseFreePool(2);
      }
      if page.None? {
        page := ParaFindAndReleaseFreePool(3);
      }
    }

    // Makes a pool of the page and takes its first block.
    method TakeFromPage(k: nat, base: nat) returns (block: Option<nat>)
      requires Valid() && k < NUM_CLASSES && |slots[k]| < MAX_POOLS_IN_SLOT
      modifies this`slots, this`view, this`repr
      ensures Valid() && old(view).Shape() && fresh(repr - old(repr))
      ensures view == TakeFromNew(old(view), k, base) && block == Some(Last(Fresh(SizeOf(k), base).free))
    {
      hide Apart;
      hide SlotIs;
      hide Fresh;
      hide Pools.Get;
      ValidShape();
      FreshBase(SizeOf(k), base);
      var newPool := new ObjectPool(SizeOf(k), base);
      block := newPool.Get();
      assert newPool !in repr;
      ApartPush(slots, k, newPool);
      SlotPush(slots[k], k, view.slots[k], newPool);
      label Pushed:
      slots := slots[k := slots[k] + [newPool]];
      view := TakeFromNew(view, k, base);
      repr := repr + {newPool};
      assert view.slots[k] == old(view).slots[k] + [newPool.Value()];
      forall l | 0 <= l < NUM_CLASSES ensures SlotIs(slots[l], l, view.slots[l]) {
        assert old@Pushed(SlotIs(slots[l], l, view.slots[l]));
      }
    }

    method CountedPool(k: nat, base: nat) returns (block: Option<nat>)
      requires Valid() && k < NUM_CLASSES && |slots[k]| < MAX_POOLS_IN_SLOT
      modifies this
      ensures Valid() && fresh(repr - old(repr)) && old(view).Shape()
      ensures block == Some(Last(Fresh(SizeOf(k), base).free))
      ensures view == TakeFromNew(old(view), k, base).(total := Incremented(old(view).total))
    {
      hide Apart;
      hide SlotIs;
      hide Fresh;
      hide TakeFromNew;
      ValidShape();
      block := TakeFromPage(k, base);
      totalNumPools := Incremented(totalNumPools);
      view := view.(total := Incremented(view.total));
    }

    // A pool made from a new page.
    method GrowSlot(k: nat, phys: Heap.PhysPageManager, virt: VirtualMemRegion, cpu0: MemMapManager)
      returns (block: Option<nat>, ghost page: Option<nat>)
      requires Valid() && k < NUM_CLASSES && |slots[k]| < MAX_POOLS_IN_SLOT
      requires PagesReady(phys, virt, cpu0) && PagesIn(view, virt.isVirtAddrUsed)
      requires repr !! cpu0.Repr()
      modifies this, phys, virt, cpu0.commonMemMap.Repr(), cpu0.Loaded().Repr()
      ensures Valid() && PagesReady(phys, virt, cpu0) && fresh(repr - old(repr)) && old(view).Shape()
      ensures old(virt.isVirtAddrUsed) <= virt.isVirtAddrUsed
      ensures page.Some? <==> old(PageToHave(phys, virt, cpu0))
      ensures page.Some? ==>
                && page.value % POOL_SIZE == 0 && !IsPageOf(old(view), page.value)
                && PageUsed(page.value, virt.isVirtAddrUsed)
                && block == Some(Last(Fresh(SizeOf(k), page.value).free))
                && view == TakeFromNew(old(view), k, page.value).(total := Incremented(old(view).total))
      ensures page.None? ==>
                && block.None? && view == old(view) && phys.isPhysAddrFree == old(phys.isPhysAddrFree)
                && cpu0.Common() == old(cpu0.Common()) && cpu0.Active() == old(cpu0.Active())
    {
      hide Apart;
      hide SlotIs;
      hide Fresh;
      hide Inverse;
      hide AddTo;
      hide KernelEntry;
      hide Mappable;
      hide PagesIn;
      hide PageUsed;
      hide VirtIndex;
      hide Heap.IsFreePage;
      hide TakeFromNew;
      hide Pools.Get;
      hide Incremented;
      hide IsPageOf;
      hide Distinct;
      ValidShape();
      ghost var used := virt.isVirtAddrUsed;
      var newPage, p, v := AcquirePage(phys, virt, cpu0);
      if newPage.None? {
        return None, None;
      }
      page := newPage;
      NewPageIsFresh(view, used, v);
      InUse(v, virt.isVirtAddrUsed);
      block := CountedPool(k, newPage.value);
    }

    // A block of a pool made from a recycled page, or else from a new one, for a
    // class that has no block left.
    method MakePool(k: nat, phys: Heap.PhysPageManager, virt: VirtualMemRegion, cpu0: MemMapManager)
      returns (block: Option<nat>, ghost page: Option<nat>)
      requires Valid() && k < NUM_CLASSES && |slots[k]| < MAX_POOLS_IN_SLOT && view.Shape()
      requires FirstFree(view.slots[k]) == |view.slots[k]|
      requires PagesReady(phys, virt, cpu0) && PagesIn(view, virt.isVirtAddrUsed)
      requires repr !! cpu0.Repr()
      modifies this, phys, virt, cpu0.commonMemMap.Repr(), cpu0.Loaded().Repr()
      ensures Valid() && PagesReady(phys, virt, cpu0) && fresh(repr - old(repr)) && old(view).Shape()
      ensures old(virt.isVirtAddrUsed) <= virt.isVirtAddrUsed
      ensures page.Some? ==> page.value % POOL_SIZE == 0 && !IsPageOf(old(view), page.value)
                             && PageUsed(page.value, virt.isVirtAddrUsed)
      ensures Outcome(view, block) == Allocate(old(view), k, page)
      ensures block.None? <==> Allocate(old(view), k, Offer(old(PageToHave(phys, virt, cpu0)))).block.None?
      ensures block.None? ==> phys.isPhysAddrFree == old(phys.isPhysAddrFree)
                              && cpu0.Common() == old(cpu0.Common()) && cpu0.Active() == old(cpu0.Active())
    {
      hide Apart;
      hide SlotIs;
      hide Fresh;
      hide Values;
      hide FirstFree;
      hide IsEmpty;
      hide FindEmpty;
      hide Pools.Get;
      hide PagesReady;
      hide PagesIn;
      hide PageUsed;
      hide IsPageOf;
      hide TakeFromNew;
      hide PageToHave;
      ghost var s, can := view, PageToHave(phys, virt, cpu0);
      page := None;
      SameLength(k);
      var base := FindAndReleaseFreePool();
      SameLength(k);
      if base.Some? {
        block := TakeFromPage(k, base.value);
      } else if totalNumPools != MAX_POOLS {
        block, page := GrowSlot(k, phys, virt, cpu0);
      } else {
        block := None;
      }
      OfferDecides(s, k, page, can);
    }

    // Hands out a block of the class, from a pool that has one, a pool made
    // from a recycled page, or a pool made from a new page.
    method ParaAllocate(k: nat, phys: Heap.PhysPageManager, virt: VirtualMemRegion, cpu0: MemMapManager)
      returns (block: Option<nat>, ghost page: Option<nat>)
      requires Valid() && k < NUM_CLASSES && PagesReady(phys, virt, cpu0) && PagesIn(view, virt.isVirtAddrUsed)
      requires repr !! cpu0.Repr()
      modifies this, repr, phys, virt, cpu0.commonMemMap.Repr(), cpu0.Loaded().Repr()
      ensures Valid() && PagesReady(phys, virt, cpu0) && fresh(repr - old(repr)) && old(view).Shape()
      ensures page.Some? ==> page.value % POOL_SIZE == 0 && !IsPageOf(old(view), page.value)
      ensures Outcome(view, block) == Allocate(old(view), k, page) && PagesIn(view, virt.isVirtAddrUsed)
      ensures block.None? <==> Allocate(old(view), k, Offer(old(PageToHave(phys, virt, cpu0)))).block.None?
      ensures block.None? ==> phys.isPhysAddrFree == old(phys.isPhysAddrFree)
                              && cpu0.Common() == old(cpu0.Common()) && cpu0.Active() == old(cpu0.Active())
    {
      hide Apart;
      hide SlotIs;
      hide Fresh;
      hide Values;
      hide FirstFree;
      hide IsEmpty;
      hide FindEmpty;
      hide Pools.Get;
      hide PagesReady;
      hide PagesIn;
      hide PageUsed;
      hide IsPageOf;
      hide TakeFromNew;
      hide WithPool;
      hide WithoutPool;
      hide PageToHave;
      page := None;
      ValidShape();
      SameLength(k);
      ghost var s, used := view, virt.isVirtAddrUsed;
      block := GetFromSlot(k);
      if block.None? && |slots[k]| != MAX_POOLS_IN_SLOT {
        block, page := MakePool(k, phys, virt, cpu0);
      }
      AllocateKeepsPages(s, k, page, used, virt.isVirtAddrUsed);
    }

    // Gives the block back to the first pool of the class that accepts it.
    method ParaFree(k: nat, addr: nat) returns (ok: bool)
      requires Valid() && k < NUM_CLASSES
      modifies this`view, repr
      ensures Valid() && old(view).Shape() && Freed(view, ok) == FreeIn(old(view), k, addr)
    {
      hide Apart;
      hide Values;
      hide FirstReleasing;
      hide Pools.Release;
      ValidShape();
      ApartInSlot(slots, k);
      assert SlotIs(slots[k], k, view.slots[k]);
      ghost var i := FirstReleasing(view.slots[k], addr);
      ok := SearchOwner(slots[k], addr);
      if ok {
        view := WithPool(view, k, i, Pools.Release(view.slots[k][i], addr));
      }
      forall l | 0 <= l < NUM_CLASSES ensures SlotIs(slots[l], l, view.slots[l]) {
        assert old(SlotIs(slots[l], l, view.slots[l]));
      }
    }

    // operator new: a block that nobody has, or none and nothing changed.
    method AllocImpl(size: nat, phys: Heap.PhysPageManager, virt: VirtualMemRegion, cpu0: MemMapManager)
      returns (block: Option<nat>)
      requires Valid() && PagesReady(phys, virt, cpu0) && PagesIn(view, virt.isVirtAddrUsed)
      requires repr !! cpu0.Repr()
      modifies this, repr, phys, virt, cpu0.commonMemMap.Repr(), cpu0.Loaded().Repr()
      ensures Valid() && PagesReady(phys, virt, cpu0) && fresh(repr - old(repr)) && PagesIn(view, virt.isVirtAddrUsed)
      ensures size > 0x10_0000 ==> block.None?
      // Up to a megabyte, it fails exactly when there is no room.
      ensures old(view).Shape()
      ensures forall live :: ArenaOk(old(view), live) && size <= 0x10_0000 ==>
                (block.None? <==> NoRoom(old(view), live, ClassOf(size), Offer(old(PageToHave(phys, virt, cpu0)))))
      ensures forall live :: ArenaOk(old(view), live) ==>
                match block
                case Some(a) => a !in live && ArenaOk(view, live[a := size])
                case None => view == old(view)
      ensures block.None? ==> phys.isPhysAddrFree == old(phys.isPhysAddrFree)
                              && cpu0.Common() == old(cpu0.Common()) && cpu0.Active() == old(cpu0.Active())
    {
      hide ArenaOk;
      hide Inverse;
      hide PagesIn;
      hide Allocate;
      hide Valid;
      hide IsPageOf;
      hide PageToHave;
      hide NoRoom;
      hide PagesReady;
      ValidShape();
      ghost var offer := Offer(PageToHave(phys, virt, cpu0));
      var k := ClassOf(size);
      if k == NUM_CLASSES {
        return None;
      }
      ghost var page;
      block, page := ParaAllocate(k, phys, virt, cpu0);
      forall live | ArenaOk(old(view), live)
        ensures match block
                case Some(a) => a !in live && ArenaOk(view, live[a := size])
                case None => view == old(view)
        ensures block.None? <==> NoRoom(old(view), live, k, offer)
      {
        AllocateKeepsOk(old(view), live, size, page);
        AllocateFails(old(view), live, k, offer);
      }
    }

    // operator delete without a size; false stands for the exception.
    method FreeImpl(addr: nat) returns (ok: bool)
      requires Valid()
      modifies this`view, repr
      ensures Valid() && old(view).Shape() && Freed(view, ok) == Free(old(view), 0, addr)
      ensures forall live :: ArenaOk(old(view), live) && addr in live ==> ok && ArenaOk(view, live - {addr})
    {
      hide ArenaOk;
      hide FreeIn;
      hide SlotIs;
      hide Apart;
      ValidShape();
      FreeCases(view, addr);
      ok := ParaFree(0, addr);
      if !ok {
        ok := ParaFree(1, addr);
      }
      if !ok {
        ok := ParaFree(2, addr);
      }
      if !ok {
        ok := ParaFree(3, addr);
      }
      if !ok {
        ok := ParaFree(4, addr);
      }
      forall live | ArenaOk(old(view), live) && addr in live ensures ok && ArenaOk(view, live - {addr}) {
        var k, i := OwnerOf(old(view), live, addr);
        FreeReturnsToOwner(old(view), live, addr, k, i);
      }
    }

    // operator delete with the size asked for.
    method FreeImplSized(addr: nat, size: nat) returns (ok: bool)
      requires Valid()
      modifies this`view, repr
      ensures Valid() && old(view).Shape() && Freed(view, ok) == FreeSized(old(view), addr, size)
      ensures forall live :: ArenaOk(old(view), live) && addr in live && live[addr] == size ==>
                               ok && ArenaOk(view, live - {addr})
    {
      hide ArenaOk;
      hide FreeIn;
      hide SlotIs;
      hide Apart;
      ValidShape();
      ok := false;
      if ClassOf(size) < NUM_CLASSES {
        ok := ParaFree(ClassOf(size), addr);
      }
      forall live | ArenaOk(old(view), live) && addr in live && live[addr] == size
        ensures ok && ArenaOk(view, live - {addr})
      {
        var k, i := OwnerOf(old(view), live, addr);
        FreeReturnsToOwner(old(view), live, addr, k, i);
      }
    }
  }

  lemma FreeCases(s: Arena, a: nat)
    requires s.Shape()
    ensures var b, c, d, e := FreeIn(s, 0, a), FreeIn(s, 1, a), FreeIn(s, 2, a), FreeIn(s, 3, a);
            Free(s, 0, a) ==
            if b.ok then b else if c.ok then c else if d.ok then d else if e.ok then e else FreeIn(s, 4, a)
    ensures forall k :: 0 <= k < NUM_CLASSES && !FreeIn(s, k, a).ok ==> FreeIn(s, k, a).arena == s
  {
    hide FirstReleasing;
    assert Free(s, 5, a) == Freed(s, false);
    assert Free(s, 4, a) == FreeIn(s, 4, a);
    assert Free(s, 3, a) == if FreeIn(s, 3, a).ok then FreeIn(s, 3, a) else Free(s, 4, a);
    assert Free(s, 2, a) == if FreeIn(s, 2, a).ok then FreeIn(s, 2, a) else Free(s, 3, a);
    assert Free(s, 1, a) == if FreeIn(s, 1, a).ok then FreeIn(s, 1, a) else Free(s, 2, a);
  }

  lemma FindEmptyCases(s: Arena)
    requires s.Shape()
    ensures var a, b := FirstEmpty(s.slots[0]), FirstEmpty(s.slots[1]);
            var c, d := FirstEmpty(s.slots[2]), FirstEmpty(s.slots[3]);
            FindEmpty(s, 0) ==
            if a < |s.slots[0]| then Some(Place(0, a))
            else if b < |s.slots[1]| then Some(Place(1, b))
            else if c < |s.slots[2]| then Some(Place(2, c))
            else if d < |s.slots[3]| then Some(Place(3, d))
            else None
  {
    hide FirstEmpty;
    assert FindEmpty(s, 2) ==
           if FirstEmpty(s.slots[2]) < |s.slots[2]| then Some(Place(2, FirstEmpty(s.slots[2]))) else FindEmpty(s, 3);
    assert FindEmpty(s, 1) ==
           if FirstEmpty(s.slots[1]) < |s.slots[1]| then Some(Place(1, FirstEmpty(s.slots[1]))) else FindEmpty(s, 2);
  }
}
