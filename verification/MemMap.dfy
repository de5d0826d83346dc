// The classes of klibs/palloc.cpp that keep page maps, each proved against the
// values of PageMap and ProcessMap.
module MemMaps {
  import opened Common
  import opened PhysAddr
  import opened PageMap
  import opened ProcessMap

  const ADDRESS_SPACE: nat := 0x1_0000_0000

  type Address = a: nat | a < ADDRESS_SPACE

  function VirtIndex(a: Address): (v: nat)
    ensures v < ENTRIES
  {
    a / PAGE_SIZE
  }

  class MemMap {
    const phys2virt: array<nat>
    const virt2phys: array<Pde>

    ghost function Repr(): set<object> {
      {phys2virt, virt2phys}
    }

    ghost function Contents(): Tables
      reads Repr()
    {
      Tables(phys2virt[..], virt2phys[..])
    }

    ghost predicate Valid()
      reads Repr()
    {
      phys2virt as object != virt2phys && Contents().Shape()
    }

    constructor ()
      ensures Valid() && fresh(Repr()) && Contents() == Empty()
    {
      phys2virt := new nat[PAGES](i => if i == KERNEL_PAGE then 1 else 0);
      virt2phys := new Pde[ENTRIES](i => if i == 1 then Encode(1, PG_GLOBAL) else NO_PAGE);
    }

    method ResetVPage0And1()
      requires Valid()
      modifies Repr()
      ensures Valid() && Contents() == ResetPages0And1(old(Contents()))
    {
      hide Encode;
      virt2phys[0] := NO_PAGE;
      phys2virt[KERNEL_PAGE] := 1;
      virt2phys[1] := Encode(1, PG_GLOBAL);
    }

    method Clear()
      requires Valid()
      modifies Repr()
      ensures Valid() && Contents() == Empty()
    {
      hide Encode;
      for i := 0 to PAGES
        invariant forall k :: 0 <= k < i ==> phys2virt[k] == 0
      {
        phys2virt[i] := 0;
      }
      for i := 0 to ENTRIES
        invariant forall k :: 0 <= k < PAGES ==> phys2virt[k] == 0
        invariant forall k :: 0 <= k < i ==> virt2phys[k] == NO_PAGE
      {
        virt2phys[i] := NO_PAGE;
      }
      ResetVPage0And1();
    }

    method TranslatePhys(p: Pde) returns (a: Address)
      requires Valid()
      ensures a == Contents().phys2virt[PageIndex(p)] * PAGE_SIZE
    {
      hide PageIndex;
      a := phys2virt[PageIndex(p)] * PAGE_SIZE;
    }

    method TranslateVirt(a: Address) returns (p: Pde)
      requires Valid()
      ensures p == Contents().virt2phys[VirtIndex(a)]
    {
      p := virt2phys[VirtIndex(a)];
    }

    method Add(virt: Address, p: Pde) returns (ok: bool)
      requires Valid()
      modifies Repr()
      ensures Valid()
      ensures ok == CanAdd(old(Contents()), VirtIndex(virt), p)
      ensures Contents() == AddTo(old(Contents()), VirtIndex(virt), p)
    {
      hide PageIndex;
      hide Present;
      var vidx := VirtIndex(virt);
      if PageIndex(p) != 1 && (Present(virt2phys[vidx]) || phys2virt[PageIndex(p)] != 0) {
        return false;
      }
      if vidx == 0 || vidx == 1 {
        return false;
      }
      if PageIndex(p) != 1 {
        phys2virt[PageIndex(p)] := vidx;
      }
      virt2phys[vidx] := p;
      ok := true;
    }

    method SubVirt(virt: Address) returns (ok: bool)
      requires Valid()
      modifies Repr()
      ensures Valid()
      ensures ok == CanRemoveVirt(old(Contents()), VirtIndex(virt))
      ensures Contents() == RemoveVirt(old(Contents()), VirtIndex(virt))
    {
      hide PageIndex;
      hide Present;
      var vidx := VirtIndex(virt);
      if !Present(virt2phys[vidx]) {
        return false;
      }
      var pidx := PageIndex(virt2phys[vidx]);
      if vidx == 0 || vidx == 1 {
        return false;
      }
      virt2phys[vidx] := NO_PAGE;
      phys2virt[pidx] := 0;
      ok := true;
    }

    method SubPhys(p: Pde) returns (ok: bool)
      requires Valid()
      modifies Repr()
      ensures Valid()
      ensures ok == CanRemovePhys(old(Contents()), PageIndex(p))
      ensures Contents() == RemovePhys(old(Contents()), PageIndex(p))
    {
      hide PageIndex;
      hide Present;
      var pidx := PageIndex(p);
      if phys2virt[pidx] == 0 {
        return false;
      }
      var vidx := phys2virt[pidx];
      if vidx == 0 || vidx == 1 {
        return false;
      }
      virt2phys[vidx] := NO_PAGE;
      phys2virt[pidx] := 0;
      ok := true;
    }

    // All or nothing: nothing is copied when a virtual page is in both.
    method AddMap(that: MemMap) returns (ok: bool)
      requires Valid() && that.Valid() && Repr() !! that.Repr()
      modifies Repr()
      ensures Valid() && that.Contents() == old(that.Contents())
      ensures ok == !VirtOverlap(old(Contents()), that.Contents())
      ensures Contents() == Merge(old(Contents()), that.Contents())
    {
      hide PageIndex;
      hide Present;
      var i := 2;
      while i < ENTRIES
        invariant 2 <= i <= ENTRIES
        invariant forall v :: 2 <= v < i ==> !(Present(virt2phys[v]) && Present(that.virt2phys[v]))
      {
        if Present(virt2phys[i]) && Present(that.virt2phys[i]) {
          assert Contents().Maps(i) && that.Contents().Maps(i);
          return false;
        }
        i := i + 1;
      }
      ghost var m, n := Contents(), that.Contents();
      assert !VirtOverlap(m, n);
      CopyEntries(that);
      ok := true;
    }

    method CopyEntries(that: MemMap)
      requires Valid() && that.Valid() && Repr() !! that.Repr()
      modifies Repr()
      ensures Valid() && that.Contents() == old(that.Contents())
      ensures Contents() == MergeUpTo(old(Contents()), that.Contents(), ENTRIES)
    {
      hide PageIndex;
      hide Present;
      ghost var m, n := Contents(), that.Contents();
      var i := 2;
      while i < ENTRIES
        invariant 2 <= i <= ENTRIES
        invariant Valid() && that.Contents() == n
        invariant Contents() == MergeUpTo(m, n, i)
      {
        if Present(that.virt2phys[i]) {
          var pidx := PageIndex(that.virt2phys[i]);
          virt2phys[i] := that.virt2phys[i];
          phys2virt[pidx] := that.phys2virt[pidx];
        }
        i := i + 1;
      }
    }
  }

  const MAX_MAPPINGS: nat := 1024

  // The numbers below n, to bound how many virtual pages can be in use.
  function Below(n: nat): (s: set<nat>)
    ensures forall x: nat :: x in s <==> x < n
  {
    if n == 0 then {} else Below(n - 1) + {n - 1}
  }

  lemma {:induction false} BelowSize(n: nat)
    ensures |Below(n)| == n
  {
    if n > 0 {
      BelowSize(n - 1);
    }
  }

  lemma RoomForOneMore(used: set<nat>, v: nat)
    requires (forall u :: u in used ==> u < ENTRIES) && v !in used && v < ENTRIES
    ensures |used| < MAX_MAPPINGS
  {
    hide Below;
    BelowSize(ENTRIES);
    assert used + {v} <= Below(ENTRIES);
    SubsetSize(used + {v}, Below(ENTRIES));
  }

  // The index of the first mapping of a page; the length when there is none.
  function FirstOf(stack: seq<Mapping>, p: Pde): (i: nat)
    ensures i <= |stack|
    ensures i < |stack| ==> SamePage(stack[i].phys, p)
    ensures forall k :: 0 <= k < i ==> !SamePage(stack[k].phys, p)
  {
    if stack == [] || SamePage(stack[0].phys, p) then 0 else 1 + FirstOf(stack[1..], p)
  }

  function Dropped(stack: seq<Mapping>, i: nat): seq<Mapping> {
    if i < |stack| then stack[..i] + stack[i + 1..] else stack
  }

  // Each virtual page in use has its entry on the stack, and no other.
  ghost predicate TinyOk(stack: seq<Mapping>, used: set<nat>) {
    && (forall v :: v in used ==> v < ENTRIES && exists i :: 0 <= i < |stack| && stack[i].virt == v)
    && (forall i :: 0 <= i < |stack| ==> stack[i].virt in used)
    && (forall i, j :: 0 <= i < j < |stack| ==> stack[i].virt != stack[j].virt)
    && |used| == |stack|
  }

  lemma TinyPush(stack: seq<Mapping>, used: set<nat>, m: Mapping)
    requires TinyOk(stack, used) && m.virt !in used
    ensures TinyOk(stack + [m], used + {m.virt})
  {
    var s := stack + [m];
    forall v | v in used + {m.virt} ensures v < ENTRIES && exists i :: 0 <= i < |s| && s[i].virt == v {
      if v == m.virt {
        assert s[|stack|].virt == v;
      } else {
        var i :| 0 <= i < |stack| && stack[i].virt == v;
        assert s[i].virt == v;
      }
    }
  }

  lemma TinyPop(stack: seq<Mapping>, used: set<nat>, m: Mapping)
    requires TinyOk(stack + [m], used)
    ensures TinyOk(stack, used - {m.virt}) && m.virt in used
  {
    var s := stack + [m];
    assert s[|stack|] == m;
    assert forall i :: 0 <= i < |stack| ==> s[i] == stack[i];
    forall v | v in used - {m.virt} ensures exists i :: 0 <= i < |stack| && stack[i].virt == v {
      var i :| 0 <= i < |s| && s[i].virt == v;
      assert stack[i].virt == v;
    }
  }

  class TinyMemMap {
    var pdStack: seq<Mapping>
    var isVirtAddrUsed: set<nat>

    ghost predicate Valid()
      reads this
    {
      TinyOk(pdStack, isVirtAddrUsed)
    }

    constructor ()
      ensures Valid() && pdStack == []
    {
      pdStack := [];
      isVirtAddrUsed := {};
    }

    method Add(virt: Address, p: Pde) returns (ok: bool)
      requires Valid()
      modifies this
      ensures Valid()
      ensures ok == (VirtIndex(virt) !in old(isVirtAddrUsed))
      ensures pdStack == old(pdStack) + if ok then [Mapping(p, VirtIndex(virt))] else []
      ensures isVirtAddrUsed == old(isVirtAddrUsed) + {VirtIndex(virt)}
    {
      var idx := VirtIndex(virt);
      if idx in isVirtAddrUsed {
        return false;
      }
      assert forall u :: u in isVirtAddrUsed ==> u < ENTRIES;
      RoomForOneMore(isVirtAddrUsed, idx);
      TinyPush(pdStack, isVirtAddrUsed, Mapping(p, idx));
      hide TinyOk;
      isVirtAddrUsed := isVirtAddrUsed + {idx};
      // A full stack would drop the mapping; the bitmap keeps it from filling.
      if |pdStack| < MAX_MAPPINGS {
        pdStack := pdStack + [Mapping(p, idx)];
      }
      ok := true;
    }

    // The first mapping of the page goes, whichever virtual page it is for.
    method Remove(virt: Address, p: Pde) returns (ok: bool)
      requires Valid()
      modifies this
      ensures var s, v := old(pdStack), VirtIndex(virt);
              && ok == (v in old(isVirtAddrUsed) && FirstOf(s, p) < |s|)
              && isVirtAddrUsed == old(isVirtAddrUsed) - {v}
              && pdStack == if v in old(isVirtAddrUsed) then Dropped(s, FirstOf(s, p)) else s
    {
      hide SamePage;
      hide TinyOk;
      hide FirstOf;
      var idx := VirtIndex(virt);
      if idx !in isVirtAddrUsed {
        return false;
      }
      isVirtAddrUsed := isVirtAddrUsed - {idx};
      var i := 0;
      while i < |pdStack| && !SamePage(pdStack[i].phys, p)
        invariant 0 <= i <= |pdStack|
        invariant forall k :: 0 <= k < i ==> !SamePage(pdStack[k].phys, p)
      {
        i := i + 1;
      }
      ok := i < |pdStack|;
      if ok {
        pdStack := pdStack[..i] + pdStack[i + 1..];
      }
    }
  }

  // Removing by virtual address right after adding gives the map back.
  lemma AddThenRemove(c: Tables, a: Tables, v: nat, p: Pde)
    requires Inverse(c) && a.Shape() && v < ENTRIES && Present(p)
    requires CanAdd(c, v, p) && !CanAdd(a, v, p)
    ensures CanRemoveVirt(AddTo(c, v, p), v) && RemoveVirt(AddTo(c, v, p), v) == c
  {
    hide PageIndex;
    hide Present;
    assert VirtOk(c, v);
    var r := RemoveVirt(AddTo(c, v, p), v);
    assert r.virt2phys == c.virt2phys;
    assert r.phys2virt == c.phys2virt;
  }

  // What delCommonPage does to the common map when the active map has no such
  // page: the mapping goes, and the place is given the entry `phys`.
  function RolledBack(c: Tables, v: nat, phys: Pde): (r: Tables)
    requires c.Shape() && v < ENTRIES
    ensures r.Shape()
  {
    AddTo(RemoveVirt(c, v), v, phys)
  }

  // ----- The map manager as a state machine -----

  // The common map, the map the CPU uses, and whether the manager has started.
  datatype Maps = Maps(common: Tables, active: Tables, started: bool)

  datatype MapEvent =
    | StartUp
    | AddCommon(virt: VirtNo, page: Pde)
    | DelVirt(virt: VirtNo)
    | DelPhys(page: Pde)
    | Load(stack: seq<Mapping>)

  // One call of the manager.
  ghost function MapStep(s: Maps, e: MapEvent): (s': Maps)
    requires s.common.Shape() && s.active.Shape()
    ensures s'.common.Shape() && s'.active.Shape()
  {
    match e
    case StartUp => Maps(s.common, ResetPages0And1(s.active), true)
    case AddCommon(v, page) =>
      var p := MarkGlobal(page);
      if CanAdd(s.common, v, p) && CanAdd(s.active, v, p)
      then Maps(AddTo(s.common, v, p), AddTo(s.active, v, p), s.started) else s
    case DelVirt(v) => Deleted(s, v, s.common.virt2phys[v])
    case DelPhys(page) => Deleted(s, s.common.phys2virt[PageIndex(page)], page)
    case Load(stack) =>
      if !s.started || Conflicts(s.common, stack) then s else s.(active := ProcessMap.Loaded(s.common, stack))
  }

  ghost function Deleted(s: Maps, v: VirtNo, phys: Pde): (s': Maps)
    requires s.common.Shape() && s.active.Shape()
    ensures s'.common.Shape() && s'.active.Shape()
  {
    if !CanRemoveVirt(s.common, v) then s
    else if CanRemoveVirt(s.active, v) then Maps(RemoveVirt(s.common, v), RemoveVirt(s.active, v), s.started)
    else s.(common := RolledBack(s.common, v, phys))
  }

  lemma NoneShownLoads(common: Tables, stack: seq<Mapping>)
    requires common.Shape()
    ensures NoneShown(common, stack) ==> !Conflicts(common, stack)
  {
    if NoneShown(common, stack) {
      OrdinaryLoad(common, stack);
    }
  }

  class MemMapManager {
    const spare0: MemMap
    const spare1: MemMap
    const commonMemMap: MemMap
    var loadedMap: nat
    var bIsStarted: bool

    ghost function Repr(): set<object> {
      spare0.Repr() + spare1.Repr() + commonMemMap.Repr()
    }

    ghost predicate Valid()
      reads this, Repr()
    {
      && spare0.Valid() && spare1.Valid() && commonMemMap.Valid()
      && spare0.Repr() !! spare1.Repr() !! commonMemMap.Repr()
      && this !in Repr()
      && loadedMap <= 1
    }

    function Loaded(): MemMap
      reads this
    {
      if loadedMap == 0 then spare0 else spare1
    }

    function NotLoaded(): MemMap
      reads this
    {
      if loadedMap == 0 then spare1 else spare0
    }

    ghost function Active(): Tables
      reads this, Repr()
    {
      Loaded().Contents()
    }

    ghost function Common(): Tables
      reads this, Repr()
    {
      commonMemMap.Contents()
    }

    ghost function View(): (s: Maps)
      requires Valid()
      reads this, Repr()
      ensures s.common.Shape() && s.active.Shape()
    {
      Maps(Common(), Active(), bIsStarted)
    }

    constructor ()
      ensures Valid() && fresh(Repr()) && !bIsStarted
      ensures Active() == Common() == Empty()
    {
      spare0 := new MemMap();
      spare1 := new MemMap();
      commonMemMap := new MemMap();
      loadedMap := 0;
      bIsStarted := false;
    }

    // The manager takes over from the static page directory.
    method Start()
      requires Valid()
      modifies this`bIsStarted, Loaded().Repr()
      ensures Valid() && bIsStarted
      ensures Common() == old(Common()) && Active() == ResetPages0And1(old(Active()))
      ensures View() == MapStep(old(View()), MapEvent.StartUp)
    {
      hide Encode;
      Loaded().ResetVPage0And1();
      bIsStarted := true;
    }

    // Looking up the active map.
    method TranslateVirt(virt: Address) returns (p: Pde)
      requires Valid()
      ensures p == Active().virt2phys[VirtIndex(virt)]
    {
      p := Loaded().TranslateVirt(virt);
    }

    // Both maps take the page, or neither changes.
    method AddCommonPage(virt: Address, phys: Pde) returns (ok: bool)
      requires Valid() && Inverse(Common()) && Present(phys)
      modifies commonMemMap.Repr(), Loaded().Repr()
      ensures Valid()
      ensures var v, p := VirtIndex(virt), MarkGlobal(phys);
              && ok == (CanAdd(old(Common()), v, p) && CanAdd(old(Active()), v, p))
              && Common() == (if ok then AddTo(old(Common()), v, p) else old(Common()))
              && Active() == (if ok then AddTo(old(Active()), v, p) else old(Active()))
      ensures View() == MapStep(old(View()), MapEvent.AddCommon(VirtIndex(virt), phys))
    {
      GlobalSameIndex(phys);
      hide Present;
      hide PageIndex;
      hide MarkGlobal;
      hide Inverse;
      var p := MarkGlobal(phys);
      ok := commonMemMap.Add(virt, p);
      if !ok {
        return false;
      }
      ok := Loaded().Add(virt, p);
      if !ok {
        AddThenRemove(old(Common()), old(Active()), VirtIndex(virt), p);
        var _ := commonMemMap.SubVirt(virt);
        return false;
      }
    }

    method DelCommonPage(virt: Address) returns (ok: bool)
      requires Valid()
      modifies commonMemMap.Repr(), Loaded().Repr()
      ensures Valid()
      ensures var v, c, a := VirtIndex(virt), old(Common()), old(Active());
              && ok == (CanRemoveVirt(c, v) && CanRemoveVirt(a, v))
              && Common() == (if ok then RemoveVirt(c, v)
                              else if CanRemoveVirt(c, v) then RolledBack(c, v, c.virt2phys[v]) else c)
              && Active() == (if ok then RemoveVirt(a, v) else a)
      ensures View() == MapStep(old(View()), MapEvent.DelVirt(VirtIndex(virt)))
    {
      hide Present;
      hide PageIndex;
      var phys := commonMemMap.TranslateVirt(virt);
      ok := commonMemMap.SubVirt(virt);
      if !ok {
        return false;
      }
      ok := Loaded().SubVirt(virt);
      if !ok {
        var _ := commonMemMap.Add(virt, phys);
        return false;
      }
    }

    method DelCommonPageByPhys(phys: Pde) returns (ok: bool)
      requires Valid()
      modifies commonMemMap.Repr(), Loaded().Repr()
      ensures Valid()
      ensures var v, c, a := old(Common()).phys2virt[PageIndex(phys)], old(Common()), old(Active());
              && ok == (CanRemoveVirt(c, v) && CanRemoveVirt(a, v))
              && Common() == (if ok then RemoveVirt(c, v)
                              else if CanRemoveVirt(c, v) then RolledBack(c, v, phys) else c)
              && Active() == (if ok then RemoveVirt(a, v) else a)
      ensures View() == MapStep(old(View()), MapEvent.DelPhys(phys))
    {
      hide Present;
      hide PageIndex;
      var virt := commonMemMap.TranslatePhys(phys);
      ok := commonMemMap.SubVirt(virt);
      if !ok {
        return false;
      }
      ok := Loaded().SubVirt(virt);
      if !ok {
        var _ := commonMemMap.Add(virt, phys);
        return false;
      }
    }

    // The other map is filled and becomes the active one, or nothing changes.
    method LoadProcessMap(map': TinyMemMap) returns (ok: bool)
      requires Valid() && map'.Valid() && map' !in Repr() && map' as object != this
      modifies this`loadedMap, NotLoaded().Repr()
      ensures Valid() && map'.pdStack == old(map'.pdStack) && map'.isVirtAddrUsed == old(map'.isVirtAddrUsed)
      ensures ok == (bIsStarted && !Conflicts(old(Common()), map'.pdStack))
      ensures bIsStarted && NoneShown(old(Common()), map'.pdStack) ==> ok
      ensures Common() == old(Common())
      ensures Active() == (if ok then ProcessMap.Loaded(Common(), map'.pdStack) else old(Active()))
      ensures View() == MapStep(old(View()), MapEvent.Load(map'.pdStack))
    {
      hide Present;
      hide PageIndex;
      hide SamePage;
      hide Encode;
      hide Conflicts;
      hide ProcessMap.Loaded;
      if !bIsStarted {
        return false;
      }
      NoneShownLoads(Common(), map'.pdStack);
      hide NoneShown;
      NotLoaded().Clear();
      var conflict := FindConflict(map');
      if conflict {
        return false;
      }
      FillOther(map');
      loadedMap := 1 - loadedMap;
      ok := true;
    }

    // The mappings of the process, then the common ones; whether the merge
    // took is not looked at.
    method FillOther(map': TinyMemMap)
      requires Valid() && map'.Valid() && map' !in Repr()
      requires NotLoaded().Contents() == Empty()
      modifies NotLoaded().Repr()
      ensures Valid() && NotLoaded().Contents() == ProcessMap.Loaded(Common(), map'.pdStack)
    {
      hide Present;
      hide PageIndex;
      hide SamePage;
      hide Encode;
      AddMappings(map');
      var _ := NotLoaded().AddMap(commonMemMap);
      NotLoaded().ResetVPage0And1();
    }

    method FindConflict(map': TinyMemMap) returns (conflict: bool)
      requires Valid() && map'.Valid()
      ensures conflict == Conflicts(Common(), map'.pdStack)
    {
      hide Present;
      hide PageIndex;
      hide SamePage;
      var i := 0;
      while i < |map'.pdStack|
        invariant 0 <= i <= |map'.pdStack|
        invariant forall k :: 0 <= k < i ==> map'.pdStack[k].virt >= 2 && Common().Maps(map'.pdStack[k].virt) ==>
                                               SamePage(Common().virt2phys[map'.pdStack[k].virt], map'.pdStack[k].phys)
      {
        var val := map'.pdStack[i];
        var ours := Present(commonMemMap.virt2phys[val.virt]);
        var theirs := val.virt in map'.isVirtAddrUsed;
        if val.virt >= 2 && ours && theirs {
          if !SamePage(commonMemMap.virt2phys[val.virt], val.phys) {
            assert Common().Maps(map'.pdStack[i].virt);
            return true;
          }
        }
        i := i + 1;
      }
      conflict := false;
    }

    method AddMappings(map': TinyMemMap)
      requires Valid() && map'.Valid() && map' !in Repr()
      requires NotLoaded().Contents() == Empty()
      modifies NotLoaded().Repr()
      ensures Valid() && NotLoaded().Contents() == AddAll(Empty(), map'.pdStack)
    {
      hide Present;
      hide PageIndex;
      hide Encode;
      hide AddTo;
      hide CanAdd;
      ghost var stack := map'.pdStack;
      var i := 0;
      while i < |map'.pdStack|
        invariant 0 <= i <= |stack| && map'.pdStack == stack && Valid()
        invariant NotLoaded().Contents() == AddAll(Empty(), stack[..i])
        modifies NotLoaded().Repr()
      {
        var _ := NotLoaded().Add(map'.pdStack[i].virt * PAGE_SIZE, map'.pdStack[i].phys);
        assert stack[..i + 1][..i] == stack[..i];
        i := i + 1;
      }
      assert stack[..i] == stack;
    }
  }
}
