// Whole runs of the map manager: the common pages stay active.
module PagingRuns {
  import opened PhysAddr
  import opened PageMap
  import opened ProcessMap
  import opened MemMaps

  ghost predicate MapInv(s: Maps) {
    Inverse(s.common) && s.active.Shape() && Contains(s.active, s.common)
  }

  // What the callers keep to: entries are present, the kernel's page goes only
  // to vacant places, and a process maps none of the common pages or all.
  ghost predicate Careful(s: Maps, e: MapEvent)
    requires s.common.Shape()
  {
    match e
    case AddCommon(v, page) =>
      Present(page) && (PageIndex(page) == KERNEL_PAGE ==> !s.common.Maps(v))
    case Load(stack) =>
      Good(stack) && (!SharesVirt(s.common, stack)
                      || forall v :: 2 <= v < ENTRIES && s.common.Maps(v) ==> Present(PageAt(stack, v)))
    case _ => true
  }

  // Deleting a common page never meets the case that has to be rolled back.
  lemma RollbackIsUnreachable(s: Maps, v: VirtNo)
    requires MapInv(s)
    ensures CanRemoveVirt(s.common, v) ==> CanRemoveVirt(s.active, v)
  {
  }

  lemma DeleteKeeps(s: Maps, v: VirtNo, phys: Pde)
    requires MapInv(s)
    ensures MapInv(Deleted(s, v, phys))
  {
    ZeroIsAbsent();
    hide Present;
    hide PageIndex;
    hide Encode;
    hide SamePage;
    if CanRemoveVirt(s.common, v) {
      RollbackIsUnreachable(s, v);
      RemoveVirtKeepsInverse(s.common, v);
      hide Inverse;
      var s' := Deleted(s, v, phys);
      forall u | 2 <= u < ENTRIES && s'.common.Maps(u)
        ensures s'.active.Maps(u) && SamePage(s'.active.virt2phys[u], s'.common.virt2phys[u])
      {
        assert u != v && s.common.Maps(u);
      }
    }
  }

  lemma AddKeeps(s: Maps, v: VirtNo, page: Pde)
    requires MapInv(s) && Careful(s, MapEvent.AddCommon(v, page))
    ensures MapInv(MapStep(s, MapEvent.AddCommon(v, page)))
  {
    GlobalSameIndex(page);
    SameAsItself(MarkGlobal(page));
    hide Present;
    hide PageIndex;
    hide SamePage;
    hide MarkGlobal;
    hide Encode;
    var p, s' := MarkGlobal(page), MapStep(s, MapEvent.AddCommon(v, page));
    if s' != s {
      AddKeepsInverse(s.common, v, p);
      hide Inverse;
      forall u | 2 <= u < ENTRIES && s'.common.Maps(u)
        ensures s'.active.Maps(u) && SamePage(s'.active.virt2phys[u], s'.common.virt2phys[u])
      {
        assert u != v ==> s.common.Maps(u);
      }
    }
  }

  // A page put where there is none becomes visible at once, as a global page, in
  // both maps; deleting it, by its place or its number, gives back both maps.
  lemma CommonPageComesAndGoes(s: Maps, v: VirtNo, page: Pde)
    requires MapInv(s) && Inverse(s.active) && Present(page) && PageIndex(page) != KERNEL_PAGE
    requires 2 <= v && !Present(s.active.virt2phys[v])
    requires forall u :: 2 <= u < ENTRIES && Present(s.active.virt2phys[u]) ==>
               PageIndex(s.active.virt2phys[u]) != PageIndex(page)
    ensures var t := MapStep(s, MapEvent.AddCommon(v, page));
            && t.active.virt2phys[v] == t.common.virt2phys[v] == MarkGlobal(page)
            && MapStep(t, MapEvent.DelVirt(v)) == s && MapStep(t, MapEvent.DelPhys(page)) == s
  {
    ZeroIsAbsent();
    GlobalSameIndex(page);
    hide Present;
    hide PageIndex;
    hide SamePage;
    hide MarkGlobal;
    hide Encode;
    var p := MarkGlobal(page);
    NotShownInCommon(s, page);
    AddsWhereVacant(s.active, v, p);
    AddsWhereVacant(s.common, v, p);
    assert VirtOk(s.active, v) && VirtOk(s.common, v);
    hide Inverse;
    AddedAndRemoved(s.common, v, p);
    AddedAndRemoved(s.active, v, p);
  }

  lemma NotShownInCommon(s: Maps, page: Pde)
    requires MapInv(s)
    requires forall u :: 2 <= u < ENTRIES && Present(s.active.virt2phys[u]) ==>
               PageIndex(s.active.virt2phys[u]) != PageIndex(page)
    ensures forall u :: 2 <= u < ENTRIES && Present(s.common.virt2phys[u]) ==>
              PageIndex(s.common.virt2phys[u]) != PageIndex(page)
  {
    hide Present;
    hide PageIndex;
    hide SamePage;
    forall u | 2 <= u < ENTRIES && Present(s.common.virt2phys[u])
      ensures PageIndex(s.common.virt2phys[u]) != PageIndex(page)
    {
      assert s.common.Maps(u);
      SamePageSameIndex(s.active.virt2phys[u], s.common.virt2phys[u]);
    }
  }

  lemma AddedAndRemoved(m: Tables, v: VirtNo, p: Pde)
    requires m.Shape() && CanAdd(m, v, p) && 2 <= v && Present(p) && PageIndex(p) != KERNEL_PAGE
    requires m.virt2phys[v] == NO_PAGE
    ensures var t := AddTo(m, v, p);
            && t.virt2phys[v] == p && t.phys2virt[PageIndex(p)] == v
            && CanRemoveVirt(t, v) && RemoveVirt(t, v) == m
  {
    ZeroIsAbsent();
    hide Present;
    hide PageIndex;
    hide Encode;
    var r := RemoveVirt(AddTo(m, v, p), v);
    assert r.virt2phys == m.virt2phys;
    assert r.phys2virt == m.phys2virt;
  }

  lemma StepKeepsMaps(s: Maps, e: MapEvent)
    requires MapInv(s) && Careful(s, e)
    ensures MapInv(MapStep(s, e))
  {
    match e
    case StartUp =>
    case AddCommon(v, page) => AddKeeps(s, v, page);
    case DelVirt(v) => DeleteKeeps(s, v, s.common.virt2phys[v]);
    case DelPhys(page) => DeleteKeeps(s, s.common.phys2virt[PageIndex(page)], page);
    case Load(stack) =>
      if s.started && !Conflicts(s.common, stack) {
        LoadKeepsCommon(s.common, stack);
      }
  }

  ghost function MapRun(s: Maps, events: seq<MapEvent>): (s': Maps)
    requires s.common.Shape() && s.active.Shape()
    ensures s'.common.Shape() && s'.active.Shape()
  {
    if events == [] then s
    else MapStep(MapRun(s, events[..|events| - 1]), events[|events| - 1])
  }

  // From boot, through starting and any additions, deletions and loads by
  // careful callers, every common page is active at every moment.
  lemma {:induction false} CommonPagesStayActive(events: seq<MapEvent>)
    requires forall k :: 0 <= k < |events| ==> Careful(MapRun(Maps(Empty(), Empty(), false), events[..k]), events[k])
    ensures MapInv(MapRun(Maps(Empty(), Empty(), false), events))
  {
    var start := Maps(Empty(), Empty(), false);
    if events == [] {
      EmptyIsInverse();
      ZeroIsAbsent();
      hide Present;
    } else {
      var n := |events| - 1;
      var front := events[..n];
      forall k | 0 <= k < n ensures Careful(MapRun(start, front[..k]), front[k]) {
        assert front[..k] == events[..k];
      }
      hide MapStep;
      hide MapInv;
      hide Careful;
      CommonPagesStayActive(front);
      StepKeepsMaps(MapRun(start, front), events[n]);
    }
  }
}
