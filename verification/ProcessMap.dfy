// A process's own mappings (TinyMemMap) and what loading them makes of the
// active map, next to the pages common to all processes.
module ProcessMap {
  import opened PhysAddr
  import opened PageMap

  datatype Mapping = Mapping(phys: Pde, virt: VirtNo)

  // Mappings the kernel makes for a process: present pages from virtual page 2
  // up, no virtual and no physical page twice, none the kernel's.
  ghost predicate Good(stack: seq<Mapping>) {
    && (forall i :: 0 <= i < |stack| ==>
          2 <= stack[i].virt && Present(stack[i].phys) && PageIndex(stack[i].phys) != KERNEL_PAGE)
    && (forall i, j :: 0 <= i < j < |stack| ==>
          stack[i].virt != stack[j].virt && PageIndex(stack[i].phys) != PageIndex(stack[j].phys))
  }

  // The page a process has at virtual page v, if any.
  function PageAt(stack: seq<Mapping>, v: nat): Pde {
    if stack == [] then NO_PAGE
    else if stack[|stack| - 1].virt == v then stack[|stack| - 1].phys
    else PageAt(stack[..|stack| - 1], v)
  }

  function ShownAt(stack: seq<Mapping>, p: nat): nat {
    if stack == [] then 0
    else if PageIndex(stack[|stack| - 1].phys) == p then stack[|stack| - 1].virt
    else ShownAt(stack[..|stack| - 1], p)
  }

  // Each mapping of the stack added in turn, whether or not it takes.
  function AddAll(m: Tables, stack: seq<Mapping>): (r: Tables)
    requires m.Shape()
    ensures r.Shape()
  {
    if stack == [] then m
    else AddTo(AddAll(m, stack[..|stack| - 1]), stack[|stack| - 1].virt, stack[|stack| - 1].phys)
  }

  lemma {:induction false} PageAtMember(stack: seq<Mapping>, v: nat)
    ensures (forall i :: 0 <= i < |stack| ==> stack[i].virt != v) ==> PageAt(stack, v) == NO_PAGE
    ensures forall i :: 0 <= i < |stack| && Good(stack) && stack[i].virt == v ==> PageAt(stack, v) == stack[i].phys
    ensures PageAt(stack, v) != NO_PAGE ==>
              exists i :: 0 <= i < |stack| && stack[i].virt == v && stack[i].phys == PageAt(stack, v)
  {
    hide Present;
    hide PageIndex;
    if stack != [] {
      var front := stack[..|stack| - 1];
      assert forall i :: 0 <= i < |front| ==> stack[i] == front[i];
      PageAtMember(front, v);
    }
  }

  lemma {:induction false} ShownAtMember(stack: seq<Mapping>, p: nat)
    ensures (forall i :: 0 <= i < |stack| ==> PageIndex(stack[i].phys) != p) ==> ShownAt(stack, p) == 0
    ensures ShownAt(stack, p) != 0 ==>
              exists i :: 0 <= i < |stack| && PageIndex(stack[i].phys) == p && stack[i].virt == ShownAt(stack, p)
  {
    hide PageIndex;
    if stack != [] {
      var front := stack[..|stack| - 1];
      assert forall i :: 0 <= i < |front| ==> stack[i] == front[i];
      ShownAtMember(front, p);
    }
  }

  // Into an empty map every mapping of a good stack takes, and nothing else
  // is there.
  lemma {:induction false} AddAllIsExact(stack: seq<Mapping>)
    requires Good(stack)
    ensures var m := AddAll(Empty(), stack);
            && Inverse(m)
            && (forall v :: 2 <= v < ENTRIES ==> m.virt2phys[v] == PageAt(stack, v))
            && (forall p :: 0 <= p < PAGES && p != KERNEL_PAGE ==> m.phys2virt[p] == ShownAt(stack, p))
  {
    hide Present;
    hide PageIndex;
    hide Encode;
    EmptyIsInverse();
    if stack != [] {
      var n := |stack| - 1;
      var front, last := stack[..n], stack[n];
      assert forall i :: 0 <= i < |front| ==> stack[i] == front[i];
      AddAllIsExact(front);
      var m := AddAll(Empty(), front);
      PageAtMember(front, last.virt);
      ShownAtMember(front, PageIndex(last.phys));
      ZeroIsAbsent();
      assert CanAdd(m, last.virt, last.phys);
      AddKeepsInverse(m, last.virt, last.phys);
    }
  }

  // ----- Loading -----

  // A virtual page that the process and the common map both have, but with
  // different entries.
  ghost predicate Conflicts(common: Tables, stack: seq<Mapping>)
    requires common.Shape()
  {
    exists i :: 0 <= i < |stack| && stack[i].virt >= 2 && common.Maps(stack[i].virt)
                && !SamePage(common.virt2phys[stack[i].virt], stack[i].phys)
  }

  ghost predicate SharesVirt(common: Tables, stack: seq<Mapping>)
    requires common.Shape()
  {
    exists i :: 0 <= i < |stack| && stack[i].virt >= 2 && common.Maps(stack[i].virt)
  }

  ghost predicate SharesPhys(common: Tables, stack: seq<Mapping>)
    requires common.Shape()
  {
    exists i :: 0 <= i < |stack| && common.phys2virt[PageIndex(stack[i].phys)] != 0
  }

  // What loadProcessMap makes the active map: the result of the merge is not
  // looked at.
  ghost function Loaded(common: Tables, stack: seq<Mapping>): (r: Tables)
    requires common.Shape()
    ensures r.Shape()
  {
    ResetPages0And1(Merge(AddAll(Empty(), stack), common))
  }

  // Every common mapping is in the map.
  ghost predicate Contains(m: Tables, common: Tables)
    requires m.Shape() && common.Shape()
  {
    forall v {:trigger common.Maps(v)} :: 2 <= v < ENTRIES && common.Maps(v) ==>
                                            m.Maps(v) && SamePage(m.virt2phys[v], common.virt2phys[v])
  }

  lemma SharesMeansOverlap(common: Tables, stack: seq<Mapping>)
    requires Good(stack) && common.Shape()
    ensures VirtOverlap(AddAll(Empty(), stack), common) <==> SharesVirt(common, stack)
  {
    hide Present;
    hide PageIndex;
    hide Encode;
    var m := AddAll(Empty(), stack);
    AddAllIsExact(stack);
    ZeroIsAbsent();
    if VirtOverlap(m, common) {
      var v :| 2 <= v < ENTRIES && m.Maps(v) && common.Maps(v);
      PageAtMember(stack, v);
    }
    if SharesVirt(common, stack) {
      var i :| 0 <= i < |stack| && stack[i].virt >= 2 && common.Maps(stack[i].virt);
      PageAtMember(stack, stack[i].virt);
    }
  }

  lemma PhysSharesMeansOverlap(common: Tables, stack: seq<Mapping>)
    requires Good(stack) && Inverse(common) && !SharesPhys(common, stack)
    ensures !PhysOverlap(AddAll(Empty(), stack), common)
  {
    hide Present;
    hide PageIndex;
    hide Encode;
    var m := AddAll(Empty(), stack);
    AddAllIsExact(stack);
    if PhysOverlap(m, common) {
      var p :| 0 <= p < PAGES && p != KERNEL_PAGE && m.phys2virt[p] != 0 && common.phys2virt[p] != 0;
      ShownAtMember(stack, p);
    }
  }

  // When the process and the common pages have nothing in common, the loaded
  // map is exactly the kernel page, the process's pages and the common pages,
  // and its tables are inverse.
  lemma LoadedIsUnion(common: Tables, stack: seq<Mapping>)
    requires Good(stack) && Inverse(common) && !SharesVirt(common, stack) && !SharesPhys(common, stack)
    ensures var r := Loaded(common, stack);
            && Inverse(r)
            && r.virt2phys[0] == NO_PAGE && r.virt2phys[1] == Encode(1, PG_GLOBAL)
            && forall v :: 2 <= v < ENTRIES ==>
                 r.virt2phys[v] == if Present(PageAt(stack, v)) then PageAt(stack, v) else common.virt2phys[v]
    ensures Contains(Loaded(common, stack), common)
  {
    hide Present;
    hide PageIndex;
    hide Encode;
    hide SamePage;
    var m := AddAll(Empty(), stack);
    AddAllIsExact(stack);
    SharesMeansOverlap(common, stack);
    PhysSharesMeansOverlap(common, stack);
    MergeKeepsInverse(m, common);
    var t, r := Merge(m, common), Loaded(common, stack);
    ResetKeepsInverse(t);
    forall v | 2 <= v < ENTRIES
      ensures r.virt2phys[v] == if Present(PageAt(stack, v)) then PageAt(stack, v) else common.virt2phys[v]
      ensures common.Maps(v) ==> r.Maps(v) && SamePage(r.virt2phys[v], common.virt2phys[v])
    {
      MergedVirt(m, common, ENTRIES, v);
      assert VirtOk(common, v);
      assert !(m.Maps(v) && common.Maps(v));
      SameAsItself(common.virt2phys[v]);
      ZeroIsAbsent();
      assert VirtOk(m, v);
    }
  }

  lemma SameAsItself(p: Pde)
    ensures SamePage(p, p)
  {
  }

  lemma ResetKeepsInverse(m: Tables)
    requires Inverse(m)
    ensures Inverse(ResetPages0And1(m))
    ensures forall v :: 2 <= v < ENTRIES ==> ResetPages0And1(m).virt2phys[v] == m.virt2phys[v]
  {
    ZeroIsAbsent();
    hide Present;
    hide PageIndex;
    hide Encode;
    var r := ResetPages0And1(m);
    assert VirtOk(m, 0) && VirtOk(m, 1);
    forall v | 0 <= v < ENTRIES ensures VirtOk(r, v) {
      assert VirtOk(m, v);
    }
    forall p | 0 <= p < PAGES ensures PhysOk(r, p) {
      assert PhysOk(m, p);
    }
  }

  // In general a load that finds no conflict keeps the common pages active in
  // two cases only: the process shares no virtual page with them, or it maps
  // all of them itself.  Sharing just some, with the same entries, drops the
  // others, because the merge fails unnoticed.
  lemma LoadKeepsCommon(common: Tables, stack: seq<Mapping>)
    requires Good(stack) && Inverse(common) && !Conflicts(common, stack)
    ensures Contains(Loaded(common, stack), common) <==>
              !SharesVirt(common, stack)
              || forall v :: 2 <= v < ENTRIES && common.Maps(v) ==> Present(PageAt(stack, v))
  {
    hide Present;
    hide PageIndex;
    hide Encode;
    hide SamePage;
    var m, r := AddAll(Empty(), stack), Loaded(common, stack);
    AddAllIsExact(stack);
    SharesMeansOverlap(common, stack);
    ZeroIsAbsent();
    if !SharesVirt(common, stack) {
      forall v | 2 <= v < ENTRIES && common.Maps(v) ensures r.Maps(v) && SamePage(r.virt2phys[v], common.virt2phys[v]) {
        MergedVirt(m, common, ENTRIES, v);
        SameAsItself(common.virt2phys[v]);
      }
    } else {
      forall v | 2 <= v < ENTRIES && common.Maps(v)
        ensures r.Maps(v) <==> Present(PageAt(stack, v))
        ensures r.Maps(v) ==> SamePage(r.virt2phys[v], common.virt2phys[v])
      {
        PageAtMember(stack, v);
        if r.Maps(v) {
          var i :| 0 <= i < |stack| && stack[i].virt == v && stack[i].phys == PageAt(stack, v);
          SamePageSymmetric(common.virt2phys[v], stack[i].phys);
        }
      }
    }
  }

  lemma SamePageSymmetric(p: Pde, q: Pde)
    ensures SamePage(p, q) <==> SamePage(q, p)
  {
  }

  // The second case apart, sharing is the failing guard: a process that maps
  // one common page itself loses every common page it does not map.
  lemma SharedPageLosesAnother(common: Tables, stack: seq<Mapping>, v: nat)
    requires Good(stack) && Inverse(common) && !Conflicts(common, stack) && SharesVirt(common, stack)
    requires 2 <= v < ENTRIES && common.Maps(v) && forall i :: 0 <= i < |stack| ==> stack[i].virt != v
    ensures !Loaded(common, stack).Maps(v) && !Contains(Loaded(common, stack), common)
  {
    hide Present;
    hide PageIndex;
    hide Encode;
    hide SamePage;
    AddAllIsExact(stack);
    SharesMeansOverlap(common, stack);
    PageAtMember(stack, v);
    ZeroIsAbsent();
  }

  // ----- Ordinary loads -----

  // The common map has nothing where the process has its pages, and does not
  // show the process's pages anywhere.
  ghost predicate NoneShown(common: Tables, stack: seq<Mapping>)
    requires common.Shape()
  {
    forall i :: 0 <= i < |stack| ==> !Present(common.virt2phys[stack[i].virt])
  }

  ghost predicate NoneMapped(common: Tables, stack: seq<Mapping>)
    requires common.Shape()
  {
    forall i :: 0 <= i < |stack| ==> common.phys2virt[PageIndex(stack[i].phys)] == 0
  }

  // Such a process is never refused, and the CPU then shows at each place from 2
  // up the process's page or else the common one.
  lemma OrdinaryLoad(common: Tables, stack: seq<Mapping>)
    requires common.Shape() && NoneShown(common, stack)
    ensures !Conflicts(common, stack) && !SharesVirt(common, stack)
    ensures Good(stack) && Inverse(common) && NoneMapped(common, stack) ==>
              var r := Loaded(common, stack);
              && Inverse(r) && r.virt2phys[0] == NO_PAGE && PageIndex(r.virt2phys[1]) == KERNEL_PAGE
              && (forall i :: 0 <= i < |stack| ==> r.virt2phys[stack[i].virt] == stack[i].phys)
              && forall v :: 2 <= v < ENTRIES && (forall i :: 0 <= i < |stack| ==> stack[i].virt != v) ==>
                   r.virt2phys[v] == common.virt2phys[v]
  {
    hide Present;
    hide PageIndex;
    hide Encode;
    hide SamePage;
    hide Loaded;
    if Good(stack) && Inverse(common) && NoneMapped(common, stack) {
      LoadedIsUnion(common, stack);
      ZeroIsAbsent();
      forall i | 0 <= i < |stack| ensures Loaded(common, stack).virt2phys[stack[i].virt] == stack[i].phys {
        PageAtMember(stack, stack[i].virt);
      }
      forall v | 2 <= v < ENTRIES && (forall i :: 0 <= i < |stack| ==> stack[i].virt != v)
        ensures Loaded(common, stack).virt2phys[v] == common.virt2phys[v]
      {
        PageAtMember(stack, v);
      }
    }
  }

  // In general a conflict is a place from 2 up where the process and the common
  // map show different pages.
  lemma ConflictIsDifference(common: Tables, stack: seq<Mapping>)
    requires common.Shape() && Good(stack)
    ensures Conflicts(common, stack) <==>
            exists v :: 2 <= v < ENTRIES && Present(common.virt2phys[v]) && Present(PageAt(stack, v))
                        && !SamePage(common.virt2phys[v], PageAt(stack, v))
  {
    hide Present;
    hide PageIndex;
    hide SamePage;
    ZeroIsAbsent();
    hide Encode;
    if Conflicts(common, stack) {
      var i :| 0 <= i < |stack| && stack[i].virt >= 2 && common.Maps(stack[i].virt)
               && !SamePage(common.virt2phys[stack[i].virt], stack[i].phys);
      PageAtMember(stack, stack[i].virt);
    }
    forall v | 2 <= v < ENTRIES && Present(common.virt2phys[v]) && Present(PageAt(stack, v))
               && !SamePage(common.virt2phys[v], PageAt(stack, v))
      ensures Conflicts(common, stack)
    {
      PageAtMember(stack, v);
      var i :| 0 <= i < |stack| && stack[i].virt == v && stack[i].phys == PageAt(stack, v);
      assert common.Maps(stack[i].virt);
    }
  }
}
