// The two tables of a MemMap (klibs/palloc.cpp) as values: which physical page
// each 4 MB of virtual memory shows, and where each physical page is shown.
module PageMap {
  import opened PhysAddr

  const ENTRIES: nat := 1024
  const PAGE_SIZE: nat := 0x400000
  const KERNEL_PAGE: nat := 1

  // The number of a virtual page.
  type VirtNo = v: nat | v < ENTRIES

  datatype Tables = Tables(phys2virt: seq<nat>, virt2phys: seq<Pde>) {
    ghost predicate Shape() {
      && |phys2virt| == PAGES && |virt2phys| == ENTRIES
      && forall p {:trigger phys2virt[p]} :: 0 <= p < PAGES ==> phys2virt[p] < ENTRIES
    }

    predicate Maps(v: nat)
      requires v < |virt2phys|
    {
      Present(virt2phys[v])
    }
  }

  // ----- The operations -----

  function ResetPages0And1(m: Tables): Tables
    requires m.Shape()
  {
    Tables(m.phys2virt[KERNEL_PAGE := 1], m.virt2phys[0 := NO_PAGE][1 := Encode(1, PG_GLOBAL)])
  }

  function Empty(): (m: Tables)
    ensures m.Shape()
  {
    Tables(seq(PAGES, i => 0)[KERNEL_PAGE := 1], seq(ENTRIES, i => NO_PAGE)[0 := NO_PAGE][1 := Encode(1, PG_GLOBAL)])
  }

  // The kernel's own page may be shown anywhere, over anything.
  function CanAdd(m: Tables, v: nat, p: Pde): bool
    requires m.Shape() && v < ENTRIES
  {
    && (PageIndex(p) == KERNEL_PAGE || (!m.Maps(v) && m.phys2virt[PageIndex(p)] == 0))
    && v != 0 && v != 1
  }

  function AddTo(m: Tables, v: nat, p: Pde): (r: Tables)
    requires m.Shape() && v < ENTRIES
    ensures r.Shape()
  {
    if !CanAdd(m, v, p) then m
    else Tables(
      if PageIndex(p) != KERNEL_PAGE then m.phys2virt[PageIndex(p) := v] else m.phys2virt,
      m.virt2phys[v := p])
  }

  function CanRemoveVirt(m: Tables, v: nat): bool
    requires m.Shape() && v < ENTRIES
  {
    m.Maps(v) && v != 0 && v != 1
  }

  function RemoveVirt(m: Tables, v: nat): (r: Tables)
    requires m.Shape() && v < ENTRIES
    ensures r.Shape()
  {
    if !CanRemoveVirt(m, v) then m
    else Tables(m.phys2virt[PageIndex(m.virt2phys[v]) := 0], m.virt2phys[v := NO_PAGE])
  }

  function CanRemovePhys(m: Tables, p: nat): bool
    requires m.Shape() && p < PAGES
  {
    m.phys2virt[p] != 0 && m.phys2virt[p] != 1
  }

  function RemovePhys(m: Tables, p: nat): (r: Tables)
    requires m.Shape() && p < PAGES
    ensures r.Shape()
  {
    if !CanRemovePhys(m, p) then m
    else Tables(m.phys2virt[p := 0], m.virt2phys[m.phys2virt[p] := NO_PAGE])
  }

  // Whether some virtual page from 2 up is mapped in both.
  ghost predicate VirtOverlap(m: Tables, n: Tables)
    requires m.Shape() && n.Shape()
  {
    exists v :: 2 <= v < ENTRIES && m.Maps(v) && n.Maps(v)
  }

  // The first k entries of n copied over m.
  function MergeUpTo(m: Tables, n: Tables, k: nat): (r: Tables)
    requires m.Shape() && n.Shape() && 2 <= k <= ENTRIES
    ensures r.Shape()
  {
    if k == 2 then m
    else
      var t, i := MergeUpTo(m, n, k - 1), k - 1;
      if n.Maps(i) then
        var p := PageIndex(n.virt2phys[i]);
        Tables(t.phys2virt[p := n.phys2virt[p]], t.virt2phys[i := n.virt2phys[i]])
      else t
  }

  ghost function Merge(m: Tables, n: Tables): (r: Tables)
    requires m.Shape() && n.Shape()
    ensures r.Shape()
  {
    if VirtOverlap(m, n) then m else MergeUpTo(m, n, ENTRIES)
  }

  // ----- The two tables are inverse to each other -----

  // Pages 0 and 1 are the null page and the kernel; what is not mapped is zero.
  ghost predicate VirtOk(m: Tables, v: nat)
    requires m.Shape() && v < ENTRIES
  {
    && (v == 0 ==> m.virt2phys[v] == NO_PAGE)
    && (v == 1 ==> m.virt2phys[v] == Encode(1, PG_GLOBAL))
    && (!m.Maps(v) ==> m.virt2phys[v] == NO_PAGE)
    && (v >= 2 && m.Maps(v) && PageIndex(m.virt2phys[v]) != KERNEL_PAGE ==> m.phys2virt[PageIndex(m.virt2phys[v])] == v)
  }

  ghost predicate PhysOk(m: Tables, p: nat)
    requires m.Shape() && p < PAGES
  {
    if p == KERNEL_PAGE then m.phys2virt[p] <= 1
    else m.phys2virt[p] != 0 ==>
           var v := m.phys2virt[p];
           2 <= v && m.Maps(v) && PageIndex(m.virt2phys[v]) == p
  }

  ghost predicate Inverse(m: Tables) {
    && m.Shape()
    && (forall v {:trigger VirtOk(m, v)} :: 0 <= v < ENTRIES ==> VirtOk(m, v))
    && (forall p {:trigger PhysOk(m, p)} :: 0 <= p < PAGES ==> PhysOk(m, p))
  }

  lemma ZeroIsAbsent()
    ensures !Present(NO_PAGE)
    ensures PageIndex(Encode(1, PG_GLOBAL)) == KERNEL_PAGE && Present(Encode(1, PG_GLOBAL))
  {
    EntryNamesPage(1, PG_GLOBAL);
  }

  lemma EmptyIsInverse()
    ensures Inverse(Empty())
    ensures forall v :: 2 <= v < ENTRIES ==> Empty().virt2phys[v] == NO_PAGE
    ensures forall p :: 0 <= p < PAGES && p != KERNEL_PAGE ==> Empty().phys2virt[p] == 0
  {
    ZeroIsAbsent();
    hide Present;
    hide PageIndex;
    hide Encode;
  }

  // Adding keeps the tables inverse, except in one case: the kernel's page put
  // over a page that is already shown, whose reverse entry then goes stale.
  lemma AddKeepsInverse(m: Tables, v: nat, p: Pde)
    requires Inverse(m) && v < ENTRIES && Present(p)
    ensures Inverse(AddTo(m, v, p)) <==>
            !(PageIndex(p) == KERNEL_PAGE && v >= 2 && m.Maps(v) && PageIndex(m.virt2phys[v]) != KERNEL_PAGE)
  {
    hide Present;
    hide PageIndex;
    hide Encode;
    var r := AddTo(m, v, p);
    assert VirtOk(m, v);
    if PageIndex(p) == KERNEL_PAGE && v >= 2 && m.Maps(v) && PageIndex(m.virt2phys[v]) != KERNEL_PAGE {
      var stale := PageIndex(m.virt2phys[v]);
      assert !PhysOk(r, stale);
    } else {
      forall u | 0 <= u < ENTRIES ensures VirtOk(r, u) {
        assert VirtOk(m, u);
      }
      forall q | 0 <= q < PAGES ensures PhysOk(r, q) {
        assert PhysOk(m, q);
      }
    }
  }

  // A page other than the kernel's can be added exactly at a vacant place, and
  // only if it is not shown anywhere yet.
  lemma AddsWhereVacant(m: Tables, v: nat, p: Pde)
    requires Inverse(m) && v < ENTRIES && PageIndex(p) != KERNEL_PAGE
    ensures CanAdd(m, v, p) <==>
            2 <= v && !Present(m.virt2phys[v])
            && forall u :: 2 <= u < ENTRIES && Present(m.virt2phys[u]) ==> PageIndex(m.virt2phys[u]) != PageIndex(p)
  {
    hide Present;
    hide PageIndex;
    hide Encode;
    assert PhysOk(m, PageIndex(p));
    forall u | 2 <= u < ENTRIES && Present(m.virt2phys[u]) && PageIndex(m.virt2phys[u]) == PageIndex(p)
      ensures m.phys2virt[PageIndex(p)] == u
    {
      assert VirtOk(m, u);
    }
  }

  // Every page shown from 2 up can be taken away, by its place, and if it is
  // not the kernel's also by its number, with the same result.
  lemma RemovesWhatIsShown(m: Tables, v: nat)
    requires Inverse(m) && v < ENTRIES
    ensures CanRemoveVirt(m, v) <==> 2 <= v && Present(m.virt2phys[v])
    ensures !Present(RemoveVirt(m, v).virt2phys[v]) || v == 1
    ensures forall u :: 0 <= u < ENTRIES && u != v ==> RemoveVirt(m, v).virt2phys[u] == m.virt2phys[u]
    ensures 2 <= v && Present(m.virt2phys[v]) && PageIndex(m.virt2phys[v]) != KERNEL_PAGE ==>
              CanRemovePhys(m, PageIndex(m.virt2phys[v]))
              && RemovePhys(m, PageIndex(m.virt2phys[v])) == RemoveVirt(m, v)
  {
    ZeroIsAbsent();
    hide Present;
    hide PageIndex;
    hide Encode;
    assert VirtOk(m, v);
  }

  // And by number nothing else.
  lemma RemovesOnlyShown(m: Tables, p: nat)
    requires Inverse(m) && p < PAGES && CanRemovePhys(m, p)
    ensures exists v :: 2 <= v < ENTRIES && Present(m.virt2phys[v]) && PageIndex(m.virt2phys[v]) == p
  {
    hide Present;
    hide PageIndex;
    hide Encode;
    assert PhysOk(m, p);
    assert 2 <= m.phys2virt[p] && Present(m.virt2phys[m.phys2virt[p]]);
  }

  lemma RemoveVirtKeepsInverse(m: Tables, v: nat)
    requires Inverse(m) && v < ENTRIES
    ensures Inverse(RemoveVirt(m, v))
  {
    ZeroIsAbsent();
    hide Present;
    hide PageIndex;
    hide Encode;
    var r := RemoveVirt(m, v);
    assert VirtOk(m, v);
    forall u | 0 <= u < ENTRIES ensures VirtOk(r, u) {
      assert VirtOk(m, u);
    }
    forall q | 0 <= q < PAGES ensures PhysOk(r, q) {
      assert PhysOk(m, q);
    }
  }

  lemma RemovePhysKeepsInverse(m: Tables, p: nat)
    requires Inverse(m) && p < PAGES
    ensures Inverse(RemovePhys(m, p))
    ensures p != KERNEL_PAGE && CanRemovePhys(m, p) ==> RemovePhys(m, p) == RemoveVirt(m, m.phys2virt[p])
  {
    ZeroIsAbsent();
    hide Present;
    hide PageIndex;
    hide Encode;
    assert PhysOk(m, p);
    if p != KERNEL_PAGE && CanRemovePhys(m, p) {
      RemoveVirtKeepsInverse(m, m.phys2virt[p]);
    }
  }

  // ----- Histories -----

  datatype Op = Clear | Add(virt: nat, page: Pde) | RemoveAtVirt(virt: nat) | RemoveAtPhys(page: Pde)

  function Apply(m: Tables, op: Op): (r: Tables)
    requires m.Shape()
    ensures r.Shape()
  {
    match op
    case Clear => Empty()
    case Add(v, p) => if v < ENTRIES then AddTo(m, v, p) else m
    case RemoveAtVirt(v) => if v < ENTRIES then RemoveVirt(m, v) else m
    case RemoveAtPhys(p) => RemovePhys(m, PageIndex(p))
  }

  // Callers add present entries, and the kernel's page only to vacant places.
  ghost predicate Proper(m: Tables, op: Op)
    requires m.Shape()
  {
    op.Add? && op.virt < ENTRIES ==>
      Present(op.page) && (PageIndex(op.page) == KERNEL_PAGE ==> !m.Maps(op.virt))
  }

  function History(m: Tables, ops: seq<Op>): (r: Tables)
    requires m.Shape()
    ensures r.Shape()
  {
    if ops == [] then m else Apply(History(m, ops[..|ops| - 1]), ops[|ops| - 1])
  }

  lemma {:induction false} HistoryKeepsInverse(m: Tables, ops: seq<Op>)
    requires Inverse(m)
    requires forall k :: 0 <= k < |ops| ==> Proper(History(m, ops[..k]), ops[k])
    ensures Inverse(History(m, ops))
  {
    if ops != [] {
      var n := |ops| - 1;
      var front := ops[..n];
      forall k | 0 <= k < n ensures Proper(History(m, front[..k]), front[k]) {
        assert front[..k] == ops[..k];
      }
      HistoryKeepsInverse(m, front);
      var h := History(m, front);
      assert Proper(h, ops[n]);
      match ops[n]
      case Clear => EmptyIsInverse();
      case Add(v, p) => if v < ENTRIES { AddKeepsInverse(h, v, p); }
      case RemoveAtVirt(v) => if v < ENTRIES { RemoveVirtKeepsInverse(h, v); }
      case RemoveAtPhys(p) => RemovePhysKeepsInverse(h, PageIndex(p));
    }
  }

  // ----- Merging -----

  // Entry by entry, merging takes what the other map has, from page 2 up.
  lemma {:induction false} MergedVirt(m: Tables, n: Tables, k: nat, v: nat)
    requires m.Shape() && n.Shape() && 2 <= k <= ENTRIES && v < ENTRIES
    ensures MergeUpTo(m, n, k).virt2phys[v] == if 2 <= v < k && n.Maps(v) then n.virt2phys[v] else m.virt2phys[v]
  {
    hide PageIndex;
    hide Present;
    if k > 2 {
      MergedVirt(m, n, k - 1, v);
    }
  }

  lemma {:induction false} MergedPhys(m: Tables, n: Tables, k: nat, p: nat)
    requires m.Shape() && Inverse(n) && 2 <= k <= ENTRIES && p < PAGES && p != KERNEL_PAGE
    ensures MergeUpTo(m, n, k).phys2virt[p] == if 2 <= n.phys2virt[p] < k then n.phys2virt[p] else m.phys2virt[p]
  {
    hide PageIndex;
    hide Present;
    if k > 2 {
      MergedPhys(m, n, k - 1, p);
      assert VirtOk(n, k - 1);
      assert PhysOk(n, p);
    }
  }

  lemma {:induction false} MergedKernel(m: Tables, n: Tables, k: nat)
    requires Inverse(m) && Inverse(n) && 2 <= k <= ENTRIES
    ensures MergeUpTo(m, n, k).phys2virt[KERNEL_PAGE] <= 1
  {
    hide PageIndex;
    hide Present;
    assert PhysOk(m, KERNEL_PAGE) && PhysOk(n, KERNEL_PAGE);
    if k > 2 {
      MergedKernel(m, n, k - 1);
    }
  }

  // Whether some physical page but the kernel's is shown in both.
  ghost predicate PhysOverlap(m: Tables, n: Tables)
    requires m.Shape() && n.Shape()
  {
    exists p :: 0 <= p < PAGES && p != KERNEL_PAGE && m.phys2virt[p] != 0 && n.phys2virt[p] != 0
  }

  // A merge that goes through keeps the tables inverse exactly when no physical
  // page is shown in both.
  lemma MergeKeepsInverse(m: Tables, n: Tables)
    requires Inverse(m) && Inverse(n) && !VirtOverlap(m, n)
    ensures Inverse(Merge(m, n)) <==> !PhysOverlap(m, n)
  {
    hide PageIndex;
    hide Present;
    hide Encode;
    var r := Merge(m, n);
    if PhysOverlap(m, n) {
      var p :| 0 <= p < PAGES && p != KERNEL_PAGE && m.phys2virt[p] != 0 && n.phys2virt[p] != 0;
      StaleAfterMerge(m, n, p);
    } else {
      MergedKernel(m, n, ENTRIES);
      forall v | 0 <= v < ENTRIES ensures VirtOk(r, v) {
        MergedVirtOk(m, n, v);
      }
      forall p | 0 <= p < PAGES ensures PhysOk(r, p) {
        if p != KERNEL_PAGE {
          MergedPhysOk(m, n, p);
        }
      }
    }
  }

  lemma StaleAfterMerge(m: Tables, n: Tables, p: nat)
    requires Inverse(m) && Inverse(n) && !VirtOverlap(m, n)
    requires p < PAGES && p != KERNEL_PAGE && m.phys2virt[p] != 0 && n.phys2virt[p] != 0
    ensures !Inverse(Merge(m, n))
  {
    hide PageIndex;
    hide Present;
    hide Encode;
    var r, v := Merge(m, n), m.phys2virt[p];
    assert PhysOk(m, p) && PhysOk(n, p);
    assert m.Maps(v) && !n.Maps(v);
    MergedVirt(m, n, ENTRIES, v);
    MergedPhys(m, n, ENTRIES, p);
    assert n.Maps(n.phys2virt[p]);
    assert !VirtOk(r, v);
  }

  lemma MergedVirtOk(m: Tables, n: Tables, v: nat)
    requires Inverse(m) && Inverse(n) && !VirtOverlap(m, n) && !PhysOverlap(m, n) && v < ENTRIES
    ensures VirtOk(Merge(m, n), v)
  {
    hide PageIndex;
    hide Present;
    hide Encode;
    MergedVirt(m, n, ENTRIES, v);
    assert VirtOk(m, v) && VirtOk(n, v);
    var e := Merge(m, n).virt2phys[v];
    if v >= 2 && Present(e) && PageIndex(e) != KERNEL_PAGE {
      MergedPhys(m, n, ENTRIES, PageIndex(e));
      assert PhysOk(n, PageIndex(e)) && PhysOk(m, PageIndex(e));
    }
  }

  lemma MergedPhysOk(m: Tables, n: Tables, p: nat)
    requires Inverse(m) && Inverse(n) && !VirtOverlap(m, n) && !PhysOverlap(m, n)
    requires p < PAGES && p != KERNEL_PAGE
    ensures PhysOk(Merge(m, n), p)
  {
    hide PageIndex;
    hide Present;
    hide Encode;
    MergedPhys(m, n, ENTRIES, p);
    assert PhysOk(m, p) && PhysOk(n, p);
    var v := Merge(m, n).phys2virt[p];
    if v != 0 {
      MergedVirt(m, n, ENTRIES, v);
      assert !(m.Maps(v) && n.Maps(v));
    }
  }
}
