// The five slots of pools of klibs/kmalloc.cpp, as a value: allocation by size
// class, freeing by search, and empty pools recycled into other classes.
module Arenas {
  import opened Common
  import opened Pools

  const NUM_CLASSES: nat := 5
  const MAX_POOLS_IN_SLOT: nat := 30
  const MAX_POOLS: nat := 30

  function SizeOf(k: nat): (n: nat)
    requires k < NUM_CLASSES
    ensures IsBlockSize(n)
  {
    if k == 0 then 16 else if k == 1 then 256 else if k == 2 then 8192 else if k == 3 then 0x4_0000 else 0x10_0000
  }

  // The class that serves a request; none for more than a megabyte.
  function ClassOf(size: nat): (k: nat)
    ensures k < NUM_CLASSES ==> size <= SizeOf(k) && (k > 0 ==> SizeOf(k - 1) < size)
    ensures k < NUM_CLASSES <==> size <= 0x10_0000
  {
    if size <= 16 then 0 else if size <= 256 then 1 else if size <= 8192 then 2
    else if size <= 0x4_0000 then 3 else if size <= 0x10_0000 then 4 else 5
  }

  function Incremented(n: nat): nat {
    (n + 1) % WORD
  }

  function Decremented(n: nat): nat {
    (n + WORD - 1) % WORD
  }

  // totalNumPools is a 32-bit counter.
  datatype Arena = Arena(slots: seq<seq<Pool>>, total: nat) {
    predicate Has(k: nat, i: nat) {
      k < |slots| && i < |slots[k]|
    }

    function At(k: nat, i: nat): Pool
      requires Has(k, i)
    {
      slots[k][i]
    }

    ghost predicate Shape() {
      |slots| == NUM_CLASSES && forall k: nat, i: nat {:trigger slots[k][i]} :: Has(k, i) ==> WellSized(slots[k][i])
    }
  }

  function Empty(): Arena {
    Arena([[], [], [], [], []], 0)
  }

  // ----- Allocation -----

  function FirstFree(slot: seq<Pool>): (i: nat)
    ensures i <= |slot|
    ensures i < |slot| ==> slot[i].free != []
    ensures forall j: nat :: 0 <= j < i ==> slot[j].free == []
  {
    if slot == [] || slot[0].free != [] then 0 else 1 + FirstFree(slot[1..])
  }

  function FirstEmpty(slot: seq<Pool>): (i: nat)
    requires forall j: nat :: 0 <= j < |slot| ==> WellSized(slot[j])
    ensures i <= |slot|
    ensures i < |slot| ==> IsEmpty(slot[i])
    ensures forall j: nat :: 0 <= j < i ==> !IsEmpty(slot[j])
  {
    if slot == [] || IsEmpty(slot[0]) then 0 else 1 + FirstEmpty(slot[1..])
  }

  datatype Place = Place(k: nat, i: nat)

  // findAndReleaseFreePool looks in all slots but the last.
  function FindEmpty(s: Arena, k: nat): (r: Option<Place>)
    requires s.Shape() && k <= 4
    ensures r.Some? ==> k <= r.value.k < 4 && s.Has(r.value.k, r.value.i) && IsEmpty(s.At(r.value.k, r.value.i))
    ensures r.None? ==> forall l: nat, i: nat :: k <= l < 4 && s.Has(l, i) ==> !IsEmpty(s.At(l, i))
    decreases 4 - k
  {
    if k == 4 then None
    else
      var i := FirstEmpty(s.slots[k]);
      if i < |s.slots[k]| then Some(Place(k, i)) else FindEmpty(s, k + 1)
  }

  function WithPool(s: Arena, k: nat, i: nat, p: Pool): Arena
    requires s.Has(k, i)
  {
    s.(slots := s.slots[k := s.slots[k][i := p]])
  }

  function WithoutPool(s: Arena, k: nat, i: nat): (r: Arena)
    requires s.Has(k, i)
    ensures s.Shape() ==> r.Shape()
  {
    Arena(s.slots[k := s.slots[k][..i] + s.slots[k][i + 1..]], Decremented(s.total))
  }

  function WithNewPool(s: Arena, k: nat, base: nat): Arena
    requires s.Shape() && k < NUM_CLASSES
  {
    s.(slots := s.slots[k := s.slots[k] + [Fresh(SizeOf(k), base)]])
  }

  // A pool made from the page at `base` and its first block taken.
  function TakeFromNew(s: Arena, k: nat, base: nat): Arena
    requires s.Shape() && k < NUM_CLASSES
  {
    var t := WithNewPool(s, k, base);
    WithPool(t, k, |s.slots[k]|, Get(Fresh(SizeOf(k), base)))
  }

  datatype Outcome = Outcome(arena: Arena, block: Option<nat>)

  // paraAllocate; `page` is what asking for a page gave, if it comes to that.
  function Allocate(s: Arena, k: nat, page: Option<nat>): Outcome
    requires s.Shape() && k < NUM_CLASSES
  {
    var slot := s.slots[k];
    var i := FirstFree(slot);
    if i < |slot| then Outcome(WithPool(s, k, i, Get(slot[i])), Some(Last(slot[i].free)))
    else if |slot| == MAX_POOLS_IN_SLOT then Outcome(s, None)
    else
      match FindEmpty(s, 0)
      case Some(at) =>
        var base := s.At(at.k, at.i).base;
        Outcome(TakeFromNew(WithoutPool(s, at.k, at.i), k, base), Some(Last(Fresh(SizeOf(k), base).free)))
      case None =>
        if s.total == MAX_POOLS || page.None? then Outcome(s, None)
        else
          var t := TakeFromNew(s, k, page.value);
          Outcome(t.(total := Incremented(s.total)), Some(Last(Fresh(SizeOf(k), page.value).free)))
  }

  // ----- Freeing -----

  function FirstReleasing(slot: seq<Pool>, a: nat): (i: nat)
    requires forall j: nat :: 0 <= j < |slot| ==> WellSized(slot[j])
    ensures i <= |slot|
    ensures i < |slot| ==> Releases(slot[i], a)
    ensures forall j: nat :: 0 <= j < i ==> !Releases(slot[j], a)
  {
    if slot == [] || Releases(slot[0], a) then 0 else 1 + FirstReleasing(slot[1..], a)
  }

  datatype Freed = Freed(arena: Arena, ok: bool)

  function FreeIn(s: Arena, k: nat, a: nat): Freed
    requires s.Shape() && k < NUM_CLASSES
  {
    var i := FirstReleasing(s.slots[k], a);
    if i < |s.slots[k]| then Freed(WithPool(s, k, i, Release(s.slots[k][i], a)), true) else Freed(s, false)
  }

  // delete without a size tries the classes from k up.
  function Free(s: Arena, k: nat, a: nat): Freed
    requires s.Shape() && k <= NUM_CLASSES
    decreases NUM_CLASSES - k
  {
    if k == NUM_CLASSES then Freed(s, false)
    else
      var r := FreeIn(s, k, a);
      if r.ok then r else Free(s, k + 1, a)
  }

  // delete with the size the block was asked for with.
  function FreeSized(s: Arena, a: nat, size: nat): Freed
    requires s.Shape()
  {
    if ClassOf(size) < NUM_CLASSES then FreeIn(s, ClassOf(size), a) else Freed(s, false)
  }

  // ----- What the arena keeps -----

  // `live` has the blocks handed out and not yet freed, with the size asked for.
  ghost predicate Owns(s: Arena, k: nat, i: nat, a: nat, live: map<nat, nat>) {
    k < NUM_CLASSES && s.Has(k, i) && InPage(s.At(k, i), a) && a in live && ClassOf(live[a]) == k
  }

  ghost predicate PlaceOk(s: Arena, k: nat, i: nat, live: map<nat, nat>)
    requires s.Has(k, i)
  {
    k < NUM_CLASSES && s.At(k, i).size == SizeOf(k) && PoolOk(s.At(k, i), live.Keys)
  }

  ghost predicate ArenaOk(s: Arena, live: map<nat, nat>) {
    && |s.slots| == NUM_CLASSES
    && (forall k: nat :: 0 <= k < NUM_CLASSES ==> |s.slots[k]| <= MAX_POOLS_IN_SLOT)
    && (forall k: nat, i: nat {:trigger s.At(k, i)} :: s.Has(k, i) ==> PlaceOk(s, k, i, live))
    && (forall k: nat, i: nat, l: nat, j: nat {:trigger s.At(k, i), s.At(l, j)} ::
          s.Has(k, i) && s.Has(l, j) && s.At(k, i).base == s.At(l, j).base ==> k == l && i == j)
    && (forall a :: a in live ==> exists k: nat, i: nat :: Owns(s, k, i, a, live))
  }

  lemma OwnerOf(s: Arena, live: map<nat, nat>, a: nat) returns (k: nat, i: nat)
    requires ArenaOk(s, live) && a in live
    ensures Owns(s, k, i, a, live)
  {
    hide PoolOk;
    hide InPage;
    hide ClassOf;
    k, i :| Owns(s, k, i, a, live);
  }

  lemma ShapeOfOk(s: Arena, live: map<nat, nat>)
    requires ArenaOk(s, live)
    ensures s.Shape()
  {
    hide PoolOk;
    forall k: nat, i: nat | s.Has(k, i) ensures WellSized(s.slots[k][i]) {
      assert PlaceOk(s, k, i, live) by { var _ := s.At(k, i); }
      OkIsWellSized(s.At(k, i), live.Keys);
    }
  }

  lemma OkIsWellSized(p: Pool, live: set<nat>)
    requires PoolOk(p, live)
    ensures WellSized(p) && p.base % POOL_SIZE == 0
  {
  }

  lemma PagesApart(b: nat, c: nat, a: nat)
    requires b % POOL_SIZE == 0 && c % POOL_SIZE == 0
    requires b <= a < b + POOL_SIZE && c <= a < c + POOL_SIZE
    ensures b == c
  {
  }

  // A block lies in the page of one pool only.
  lemma OwnerIsUnique(s: Arena, live: map<nat, nat>, a: nat, k: nat, i: nat, l: nat, j: nat)
    requires ArenaOk(s, live) && s.Has(k, i) && s.Has(l, j)
    requires InPage(s.At(k, i), a) && InPage(s.At(l, j), a)
    ensures k == l && i == j
  {
    hide PoolOk;
    OkIsWellSized(s.At(k, i), live.Keys);
    OkIsWellSized(s.At(l, j), live.Keys);
    PagesApart(s.At(k, i).base, s.At(l, j).base, a);
  }

  ghost predicate IsPageOf(s: Arena, base: nat) {
    exists k: nat, i: nat :: s.Has(k, i) && s.At(k, i).base == base
  }

  // Changing the one pool that block a lies in.
  lemma WithPoolKeepsOk(s: Arena, live: map<nat, nat>, k: nat, i: nat, q: Pool, live': map<nat, nat>, a: nat)
    requires ArenaOk(s, live) && s.Has(k, i) && InPage(s.At(k, i), a)
    requires q.size == s.At(k, i).size && q.base == s.At(k, i).base && PoolOk(q, live'.Keys)
    requires forall x :: x != a ==> (x in live' <==> x in live) && (x in live ==> live'[x] == live[x])
    requires a in live' ==> ClassOf(live'[a]) == k
    ensures ArenaOk(WithPool(s, k, i, q), live')
  {
    hide PoolOk;
    hide InPage;
    hide ClassOf;
    hide WithPool;
    var t := WithPool(s, k, i, q);
    SamePlaces(s, k, i, q);
    assert PlaceOk(s, k, i, live);
    forall l: nat, j: nat | t.Has(l, j) ensures PlaceOk(t, l, j, live') {
      if l != k || j != i {
        OtherPlaceOk(s, live, k, i, live', a, l, j);
      }
    }
    forall x | x in live' ensures exists l: nat, j: nat :: Owns(t, l, j, x, live') {
      SamePage(s.At(k, i), q, x);
      if x == a {
        assert Owns(t, k, i, a, live');
      } else {
        var l, j := OwnerOf(s, live, x);
        assert Owns(t, l, j, x, live');
      }
    }
  }

  lemma OtherPlaceOk(s: Arena, live: map<nat, nat>, k: nat, i: nat, live': map<nat, nat>, a: nat, l: nat, j: nat)
    requires ArenaOk(s, live) && s.Has(k, i) && InPage(s.At(k, i), a) && s.Has(l, j) && (l != k || j != i)
    requires forall x :: x != a ==> (x in live' <==> x in live)
    ensures PlaceOk(s, l, j, live')
  {
    hide PoolOk;
    hide InPage;
    hide ClassOf;
    assert PlaceOk(s, l, j, live) by { var _ := s.At(l, j); }
    if InPage(s.At(l, j), a) {
      OwnerIsUnique(s, live, a, k, i, l, j);
    }
    OthersKeepOk(s.At(l, j), live.Keys, a);
    assert live'.Keys == live.Keys + {a} || live'.Keys == live.Keys - {a};
  }

  lemma SamePage(p: Pool, q: Pool, a: nat)
    requires p.base == q.base
    ensures InPage(p, a) == InPage(q, a)
  {
  }

  lemma SamePlaces(s: Arena, k: nat, i: nat, q: Pool)
    requires s.Has(k, i)
    ensures var t := WithPool(s, k, i, q);
            && |t.slots| == |s.slots|
            && (forall l: nat :: l < |s.slots| ==> |t.slots[l]| == |s.slots[l]|)
            && (forall l: nat, j: nat {:trigger t.At(l, j)} {:trigger s.At(l, j)} :: t.Has(l, j) ==>
                  s.Has(l, j) && t.At(l, j) == if l == k && j == i then q else s.At(l, j))
            && (forall l: nat, j: nat {:trigger t.Has(l, j)} {:trigger s.Has(l, j)} :: t.Has(l, j) <==> s.Has(l, j))
  {
    var t := WithPool(s, k, i, q);
    forall l: nat, j: nat | t.Has(l, j)
      ensures s.Has(l, j) && t.At(l, j) == if l == k && j == i then q else s.At(l, j)
    {
      assert t.slots[l] == if l == k then s.slots[k][i := q] else s.slots[l];
    }
  }

  // Taking a block out of a pool of the class that the request asks for.
  lemma TakeKeepsOk(s: Arena, live: map<nat, nat>, k: nat, i: nat, size: nat)
    requires ArenaOk(s, live) && s.Has(k, i) && s.At(k, i).free != [] && ClassOf(size) == k
    ensures WellSized(s.At(k, i))
    ensures var p := s.At(k, i);
            && Last(p.free) !in live
            && ArenaOk(WithPool(s, k, i, Get(p)), live[Last(p.free) := size])
  {
    hide ClassOf;
    hide InPage;
    var p := s.At(k, i);
    var a := Last(p.free);
    assert PlaceOk(s, k, i, live);
    OkIsWellSized(p, live.Keys);
    GetKeepsOk(p, live.Keys);
    assert live[a := size].Keys == live.Keys + {a};
    hide PoolOk;
    WithPoolKeepsOk(s, live, k, i, Get(p), live[a := size], a);
  }

  // A page that no pool has holds no live block.
  lemma NoneInNewPage(s: Arena, live: map<nat, nat>, p: Pool)
    requires ArenaOk(s, live) && p.base % POOL_SIZE == 0 && !IsPageOf(s, p.base)
    ensures forall a :: a in live ==> !InPage(p, a)
  {
    hide PoolOk;
    hide ClassOf;
    forall a | a in live ensures !InPage(p, a) {
      var l, j := OwnerOf(s, live, a);
      OkIsWellSized(s.At(l, j), live.Keys);
      if InPage(p, a) {
        PagesApart(p.base, s.At(l, j).base, a);
      }
    }
  }

  // A page that no pool has becomes a pool.
  lemma NewPoolKeepsOk(s: Arena, live: map<nat, nat>, k: nat, base: nat)
    requires ArenaOk(s, live) && k < NUM_CLASSES && |s.slots[k]| < MAX_POOLS_IN_SLOT
    requires base % POOL_SIZE == 0 && !IsPageOf(s, base)
    ensures s.Shape() && ArenaOk(WithNewPool(s, k, base), live)
  {
    ShapeOfOk(s, live);
    hide PoolOk;
    hide ClassOf;
    hide Fresh;
    hide InPage;
    var p := Fresh(SizeOf(k), base);
    FreshBase(SizeOf(k), base);
    NoneInNewPage(s, live, p);
    FreshIsOk(SizeOf(k), base, live.Keys);
    var t := WithNewPool(s, k, base);
    forall l: nat, j: nat | t.Has(l, j)
      ensures if s.Has(l, j) then t.At(l, j) == s.At(l, j) else l == k && j == |s.slots[k]| && t.At(l, j) == p
      ensures PlaceOk(t, l, j, live)
    {
      if s.Has(l, j) {
        assert PlaceOk(s, l, j, live) by { var _ := s.At(l, j); }
      }
    }
    forall a | a in live ensures exists l: nat, j: nat :: Owns(t, l, j, a, live) {
      var l, j := OwnerOf(s, live, a);
      assert Owns(t, l, j, a, live);
    }
  }

  lemma FreshBase(size: nat, base: nat)
    requires IsBlockSize(size)
    ensures Fresh(size, base).base == base && Fresh(size, base).size == size && Fresh(size, base).free != []
  {
  }

  function Before(k: nat, i: nat, l: nat, j: nat): nat {
    if l == k && j >= i then j + 1 else j
  }

  function After(k: nat, i: nat, l: nat, j: nat): nat {
    if l == k && j > i then j - 1 else j
  }

  lemma DropPlaces(s: Arena, k: nat, i: nat)
    requires s.Has(k, i)
    ensures var t := WithoutPool(s, k, i);
            && |t.slots| == |s.slots|
            && (forall l: nat :: l < |s.slots| ==> |t.slots[l]| <= |s.slots[l]|)
            && (forall l: nat, j: nat {:trigger t.At(l, j)} :: t.Has(l, j) ==>
                  && s.Has(l, Before(k, i, l, j)) && t.At(l, j) == s.At(l, Before(k, i, l, j))
                  && !(l == k && Before(k, i, l, j) == i))
            && (forall l: nat, j: nat {:trigger s.At(l, j)} :: s.Has(l, j) && !(l == k && j == i) ==>
                  t.Has(l, After(k, i, l, j)) && t.At(l, After(k, i, l, j)) == s.At(l, j))
  {
    var t := WithoutPool(s, k, i);
    forall l: nat, j: nat | t.Has(l, j)
      ensures && s.Has(l, Before(k, i, l, j)) && t.At(l, j) == s.At(l, Before(k, i, l, j))
              && !(l == k && Before(k, i, l, j) == i)
    {
      assert l != k ==> t.slots[l] == s.slots[l];
    }
    forall l: nat, j: nat | s.Has(l, j) && !(l == k && j == i)
      ensures t.Has(l, After(k, i, l, j)) && t.At(l, After(k, i, l, j)) == s.At(l, j)
    {
      assert l != k ==> t.slots[l] == s.slots[l];
    }
  }

  // An empty pool can go: no block of its page is live.
  lemma DropKeepsOk(s: Arena, live: map<nat, nat>, k: nat, i: nat)
    requires ArenaOk(s, live) && s.Has(k, i) && WellSized(s.At(k, i)) && IsEmpty(s.At(k, i))
    ensures forall a :: a in live ==> !InPage(s.At(k, i), a)
    ensures ArenaOk(WithoutPool(s, k, i), live) && !IsPageOf(WithoutPool(s, k, i), s.At(k, i).base)
    ensures s.At(k, i).base % POOL_SIZE == 0
  {
    hide ClassOf;
    DropPlaces(s, k, i);
    OkIsWellSized(s.At(k, i), live.Keys);
    EmptyMeansNoLive(s.At(k, i), live.Keys);
    hide PoolOk;
    hide InPage;
    hide IsEmpty;
    hide WithoutPool;
    var t := WithoutPool(s, k, i);
    forall l: nat, j: nat | t.Has(l, j) ensures PlaceOk(t, l, j, live) && t.At(l, j).base != s.At(k, i).base {
      assert PlaceOk(s, l, Before(k, i, l, j), live);
    }
    forall a | a in live ensures exists l: nat, j: nat :: Owns(t, l, j, a, live) {
      var l, j := OwnerOf(s, live, a);
      assert t.At(l, After(k, i, l, j)) == s.At(l, j);
      assert Owns(t, l, After(k, i, l, j), a, live);
    }
  }

  lemma NewBlockKeepsOk(s: Arena, live: map<nat, nat>, size: nat, base: nat)
    requires ArenaOk(s, live) && ClassOf(size) < NUM_CLASSES && |s.slots[ClassOf(size)]| < MAX_POOLS_IN_SLOT
    requires base % POOL_SIZE == 0 && !IsPageOf(s, base)
    ensures s.Shape()
    ensures var k := ClassOf(size);
            var a := Last(Fresh(SizeOf(k), base).free);
            a !in live && ArenaOk(TakeFromNew(s, k, base), live[a := size])
  {
    var k := ClassOf(size);
    NewPoolKeepsOk(s, live, k, base);
    FreshBase(SizeOf(k), base);
    hide ArenaOk;
    hide ClassOf;
    hide Fresh;
    hide Get;
    TakeKeepsOk(WithNewPool(s, k, base), live, k, |s.slots[k]|, size);
  }

  lemma {:induction false} TotalIsFree(s: Arena, live: map<nat, nat>, n: nat)
    requires ArenaOk(s, live)
    ensures ArenaOk(s.(total := n), live)
  {
    hide PoolOk;
    hide InPage;
    hide ClassOf;
    var t := s.(total := n);
    forall k: nat, i: nat | t.Has(k, i) ensures t.At(k, i) == s.At(k, i) && PlaceOk(t, k, i, live) {
      assert PlaceOk(s, k, i, live) by { var _ := s.At(k, i); }
    }
    forall a | a in live ensures exists k: nat, i: nat :: Owns(t, k, i, a, live) {
      var k, i := OwnerOf(s, live, a);
      assert t.At(k, i) == s.At(k, i);
      assert Owns(t, k, i, a, live);
    }
  }

  // ----- Main results -----

  // A request that succeeds hands out a block nobody has, of the class asked
  // for; one that fails changes nothing.
  lemma AllocateKeepsOk(s: Arena, live: map<nat, nat>, size: nat, page: Option<nat>)
    requires ArenaOk(s, live) && ClassOf(size) < NUM_CLASSES
    requires page.Some? ==> page.value % POOL_SIZE == 0 && !IsPageOf(s, page.value)
    ensures s.Shape()
    ensures var r := Allocate(s, ClassOf(size), page);
            match r.block
            case Some(a) => a !in live && ArenaOk(r.arena, live[a := size])
            case None => r.arena == s
  {
    ShapeOfOk(s, live);
    var k := ClassOf(size);
    var slot := s.slots[k];
    var i := FirstFree(slot);
    hide ClassOf;
    hide Fresh;
    hide Get;
    if i < |slot| {
      assert s.At(k, i).free != [];
      hide ArenaOk;
      TakeKeepsOk(s, live, k, i, size);
    } else if |slot| < MAX_POOLS_IN_SLOT {
      var e := FindEmpty(s, 0);
      if e.Some? {
        hide FindEmpty;
        RecycleKeepsOk(s, live, size, e.value.k, e.value.i);
      } else if s.total != MAX_POOLS && page.Some? {
        hide ArenaOk;
        NewBlockKeepsOk(s, live, size, page.value);
        var a := Last(Fresh(SizeOf(k), page.value).free);
        TotalIsFree(TakeFromNew(s, k, page.value), live[a := size], Incremented(s.total));
      }
    }
  }

  // Every block of the slot is live and the slot can have no more pools: it is
  // full, or no page can be recycled and none is to be had.
  ghost predicate NoRoom(s: Arena, live: map<nat, nat>, k: nat, page: Option<nat>)
    requires s.Shape() && k < NUM_CLASSES
  {
    && (forall i: nat, a: nat :: s.Has(k, i) && IsElement(s.At(k, i), a) ==> a in live)
    && (|s.slots[k]| == MAX_POOLS_IN_SLOT
        || ((forall l: nat, j: nat :: l < 4 && s.Has(l, j) ==> !IsEmpty(s.At(l, j)))
            && (s.total == MAX_POOLS || page.None?)))
  }

  // A request fails if and only if there is no room in this sense.
  lemma AllocateFails(s: Arena, live: map<nat, nat>, k: nat, page: Option<nat>)
    requires ArenaOk(s, live) && k < NUM_CLASSES
    ensures s.Shape()
    ensures Allocate(s, k, page).block.None? <==> NoRoom(s, live, k, page)
  {
    ShapeOfOk(s, live);
    hide Fresh;
    hide Get;
    hide IsEmpty;
    var i := FirstFree(s.slots[k]);
    if i < |s.slots[k]| {
      var a := Last(s.At(k, i).free);
      assert PlaceOk(s, k, i, live);
      assert IsElement(s.At(k, i), a) && a !in live;
    } else {
      forall i: nat, a: nat | s.Has(k, i) && IsElement(s.At(k, i), a) ensures a in live {
        assert PlaceOk(s, k, i, live);
      }
    }
  }

  lemma RecycleKeepsOk(s: Arena, live: map<nat, nat>, size: nat, k: nat, i: nat)
    requires ArenaOk(s, live) && ClassOf(size) < NUM_CLASSES && |s.slots[ClassOf(size)]| < MAX_POOLS_IN_SLOT
    requires s.Has(k, i) && WellSized(s.At(k, i)) && IsEmpty(s.At(k, i))
    ensures WithoutPool(s, k, i).Shape()
    ensures var base, c := s.At(k, i).base, ClassOf(size);
            var a := Last(Fresh(SizeOf(c), base).free);
            a !in live && ArenaOk(TakeFromNew(WithoutPool(s, k, i), c, base), live[a := size])
  {
    hide ClassOf;
    hide Fresh;
    DropKeepsOk(s, live, k, i);
    hide ArenaOk;
    NewBlockKeepsOk(WithoutPool(s, k, i), live, size, s.At(k, i).base);
  }

  // The page recycled for a request holds no live block.
  lemma RecycledPageIsEmpty(s: Arena, live: map<nat, nat>)
    requires ArenaOk(s, live)
    ensures s.Shape()
    ensures var e := FindEmpty(s, 0);
            if e.Some? then forall a :: a in live ==> !InPage(s.At(e.value.k, e.value.i), a)
            else forall k: nat, i: nat :: k < 4 && s.Has(k, i) ==> exists a :: a in live && InPage(s.At(k, i), a)
  {
    ShapeOfOk(s, live);
    hide PoolOk;
    hide InPage;
    hide IsEmpty;
    var e := FindEmpty(s, 0);
    if e.Some? {
      EmptyMeansNoLive(s.At(e.value.k, e.value.i), live.Keys);
    } else {
      forall k: nat, i: nat | k < 4 && s.Has(k, i) ensures exists a :: a in live && InPage(s.At(k, i), a) {
        EmptyMeansNoLive(s.At(k, i), live.Keys);
      }
    }
  }

  // Which pool takes a live block back: its own.
  lemma OnlyOwnerReleases(s: Arena, live: map<nat, nat>, a: nat, k: nat, i: nat)
    requires ArenaOk(s, live) && Owns(s, k, i, a, live)
    ensures s.Shape()
    ensures forall l: nat, j: nat {:trigger s.At(l, j)} ::
              s.Has(l, j) ==> (Releases(s.At(l, j), a) <==> l == k && j == i)
  {
    ShapeOfOk(s, live);
    hide PoolOk;
    hide InPage;
    hide Releases;
    hide ClassOf;
    forall l: nat, j: nat | s.Has(l, j) ensures Releases(s.At(l, j), a) <==> l == k && j == i {
      assert PlaceOk(s, l, j, live);
      LiveIsReleased(s.At(l, j), live.Keys, a);
      if InPage(s.At(l, j), a) {
        OwnerIsUnique(s, live, a, k, i, l, j);
      }
    }
  }

  lemma FreeInOwner(s: Arena, live: map<nat, nat>, a: nat, k: nat, i: nat, l: nat)
    requires ArenaOk(s, live) && Owns(s, k, i, a, live) && l < NUM_CLASSES
    ensures s.Shape() && (l != k ==> FreeIn(s, l, a) == Freed(s, false))
    ensures l == k ==> FreeIn(s, l, a) == Freed(WithPool(s, k, i, Release(s.At(k, i), a)), true)
  {
    OnlyOwnerReleases(s, live, a, k, i);
    hide ArenaOk;
    hide ClassOf;
    hide InPage;
    hide Releases;
    hide Release;
    forall j: nat | j < |s.slots[l]| ensures Releases(s.slots[l][j], a) <==> l == k && j == i {
      assert s.Has(l, j) && s.slots[l][j] == s.At(l, j);
    }
  }

  lemma {:induction false} FreeFindsOwner(s: Arena, live: map<nat, nat>, a: nat, k: nat, i: nat, l: nat)
    requires ArenaOk(s, live) && Owns(s, k, i, a, live) && l <= k
    ensures s.Shape() && Free(s, l, a) == Freed(WithPool(s, k, i, Release(s.At(k, i), a)), true)
    decreases k - l
  {
    hide ArenaOk;
    hide FreeIn;
    hide Release;
    FreeInOwner(s, live, a, k, i, l);
    if l < k {
      FreeFindsOwner(s, live, a, k, i, l + 1);
    }
  }

  // Freeing a live block, with or without its size, puts it back on the stack
  // of exactly the pool it came from, and changes nothing else.
  lemma FreeReturnsToOwner(s: Arena, live: map<nat, nat>, a: nat, k: nat, i: nat)
    requires ArenaOk(s, live) && Owns(s, k, i, a, live)
    ensures s.Shape()
    ensures var t := WithPool(s, k, i, s.At(k, i).(free := s.At(k, i).free + [a]));
            && Free(s, 0, a) == FreeSized(s, a, live[a]) == Freed(t, true)
            && ArenaOk(t, live - {a})
  {
    FreeFindsOwner(s, live, a, k, i, 0);
    FreeInOwner(s, live, a, k, i, k);
    hide ClassOf;
    hide Free;
    hide FreeIn;
    hide InPage;
    var p := s.At(k, i);
    assert PlaceOk(s, k, i, live);
    OkIsWellSized(p, live.Keys);
    ReleaseKeepsOk(p, live.Keys, a);
    assert (live - {a}).Keys == live.Keys - {a};
    hide PoolOk;
    WithPoolKeepsOk(s, live, k, i, Release(p, a), live - {a}, a);
  }

  // Live blocks are at least as large as asked for, apart from each other and
  // from the fields of every pool.
  lemma LiveBlocksApart(s: Arena, live: map<nat, nat>, a: nat, b: nat)
    requires ArenaOk(s, live) && a in live && b in live && a < b
    ensures ClassOf(live[a]) < NUM_CLASSES
    ensures live[a] <= SizeOf(ClassOf(live[a])) && a + SizeOf(ClassOf(live[a])) <= b
  {
    hide ClassOf;
    hide PoolOk;
    hide InPage;
    var k, i := OwnerOf(s, live, a);
    var l, j := OwnerOf(s, live, b);
    assert PlaceOk(s, k, i, live) && PlaceOk(s, l, j, live);
    BlocksOfPools(s.At(k, i), s.At(l, j), live.Keys, a, b);
  }

  lemma BlocksOfPools(p: Pool, q: Pool, live: set<nat>, a: nat, b: nat)
    requires PoolOk(p, live) && PoolOk(q, live) && a in live && b in live && InPage(p, a) && InPage(q, b)
    requires a < b && (p.base == q.base ==> p == q)
    ensures a + p.size <= b
  {
    EndOfLive(p, live, a);
    if p.base == q.base {
      hide InPage;
      hide HeaderElements;
      hide NumElements;
      ElementsApart(p, a, b);
    } else {
      hide IsElement;
      hide HeaderBytes;
      if q.base < p.base {
        LowerPage(q.base, p.base);
      } else {
        LowerPage(p.base, q.base);
      }
    }
  }

  lemma LowerPage(b: nat, c: nat)
    requires b % POOL_SIZE == 0 && c % POOL_SIZE == 0 && b < c
    ensures b + POOL_SIZE <= c
  {
  }

  lemma EndOfLive(p: Pool, live: set<nat>, a: nat)
    requires PoolOk(p, live) && a in live && InPage(p, a)
    ensures p.base + HeaderBytes(p.size) <= a && a + p.size <= p.base + POOL_SIZE
  {
    hide HeaderElements;
    hide NumElements;
    hide MapIndex;
    hide Element;
    hide InPage;
    hide HeaderBytes;
    assert IsElement(p, a);
    ElementInside(p, a);
  }

  lemma ElementInside(p: Pool, a: nat)
    requires WellSized(p) && IsElement(p, a)
    ensures p.base + HeaderBytes(p.size) <= a && a + p.size <= p.base + POOL_SIZE
  {
    var i := MapIndex(p, a);
    ElementIndex(p, i);
    if HeaderElements(p.size) < i {
      Spaced(p.size, HeaderElements(p.size), i);
    }
  }

  lemma LiveBlocksOutsideFields(s: Arena, live: map<nat, nat>, a: nat, k: nat, i: nat)
    requires ArenaOk(s, live) && a in live && s.Has(k, i)
    ensures WellSized(s.At(k, i)) && ClassOf(live[a]) < NUM_CLASSES
    ensures var p := s.At(k, i);
            a + SizeOf(ClassOf(live[a])) <= p.base || p.base + HeaderBytes(p.size) <= a
  {
    hide ClassOf;
    hide PoolOk;
    hide InPage;
    hide HeaderBytes;
    var l, j := OwnerOf(s, live, a);
    assert PlaceOk(s, k, i, live) && PlaceOk(s, l, j, live);
    OkIsWellSized(s.At(k, i), live.Keys);
    BlockAndFields(s.At(k, i), s.At(l, j), live.Keys, a);
  }

  lemma BlockAndFields(p: Pool, q: Pool, live: set<nat>, a: nat)
    requires PoolOk(p, live) && PoolOk(q, live) && a in live && InPage(q, a)
    requires p.base == q.base ==> p == q
    ensures a + q.size <= p.base || p.base + HeaderBytes(p.size) <= a
  {
    EndOfLive(q, live, a);
    FieldsInPage(p);
    hide IsElement;
    hide HeaderBytes;
    if p.base < q.base {
      LowerPage(p.base, q.base);
    } else if q.base < p.base {
      LowerPage(q.base, p.base);
    }
  }

  lemma FieldsInPage(p: Pool)
    requires WellSized(p)
    ensures p.base + HeaderBytes(p.size) <= p.base + POOL_SIZE
  {
  }

  // What a free without size accepts, whether or not the block is live: an
  // address in some pool whose mark is clear.
  lemma {:induction false} FreeAccepts(s: Arena, l: nat, a: nat)
    requires s.Shape() && l <= NUM_CLASSES
    ensures Free(s, l, a).ok <==>
              exists k: nat, i: nat :: k >= l && s.Has(k, i) && InPage(s.At(k, i), a)
                                       && MapIndex(s.At(k, i), a) !in s.At(k, i).bits
    decreases NUM_CLASSES - l
  {
    hide MapIndex;
    hide NumElements;
    if l < NUM_CLASSES {
      FreeAccepts(s, l + 1, a);
      var i := FirstReleasing(s.slots[l], a);
      if i < |s.slots[l]| {
        assert s.Has(l, i);
        IndexInPage(s.At(l, i), a);
      } else {
        forall j: nat | s.Has(l, j) ensures !(InPage(s.At(l, j), a) && MapIndex(s.At(l, j), a) !in s.At(l, j).bits) {
          IndexInPage(s.At(l, j), a);
        }
      }
    }
  }

  // ----- The pool counter -----

  function PoolCount(slots: seq<seq<Pool>>): nat
    requires |slots| == NUM_CLASSES
  {
    |slots[0]| + |slots[1]| + |slots[2]| + |slots[3]| + |slots[4]|
  }

  // totalNumPools counts the pools until one is recycled: recycling takes one
  // off and does not put it back.
  lemma RecyclingMiscounts(s: Arena, k: nat, page: Option<nat>)
    requires s.Shape() && k < NUM_CLASSES && s.total == PoolCount(s.slots) && PoolCount(s.slots) < WORD - 1
    ensures |Allocate(s, k, page).arena.slots| == NUM_CLASSES
    ensures var t := Allocate(s, k, page).arena;
            t.total == PoolCount(t.slots) <==>
              !(FirstFree(s.slots[k]) == |s.slots[k]| && |s.slots[k]| != MAX_POOLS_IN_SLOT && FindEmpty(s, 0).Some?)
  {
    hide FirstFree;
    hide FindEmpty;
    hide Fresh;
    hide Get;
    hide PoolCount;
    hide WithPool;
    hide WithNewPool;
    hide WithoutPool;
    hide TakeFromNew;
    hide Incremented;
    hide Decremented;
    CounterSteps(s.total);
    CountInPlace(s, k, FirstFree(s.slots[k]));
    if page.Some? {
      CountNew(s, k, page.value);
    }
    var e := FindEmpty(s, 0);
    if e.Some? {
      var at := e.value;
      CountWithout(s, at.k, at.i);
      CountNew(WithoutPool(s, at.k, at.i), k, s.At(at.k, at.i).base);
    }
  }

  lemma CounterSteps(n: nat)
    requires n < WORD - 1
    ensures Incremented(n) == n + 1 && Decremented(n) != n
  {
  }

  lemma CountUpdate(s: Arena, t: Arena, k: nat, slot: seq<Pool>)
    requires |s.slots| == NUM_CLASSES && k < NUM_CLASSES && t.slots == s.slots[k := slot]
    ensures PoolCount(t.slots) == PoolCount(s.slots) - |s.slots[k]| + |slot|
  {
  }

  lemma CountInPlace(s: Arena, k: nat, i: nat)
    requires |s.slots| == NUM_CLASSES && k < NUM_CLASSES
    ensures s.Has(k, i) ==>
              forall p :: var t := WithPool(s, k, i, p);
                          |t.slots| == NUM_CLASSES && t.total == s.total && PoolCount(t.slots) == PoolCount(s.slots)
  {
    if s.Has(k, i) {
      forall p ensures PoolCount(WithPool(s, k, i, p).slots) == PoolCount(s.slots) {
        CountUpdate(s, WithPool(s, k, i, p), k, s.slots[k][i := p]);
      }
    }
  }

  lemma CountWithout(s: Arena, k: nat, i: nat)
    requires s.Has(k, i) && |s.slots| == NUM_CLASSES
    ensures var t := WithoutPool(s, k, i);
            |t.slots| == NUM_CLASSES && PoolCount(t.slots) == PoolCount(s.slots) - 1 && t.total == Decremented(s.total)
  {
    CountUpdate(s, WithoutPool(s, k, i), k, s.slots[k][..i] + s.slots[k][i + 1..]);
  }

  lemma CountNew(s: Arena, k: nat, base: nat)
    requires s.Shape() && k < NUM_CLASSES
    ensures var t := TakeFromNew(s, k, base);
            |t.slots| == NUM_CLASSES && PoolCount(t.slots) == PoolCount(s.slots) + 1 && t.total == s.total
  {
    hide Fresh;
    hide Get;
    FreshBase(SizeOf(k), base);
    var p := Fresh(SizeOf(k), base);
    CountUpdate(s, WithNewPool(s, k, base), k, s.slots[k] + [p]);
    CountInPlace(WithNewPool(s, k, base), k, |s.slots[k]|);
  }

  // ----- Runs -----

  datatype Event = Alloc(size: nat, page: Option<nat>) | Delete(a: nat) | DeleteSized(a: nat)

  datatype Kernel = Kernel(arena: Arena, live: map<nat, nat>)

  // A client that frees only blocks it holds, and a page source that gives a
  // page only once.
  ghost predicate Allowed(s: Kernel, e: Event) {
    match e
    case Alloc(_, page) => page.Some? ==> page.value % POOL_SIZE == 0 && !IsPageOf(s.arena, page.value)
    case Delete(a) => a in s.live
    case DeleteSized(a) => a in s.live
  }

  function Next(s: Kernel, e: Event): Kernel
    requires s.arena.Shape()
  {
    match e
    case Alloc(size, page) =>
      if ClassOf(size) == NUM_CLASSES then s
      else
        var r := Allocate(s.arena, ClassOf(size), page);
        Kernel(r.arena, if r.block.Some? then s.live[r.block.value := size] else s.live)
    case Delete(a) => Kernel(Free(s.arena, 0, a).arena, s.live - {a})
    case DeleteSized(a) =>
      Kernel(FreeSized(s.arena, a, if a in s.live then s.live[a] else 0).arena, s.live - {a})
  }

  lemma NextKeepsOk(s: Kernel, e: Event)
    requires ArenaOk(s.arena, s.live) && Allowed(s, e)
    ensures s.arena.Shape() && ArenaOk(Next(s, e).arena, Next(s, e).live)
  {
    ShapeOfOk(s.arena, s.live);
    match e
    case Alloc(size, page) =>
      hide ArenaOk;
      hide Allocate;
      if ClassOf(size) < NUM_CLASSES {
        AllocateKeepsOk(s.arena, s.live, size, page);
      }
    case Delete(a) =>
      var k, i := OwnerOf(s.arena, s.live, a);
      hide ArenaOk;
      FreeReturnsToOwner(s.arena, s.live, a, k, i);
    case DeleteSized(a) =>
      var k, i := OwnerOf(s.arena, s.live, a);
      hide ArenaOk;
      FreeReturnsToOwner(s.arena, s.live, a, k, i);
  }

  // At boot there are no pools, and no block is live.
  lemma BootIsOk()
    ensures ArenaOk(Empty(), map[])
  {
    hide PoolOk;
    var s := Empty();
    assert forall k: nat, i: nat :: !s.Has(k, i);
  }

  // A run from boot, newest event last, over the events that are allowed when
  // their turn comes; the others are left out.  Every state it reaches is in
  // order.
  ghost function Run(events: seq<Event>): (s: Kernel)
    ensures s.arena.Shape() && ArenaOk(s.arena, s.live)
    decreases |events|
  {
    if events == [] then
      BootIsOk();
      Kernel(Empty(), map[])
    else
      var r, e := Run(events[..|events| - 1]), events[|events| - 1];
      if Allowed(r, e) then
        NextKeepsOk(r, e);
        ShapeOfOk(Next(r, e).arena, Next(r, e).live);
        Next(r, e)
      else r
  }

  // Over any interleaving of requests and frees of live blocks: live blocks do
  // not touch each other, and no free is ever refused.
  lemma EveryRunIsSafe(events: seq<Event>)
    ensures var s := Run(events);
            && s.arena.Shape()
            && (forall a, b :: a in s.live && b in s.live && a < b ==> a + s.live[a] <= b)
            && (forall a :: a in s.live ==> Free(s.arena, 0, a).ok && FreeSized(s.arena, a, s.live[a]).ok)
  {
    var s := Run(events);
    hide Run;
    ShapeOfOk(s.arena, s.live);
    hide Free;
    hide FreeSized;
    forall a, b | a in s.live && b in s.live && a < b ensures a + s.live[a] <= b {
      hide ArenaOk;
      LiveBlocksApart(s.arena, s.live, a, b);
    }
    forall a | a in s.live ensures Free(s.arena, 0, a).ok && FreeSized(s.arena, a, s.live[a]).ok {
      var k, i := OwnerOf(s.arena, s.live, a);
      hide ArenaOk;
      FreeReturnsToOwner(s.arena, s.live, a, k, i);
    }
  }

  // One event more.
  lemma RunOneMore(events: seq<Event>, e: Event)
    ensures Run(events + [e]) == if Allowed(Run(events), e) then Next(Run(events), e) else Run(events)
  {
    hide Allowed;
    hide Next;
    hide ArenaOk;
    assert (events + [e])[..|events|] == events;
  }

  // In every state in order, so in every state of a run, a request of at most a
  // megabyte is served by a block nobody holds, if there is room.
  lemma RequestIsServed(s: Kernel, size: nat, page: Option<nat>)
    requires s.arena.Shape() && ArenaOk(s.arena, s.live) && size <= 0x10_0000
    requires page.Some? ==> page.value % POOL_SIZE == 0 && !IsPageOf(s.arena, page.value)
    ensures Allowed(s, Alloc(size, page))
    ensures var t := Next(s, Alloc(size, page));
            if NoRoom(s.arena, s.live, ClassOf(size), page) then t == s
            else exists a: nat :: a !in s.live && t.live == s.live[a := size]
  {
    AllocateFails(s.arena, s.live, ClassOf(size), page);
    AllocateKeepsOk(s.arena, s.live, size, page);
    hide ArenaOk;
    hide Allocate;
    hide NoRoom;
    hide IsPageOf;
  }

  // And a block that is given back is held no more.
  lemma FreedIsGone(events: seq<Event>, a: nat)
    requires a in Run(events).live
    ensures Run(events + [Delete(a)]).live == Run(events).live - {a}
    ensures Run(events + [DeleteSized(a)]).live == Run(events).live - {a}
  {
    RunOneMore(events, Delete(a));
    RunOneMore(events, DeleteSized(a));
    hide Run;
    hide ArenaOk;
    hide Free;
    hide FreeSized;
  }
}
