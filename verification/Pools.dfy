// One 4 MB page cut into equal blocks: ObjectPool of klibs/kmalloc.cpp, as a
// value.  The pool's own fields live at the start of its page.
module Pools {
  import opened Common

  const POOL_SIZE: nat := 0x40_0000

  predicate IsBlockSize(n: nat) {
    n == 16 || n == 256 || n == 8192 || n == 0x4_0000 || n == 0x10_0000
  }

  function NumElements(size: nat): nat
    requires IsBlockSize(size)
  {
    POOL_SIZE / size
  }

  // The bitset takes a 32-bit word for each element, the stack another.
  function HeaderBytes(size: nat): nat
    requires IsBlockSize(size)
  {
    8 * NumElements(size) + 8
  }

  // Blocks that the pool's own fields take up.
  function HeaderElements(size: nat): (h: nat)
    requires IsBlockSize(size)
    ensures 0 < h < NumElements(size)
    ensures (h - 1) * size < HeaderBytes(size) <= h * size
  {
    (HeaderBytes(size) - 1 + size) / size
  }

  datatype Pool = Pool(size: nat, base: nat, free: seq<nat>, bits: set<nat>)

  ghost predicate WellSized(p: Pool) {
    IsBlockSize(p.size)
  }

  function Element(p: Pool, i: nat): nat {
    p.base + p.size * i
  }

  // toMapIndex: an address below the pool gets an index no element has.
  function MapIndex(p: Pool, a: nat): nat
    requires WellSized(p)
  {
    if a < p.base then NumElements(p.size) + 1 else (a - p.base) / p.size
  }

  predicate InPage(p: Pool, a: nat) {
    p.base <= a < p.base + POOL_SIZE
  }

  // A block that can be handed out.
  predicate IsElement(p: Pool, a: nat)
    requires WellSized(p)
  {
    HeaderElements(p.size) <= MapIndex(p, a) < NumElements(p.size) && a == Element(p, MapIndex(p, a))
  }

  lemma ElementIndex(p: Pool, i: nat)
    requires WellSized(p)
    ensures MapIndex(p, Element(p, i)) == i
    ensures i < NumElements(p.size) ==> InPage(p, Element(p, i)) && Element(p, i) + p.size <= p.base + POOL_SIZE
  {
    assert (p.size * i) / p.size == i;
  }

  lemma IndexInPage(p: Pool, a: nat)
    requires WellSized(p)
    ensures MapIndex(p, a) < NumElements(p.size) <==> InPage(p, a)
  {
  }

  // Two elements of a pool, or an element and the pool's fields, do not touch.
  lemma ElementsApart(p: Pool, a: nat, b: nat)
    requires WellSized(p) && IsElement(p, a) && IsElement(p, b) && a < b
    ensures p.base + HeaderBytes(p.size) <= a && a + p.size <= b && b + p.size <= p.base + POOL_SIZE
  {
    var i, j := MapIndex(p, a), MapIndex(p, b);
    ElementIndex(p, j);
    Spaced(p.size, i, j);
    Spaced(p.size, HeaderElements(p.size), i + 1);
  }

  lemma Spaced(size: nat, i: nat, j: nat)
    requires size > 0
    ensures i < j <==> size * i < size * j
    ensures i < j ==> size * i + size <= size * j
  {
    if i < j {
      AtLeast(size, j - i);
      Distributes(size, i, j - i);
    } else {
      Distributes(size, j, i - j);
    }
  }

  lemma AtLeast(size: nat, d: nat)
    requires d > 0
    ensures size <= size * d
  {
  }

  lemma Distributes(size: nat, i: nat, d: nat)
    ensures size * (i + d) == size * i + size * d && 0 <= size * d
  {
  }

  // ----- Operations -----

  function Elements(size: nat, base: nat, i: nat, n: nat): (r: seq<nat>)
    requires i <= n
    ensures |r| == n - i
    ensures forall k :: 0 <= k < |r| ==> r[k] == base + size * (i + k)
    decreases n - i
  {
    seq(n - i, k requires 0 <= k < n - i => base + size * (i + k))
  }

  function Between(i: nat, n: nat): (s: set<nat>)
    ensures forall x: nat :: x in s <==> i <= x < n
  {
    set x: nat | i <= x < n && IsBetween(i, x, n)
  }

  predicate IsBetween(i: nat, x: nat, n: nat) {
    i <= x < n
  }

  // A new pool: every block behind the header is free and marked so.
  function Fresh(size: nat, base: nat): Pool
    requires IsBlockSize(size)
  {
    var h, n := HeaderElements(size), NumElements(size);
    Pool(size, base, Elements(size, base, h, n), Between(h, n))
  }

  function Last(s: seq<nat>): nat
    requires s != []
  {
    s[|s| - 1]
  }

  // get: takes the top of the free stack and clears its mark.
  function Get(p: Pool): Pool
    requires WellSized(p) && p.free != []
  {
    Pool(p.size, p.base, p.free[..|p.free| - 1], p.bits - {MapIndex(p, Last(p.free))})
  }

  // release looks at the mark of the block, and clears it where setting it
  // would be expected.
  predicate Releases(p: Pool, a: nat)
    requires WellSized(p)
  {
    MapIndex(p, a) < NumElements(p.size) && MapIndex(p, a) !in p.bits
  }

  // A full free stack would drop the block.
  function Pushed(free: seq<nat>, a: nat, n: nat): seq<nat> {
    if |free| < n then free + [a] else free
  }

  function Release(p: Pool, a: nat): Pool
    requires WellSized(p)
  {
    if Releases(p, a) then p.(free := Pushed(p.free, a, NumElements(p.size))) else p
  }

  predicate IsEmpty(p: Pool)
    requires WellSized(p)
  {
    |p.free| == NumElements(p.size) - HeaderElements(p.size)
  }

  // ----- What a pool keeps -----

  ghost predicate Distinct(s: seq<nat>) {
    forall i, j :: 0 <= i < j < |s| ==> s[i] != s[j]
  }

  // Each block is free or live, never both; a marked block is free; a block of
  // this page that is live is one that was handed out.
  ghost predicate PoolOk(p: Pool, live: set<nat>) {
    && WellSized(p) && p.base % POOL_SIZE == 0
    && Distinct(p.free)
    && (forall a :: a in p.free ==> IsElement(p, a) && a !in live)
    && (forall a :: a in live && InPage(p, a) ==> IsElement(p, a))
    && (forall a :: IsElement(p, a) ==> a in p.free || a in live)
    && (forall i :: i in p.bits ==> Element(p, i) in p.free)
  }

  lemma FreshIsOk(size: nat, base: nat, live: set<nat>)
    requires IsBlockSize(size) && base % POOL_SIZE == 0
    requires forall a :: a in live ==> !InPage(Fresh(size, base), a)
    ensures PoolOk(Fresh(size, base), live) && IsEmpty(Fresh(size, base))
  {
    hide HeaderElements;
    hide NumElements;
    hide MapIndex;
    hide InPage;
    var p := Fresh(size, base);
    var h, n := HeaderElements(size), NumElements(size);
    forall k | 0 <= k < |p.free| ensures IsElement(p, p.free[k]) && InPage(p, p.free[k]) {
      ElementIndex(p, h + k);
      assert p.free[k] == Element(p, h + k);
    }
    forall a | IsElement(p, a) ensures a in p.free {
      assert a == p.free[MapIndex(p, a) - h];
    }
    forall i, j | 0 <= i < j < |p.free| ensures p.free[i] != p.free[j] {
      Spaced(size, h + i, h + j);
    }
    forall i | i in p.bits ensures Element(p, i) in p.free {
      assert p.free[i - h] == Element(p, i);
    }
  }

  lemma GetKeepsOk(p: Pool, live: set<nat>)
    requires PoolOk(p, live) && p.free != []
    ensures var a := Last(p.free);
            PoolOk(Get(p), live + {a}) && a !in live && IsElement(p, a) && InPage(p, a)
  {
    hide HeaderElements;
    hide NumElements;
    hide MapIndex;
    hide Element;
    var a, q := Last(p.free), Get(p);
    SameShape(p, q);
    IndexInPage(p, a);
    assert forall x :: x in q.free ==> x in p.free && x != a;
    forall i | i in q.bits ensures Element(q, i) in q.free {
      ElementIndex(p, i);
      assert Element(p, i) != a;
      LastOrBefore(p.free, Element(p, i));
    }
    forall x | IsElement(q, x) ensures x in q.free || x in live + {a} {
      if x in p.free {
        LastOrBefore(p.free, x);
      }
    }
  }

  lemma LastOrBefore(s: seq<nat>, x: nat)
    requires x in s
    ensures x == Last(s) || x in s[..|s| - 1]
  {
    var k :| 0 <= k < |s| && s[k] == x;
    assert k < |s| - 1 ==> s[..|s| - 1][k] == x;
  }

  lemma SameShape(p: Pool, q: Pool)
    requires WellSized(p) && q.size == p.size && q.base == p.base
    ensures forall a :: MapIndex(q, a) == MapIndex(p, a) && InPage(q, a) == InPage(p, a)
    ensures forall a :: IsElement(q, a) == IsElement(p, a)
    ensures forall i :: Element(q, i) == Element(p, i)
  {
  }

  // A live block is always taken back, and only by the pool whose page it is in.
  lemma LiveIsReleased(p: Pool, live: set<nat>, a: nat)
    requires PoolOk(p, live) && a in live
    ensures Releases(p, a) <==> InPage(p, a)
  {
    IndexInPage(p, a);
    hide HeaderElements;
    hide NumElements;
    hide MapIndex;
    hide Element;
    if InPage(p, a) {
      assert a == Element(p, MapIndex(p, a));
    }
  }

  lemma ReleaseKeepsOk(p: Pool, live: set<nat>, a: nat)
    requires PoolOk(p, live) && a in live && InPage(p, a)
    ensures PoolOk(Release(p, a), live - {a}) && Release(p, a).free == p.free + [a]
  {
    LiveIsReleased(p, live, a);
    NotAllFree(p, live, a);
    hide HeaderElements;
    hide NumElements;
    hide MapIndex;
    hide Element;
    var q := Release(p, a);
    SameShape(p, q);
    assert forall x :: x in q.free <==> x in p.free || x == a;
  }

  // The pool another block is in is not touched by freeing or getting it.
  lemma OthersKeepOk(p: Pool, live: set<nat>, a: nat)
    requires PoolOk(p, live) && !InPage(p, a)
    ensures PoolOk(p, live + {a}) && PoolOk(p, live - {a})
  {
    assert forall x :: IsElement(p, x) ==> InPage(p, x) by {
      forall x | IsElement(p, x) ensures InPage(p, x) { IndexInPage(p, x); }
    }
    hide IsElement;
    hide InPage;
  }

  // ----- Counting: an empty pool is one without live blocks -----

  function SetOf(s: seq<nat>): (r: set<nat>)
    ensures forall x :: x in r <==> x in s
  {
    set x | x in s
  }

  lemma {:induction false} DistinctSize(s: seq<nat>)
    requires Distinct(s)
    ensures |SetOf(s)| == |s|
  {
    if s != [] {
      var front := s[..|s| - 1];
      DistinctSize(front);
      assert SetOf(s) == SetOf(front) + {Last(s)} by {
        forall x | x in s ensures x in front || x == Last(s) { LastOrBefore(s, x); }
      }
      assert Last(s) !in front;
    }
  }

  // The free stack as a set, against all blocks of the pool.
  lemma FreeAgainstAll(p: Pool, live: set<nat>)
    requires PoolOk(p, live)
    ensures var all := SetOf(Fresh(p.size, p.base).free);
            && |all| == NumElements(p.size) - HeaderElements(p.size)
            && (forall a :: a in all <==> IsElement(p, a))
            && SetOf(p.free) <= all && |SetOf(p.free)| == |p.free|
  {
    var q := Fresh(p.size, p.base);
    var none: set<nat> := {};
    FreshIsOk(p.size, p.base, none);
    hide HeaderElements;
    hide NumElements;
    hide MapIndex;
    hide Element;
    SameShape(p, q);
    DistinctSize(q.free);
    DistinctSize(p.free);
  }

  lemma NotAllFree(p: Pool, live: set<nat>, a: nat)
    requires PoolOk(p, live) && a in live && InPage(p, a)
    ensures |p.free| < NumElements(p.size) - HeaderElements(p.size) && !IsEmpty(p)
  {
    FreeAgainstAll(p, live);
    hide HeaderElements;
    hide NumElements;
    hide MapIndex;
    hide Element;
    var all := SetOf(Fresh(p.size, p.base).free);
    SubsetSize(SetOf(p.free), all);
    assert a in all && a !in SetOf(p.free);
  }

  // empty() tells exactly that no block of the page is live.
  lemma EmptyMeansNoLive(p: Pool, live: set<nat>)
    requires PoolOk(p, live)
    ensures IsEmpty(p) <==> forall a :: a in live ==> !InPage(p, a)
  {
    if a :| a in live && InPage(p, a) {
      NotAllFree(p, live, a);
    } else {
      FreeAgainstAll(p, live);
      hide HeaderElements;
      hide NumElements;
      hide MapIndex;
      hide Element;
      var all := SetOf(Fresh(p.size, p.base).free);
      forall x | x in all ensures x in SetOf(p.free) {
        ElementInPage(p, x);
      }
      assert SetOf(p.free) == all;
    }
  }

  lemma ElementInPage(p: Pool, a: nat)
    requires WellSized(p) && IsElement(p, a)
    ensures InPage(p, a)
  {
    IndexInPage(p, a);
  }

  // ----- The mark is never set again -----

  // Freeing a block twice is accepted as soon as it was ever handed out, and
  // the next two requests then get the same block.
  lemma DoubleFreeIsHandedOutTwice(p: Pool, a: nat)
    requires WellSized(p) && Releases(p, a) && |p.free| + 2 <= NumElements(p.size)
    ensures Releases(Release(p, a), a)
    ensures var q := Release(Release(p, a), a);
            Last(q.free) == a && Last(Get(q).free) == a && Get(Get(q)).free == p.free
  {
    hide HeaderElements;
    hide NumElements;
    SameShape(p, Release(p, a));
  }

  // A block handed out stays unmarked for as long as the pool lives.
  lemma MarkStaysClear(p: Pool, a: nat, b: nat)
    requires WellSized(p) && Releases(p, a)
    ensures p.free != [] ==> Releases(Get(p), a)
    ensures Releases(Release(p, b), a)
  {
    SameShape(p, Release(p, b));
  }
}
