// The open-addressing table of inc/klibs/lphashtable.h, with file names as
// keys, proved to be a map.
module HashTable {
  import opened Common
  import opened Blocks

  type Key = seq<byte>

  datatype Entry = Unset | Set(key: Key, value: nat)

  // The hash of a file name: 32-bit, base 101, characters being signed.
  function Hash(key: Key): (h: nat)
    ensures h < WORD
  {
    if key == [] then 0 else (Hash(key[..|key| - 1]) * 101 + SignExtended(key[|key| - 1])) % WORD
  }

  function SignExtended(c: byte): nat {
    if c < 128 then c as nat else c as nat + WORD - 256
  }

  function Home(key: Key, size: nat): (h: nat)
    requires size > 0
    ensures h < size
  {
    Hash(key) % size
  }

  // The slot d places after h, going round.
  function Slot(h: nat, d: nat, size: nat): (s: nat)
    requires h < size && d <= size
    ensures s < size
  {
    if h + d < size then h + d else h + d - size
  }

  // How far slot s lies from h, going round.
  function Distance(h: nat, s: nat, size: nat): (d: nat)
    requires h < size && s < size
    ensures d < size && Slot(h, d, size) == s
    ensures forall e :: 0 <= e < size && Slot(h, e, size) == s ==> e == d
  {
    if s >= h then s - h else s + size - h
  }

  // From the home of a stored key to its slot every slot is set, and no key is
  // stored twice.
  ghost predicate TableOk(t: seq<Entry>) {
    && |t| > 0
    && (forall s: nat, d: nat {:trigger t[s], Slot(Home(t[s].key, |t|), d, |t|)} ::
          s < |t| && t[s].Set? && d <= Distance(Home(t[s].key, |t|), s, |t|) ==>
            t[Slot(Home(t[s].key, |t|), d, |t|)].Set?)
    && (forall s: nat, u: nat :: s < |t| && u < |t| && t[s].Set? && t[u].Set? && t[s].key == t[u].key ==> s == u)
  }

  ghost predicate Holds(t: seq<Entry>, key: Key, value: nat) {
    exists s: nat :: s < |t| && t[s] == Set(key, value)
  }

  ghost predicate HasKey(t: seq<Entry>, key: Key) {
    exists s: nat :: s < |t| && t[s].Set? && t[s].key == key
  }

  ghost predicate HasRoom(t: seq<Entry>) {
    exists s: nat :: s < |t| && t[s].Unset?
  }

  function Used(t: seq<Entry>): nat {
    if t == [] then 0 else Used(t[..|t| - 1]) + if t[|t| - 1].Set? then 1 else 0
  }

  lemma {:induction false} RoomWhenFewAreUsed(t: seq<Entry>)
    requires Used(t) < |t|
    ensures HasRoom(t)
  {
    var n := |t| - 1;
    if t[n].Set? {
      RoomWhenFewAreUsed(t[..n]);
      var s: nat :| s < n && t[..n][s].Unset?;
      assert t[s].Unset?;
    }
  }

  lemma {:induction false} UsedByOneMore(t: seq<Entry>, s: nat, e: Entry)
    requires s < |t|
    ensures Used(t[s := e]) <= Used(t) + 1
  {
    var n := |t| - 1;
    if s < n {
      UsedByOneMore(t[..n], s, e);
      assert t[s := e][..n] == t[..n][s := e];
    } else {
      assert t[s := e][..n] == t[..n];
    }
  }

  lemma {:induction false} NoneUsed(t: seq<Entry>)
    requires forall s :: 0 <= s < |t| ==> t[s] == Unset
    ensures Used(t) == 0 && forall k, v: nat :: !Holds(t, k, v)
  {
    if t != [] {
      NoneUsed(t[..|t| - 1]);
    }
  }

  // Where a search for the key ends: at its slot, or at the first unset slot.
  ghost predicate EndsAt(t: seq<Entry>, key: Key, d: nat)
    requires |t| > 0
  {
    && d < |t|
    && (forall e :: 0 <= e < d ==> t[Slot(Home(key, |t|), e, |t|)].Set? && t[Slot(Home(key, |t|), e, |t|)].key != key)
    && (t[Slot(Home(key, |t|), d, |t|)].Set? ==> t[Slot(Home(key, |t|), d, |t|)].key == key)
  }

  ghost predicate CanEnd(t: seq<Entry>, key: Key) {
    HasRoom(t) || HasKey(t, key)
  }

  // A search ends if and only if some slot is unset or has the key.
  lemma SearchEnds(t: seq<Entry>, key: Key)
    requires |t| > 0
    ensures CanEnd(t, key) <==> exists d: nat :: EndsAt(t, key, d)
  {
    hide Hash;
    hide Home;
    hide Slot;
    if CanEnd(t, key) {
      var stop := StopSlot(t, key);
      var d := FirstStop(t, key, Distance(Home(key, |t|), stop, |t|), 0);
    }
    if d: nat :| EndsAt(t, key, d) {
      assert t[Slot(Home(key, |t|), d, |t|)].Unset? || t[Slot(Home(key, |t|), d, |t|)].key == key;
    }
  }

  lemma StopSlot(t: seq<Entry>, key: Key) returns (stop: nat)
    requires CanEnd(t, key)
    ensures stop < |t| && (t[stop].Unset? || t[stop].key == key)
  {
    if HasRoom(t) {
      stop :| stop < |t| && t[stop].Unset?;
    } else {
      stop :| stop < |t| && t[stop].Set? && t[stop].key == key;
    }
  }

  lemma FirstStop(t: seq<Entry>, key: Key, far: nat, d: nat) returns (r: nat)
    requires 0 < |t| && d <= far < |t|
    requires t[Slot(Home(key, |t|), far, |t|)].Unset? || t[Slot(Home(key, |t|), far, |t|)].key == key
    requires forall e :: 0 <= e < d ==>
               t[Slot(Home(key, |t|), e, |t|)].Set? && t[Slot(Home(key, |t|), e, |t|)].key != key
    ensures EndsAt(t, key, r)
    decreases far - d
  {
    hide Hash;
    hide Home;
    hide Slot;
    var e := t[Slot(Home(key, |t|), d, |t|)];
    if e.Unset? || e.key == key {
      r := d;
    } else {
      r := FirstStop(t, key, far, d + 1);
    }
  }

  lemma SearchIsExact(t: seq<Entry>, key: Key, d: nat)
    requires TableOk(t) && EndsAt(t, key, d)
    ensures t[Slot(Home(key, |t|), d, |t|)].Unset? <==> !HasKey(t, key)
  {
    hide Hash;
    hide Home;
    hide Slot;
    hide Distance;
    var h := Home(key, |t|);
    forall s: nat | s < |t| && t[s].Set? && t[s].key == key ensures t[Slot(h, d, |t|)].Set? {
      var far := Distance(h, s, |t|);
      assert t[s].Set? && far <= Distance(Home(t[s].key, |t|), s, |t|);
      assert Slot(h, far, |t|) == s;
      assert d <= far;
      assert t[Slot(Home(t[s].key, |t|), d, |t|)].Set?;
    }
  }

  class LinearProbingHashTable {
    const table: array<Entry>

    ghost predicate Valid()
      reads table
    {
      TableOk(table[..])
    }

    constructor (size: nat)
      requires size > 0
      ensures Valid() && fresh(table) && table.Length == size
      ensures Used(table[..]) == 0 && forall k, v: nat :: !Holds(table[..], k, v)
    {
      table := new Entry[size](_ => Unset);
      new;
      NoneUsed(table[..]);
    }

    method Find(key: Key) returns (slot: nat, ghost d: nat)
      requires Valid() && CanEnd(table[..], key)
      ensures EndsAt(table[..], key, d) && slot == Slot(Home(key, table.Length), d, table.Length)
    {
      hide Hash;
      var size := table.Length;
      slot := Home(key, size);
      d := 0;
      ghost var stop := StopSlot(table[..], key);
      while table[slot].Set? && table[slot].key != key
        invariant d < size && slot == Slot(Home(key, size), d, size)
        invariant forall e :: 0 <= e < d ==>
                    && table[..][Slot(Home(key, size), e, size)].Set?
                    && table[..][Slot(Home(key, size), e, size)].key != key
        invariant d <= Distance(Home(key, size), stop, size)
        decreases size - d
      {
        NextSlot(Home(key, size), d, size);
        slot := (slot + 1) % size;
        d := d + 1;
      }
    }

    method Get(key: Key) returns (value: Option<nat>)
      requires Valid() && CanEnd(table[..], key)
      ensures forall v: nat :: value == Some(v) <==> Holds(table[..], key, v)
    {
      hide Hash;
      hide EndsAt;
      hide TableOk;
      var slot, d := Find(key);
      SearchIsExact(table[..], key, d);
      Ended(table[..], key, d);
      if table[slot].Unset? {
        return None;
      }
      value := Some(table[slot].value);
    }

    method Put(key: Key, value: nat)
      requires Valid() && CanEnd(table[..], key)
      modifies table
      ensures Valid()
      ensures forall k, v: nat ::
                Holds(table[..], k, v) <==> if k == key then v == value else old(Holds(table[..], k, v))
      ensures Used(table[..]) <= old(Used(table[..])) + 1
    {
      hide Hash;
      hide EndsAt;
      hide TableOk;
      hide Holds;
      var slot, d := Find(key);
      PutKeepsOk(table[..], key, value, d);
      ghost var was := table[..];
      table[slot] := Set(key, value);
      assert table[..] == was[slot := Set(key, value)];
      UsedByOneMore(was, slot, Set(key, value));
    }
  }

  lemma NextSlot(h: nat, d: nat, size: nat)
    requires h < size && d < size
    ensures Slot(h, d + 1, size) == (Slot(h, d, size) + 1) % size
  {
  }

  lemma Ended(t: seq<Entry>, key: Key, d: nat)
    requires TableOk(t) && EndsAt(t, key, d)
    ensures var e := t[Slot(Home(key, |t|), d, |t|)];
            if e.Set? then e.key == key && forall v: nat :: Holds(t, key, v) <==> v == e.value
            else forall v: nat :: !Holds(t, key, v)
  {
    SearchIsExact(t, key, d);
    hide Hash;
    hide Slot;
    var s := Slot(Home(key, |t|), d, |t|);
    if t[s].Set? {
      assert t[s] == Set(key, t[s].value);
    }
  }

  // Storing at the place where the search ended keeps the table a map, with
  // one binding new.
  lemma PutKeepsOk(t: seq<Entry>, key: Key, value: nat, d: nat)
    requires TableOk(t) && EndsAt(t, key, d)
    ensures var r := t[Slot(Home(key, |t|), d, |t|) := Set(key, value)];
            && TableOk(r)
            && forall k, v: nat :: Holds(r, k, v) <==> if k == key then v == value else Holds(t, k, v)
  {
    SearchIsExact(t, key, d);
    hide Hash;
    hide Home;
    hide Slot;
    hide Distance;
    var h := Home(key, |t|);
    var at := Slot(h, d, |t|);
    var r := t[at := Set(key, value)];
    assert Distance(h, at, |t|) == d;
    forall s: nat, e: nat | s < |r| && r[s].Set? && e <= Distance(Home(r[s].key, |r|), s, |r|)
      ensures r[Slot(Home(r[s].key, |r|), e, |r|)].Set?
    {
      if s != at {
        assert t[s] == r[s];
        assert t[Slot(Home(t[s].key, |t|), e, |t|)].Set?;
      }
    }
    forall k, v: nat ensures Holds(r, k, v) <==> if k == key then v == value else Holds(t, k, v) {
      assert r[at] == Set(key, value);
      if Holds(t, k, v) {
        var s: nat :| s < |t| && t[s] == Set(k, v);
        assert s != at ==> r[s] == Set(k, v);
      }
    }
  }
}
