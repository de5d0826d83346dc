// The overwriting ring buffer of klibs/ringbuf.cpp, proved to be a sequence
// that forgets its oldest element when it is full.
module RingBuffer {
  import opened Common

  // The position k places behind h, going round.
  function Around(h: nat, k: nat, n: nat): nat
    requires h < n && k <= n
  {
    if h + k < n then h + k else h + k - n
  }

  lemma AroundIsModulo(h: nat, k: nat, n: nat)
    requires h < n && k <= n
    ensures (h + k) % n == Around(h, k, n) < n
  {
  }

  // A sequence after appending to it with room for n elements.
  function Appended<T>(s: seq<T>, item: T, n: nat): (r: seq<T>)
    requires n >= 1 && |s| <= n
    ensures 0 < |r| <= n && r[|r| - 1] == item
  {
    if |s| < n then s + [item] else s[1..] + [item]
  }

  class RingBuf<T(0)> {
    const size: nat
    const data: array<T>
    var head: int
    var tail: nat
    var len: nat

    // head is -1 exactly when the buffer is empty; otherwise the tail is len
    // places behind the head.
    ghost predicate Valid()
      reads this
    {
      && size >= 1 && data.Length == size && tail < size && len <= size
      && (head == -1 <==> len == 0)
      && (head != -1 ==> 0 <= head < size && Around(head, len, size) == tail)
    }

    ghost function Contents(): (s: seq<T>)
      requires Valid()
      reads this, data
      ensures |s| == len
      ensures forall k :: 0 <= k < len ==> s[k] == data[Around(head, k, size)]
    {
      var h, n, cells := head, size, data;
      seq(len, k requires 0 <= h < n <= cells.Length && 0 <= k < n reads cells => cells[Around(h, k, n)])
    }

    constructor (size: nat)
      requires size >= 1
      ensures Valid() && fresh(data) && this.size == size && Contents() == []
    {
      this.size := size;
      data := new T[size];
      head := -1;
      tail := 0;
      len := 0;
    }

    method Push(item: T)
      requires Valid()
      modifies this, data
      ensures Valid() && Contents() == Appended(old(Contents()), item, size)
    {
      ghost var was := Contents();
      if head == -1 {
        head := tail;
      } else if tail == head {
        AroundIsModulo(head, 1, size);
        head := (head + 1) % size;
        len := len - 1;
      }
      data[tail] := item;
      AroundIsModulo(tail, 1, size);
      tail := (tail + 1) % size;
      len := len + 1;
      var now := Contents();
      assert now == Appended(was, item, size);
    }

    method Front() returns (r: Option<T>)
      requires Valid()
      ensures r == if Contents() == [] then None else Some(Contents()[0])
    {
      if head == -1 {
        return None;
      }
      assert Contents()[0] == data[Around(head, 0, size)];
      r := Some(data[head]);
    }

    method PopFront()
      requires Valid()
      modifies this
      ensures Valid() && Contents() == if old(Contents()) == [] then [] else old(Contents())[1..]
    {
      if head == -1 {
        return;
      }
      ghost var was := Contents();
      AroundIsModulo(head, 1, size);
      head := (head + 1) % size;
      len := len - 1;
      if len == 0 {
        head := -1;
      }
      assert Contents() == was[1..];
    }

    method Back() returns (r: Option<T>)
      requires Valid()
      ensures r == if Contents() == [] then None else Some(Contents()[len - 1])
    {
      if head == -1 {
        return None;
      }
      AroundIsModulo(tail, size - 1, size);
      assert Contents()[len - 1] == data[Around(head, len - 1, size)];
      r := Some(data[(tail + size - 1) % size]);
    }

    method PopBack()
      requires Valid()
      modifies this
      ensures Valid() && Contents() == if old(Contents()) == [] then [] else old(Contents())[..|old(Contents())| - 1]
    {
      if head == -1 {
        return;
      }
      ghost var was := Contents();
      AroundIsModulo(tail, size - 1, size);
      tail := (tail + size - 1) % size;
      len := len - 1;
      if len == 0 {
        head := -1;
      }
      assert Contents() == was[..|was| - 1];
    }
  }

  // ----- Runs of pushes -----

  function PushAll<T>(s: seq<T>, items: seq<T>, n: nat): (r: seq<T>)
    requires n >= 1 && |s| <= n
    ensures |r| <= n
    decreases |items|
  {
    if items == [] then s else Appended(PushAll(s, items[..|items| - 1], n), items[|items| - 1], n)
  }

  // After any number of pushes the buffer holds the newest n elements.
  lemma {:induction false} NewestAreKept<T>(s: seq<T>, items: seq<T>, n: nat)
    requires n >= 1 && |s| <= n
    ensures var all := s + items;
            PushAll(s, items, n) == if |all| <= n then all else all[|all| - n..]
    decreases |items|
  {
    if items == [] {
      assert s + items == s;
    } else {
      var front, last := items[..|items| - 1], items[|items| - 1];
      NewestAreKept(s, front, n);
      assert s + items == (s + front) + [last];
    }
  }
}
