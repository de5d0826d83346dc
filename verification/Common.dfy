// What several components share: a value that may be missing, the size of a
// machine word, and how many elements a part of a set has.
module Common {
  // Maybe of inc/klibs/maybe.h.
  datatype Option<T> = None | Some(value: T)

  // Words have 32 bits.
  const WORD: nat := 0x1_0000_0000

  function Min(a: nat, b: nat): nat {
    if a < b then a else b
  }

  lemma {:induction false} SubsetSize<T>(a: set<T>, b: set<T>)
    requires a <= b
    ensures |a| <= |b| && (|a| == |b| ==> a == b)
  {
    if a != {} {
      var x :| x in a;
      SubsetSize(a - {x}, b - {x});
    }
  }
}
