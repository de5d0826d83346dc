// The .carr format: the printer of gui/cArrFile.py and the parser of
// klibs/arrFile.cpp.
module CArray {
  import opened Common
  import opened Blocks
  import opened KissSpec

  // "\x01carray\x01file\x01"
  const MAGIC: seq<byte> := [1, 99, 97, 114, 114, 97, 121, 1, 102, 105, 108, 101, 1]
  const ENDING: seq<byte> := [0x55, 0xaa]

  function Word(w: nat): (r: seq<byte>)
    ensures |r| == 4
  {
    [WordByte(w, 0), WordByte(w, 1), WordByte(w, 2), WordByte(w, 3)]
  }

  ghost predicate Printable(items: seq<seq<byte>>) {
    |items| < WORD && forall i :: 0 <= i < |items| ==> |items[i]| < WORD
  }

  function PrintedItem(item: seq<byte>): seq<byte> {
    Word(|item|) + item + ENDING
  }

  function PrintedItems(items: seq<seq<byte>>): seq<byte> {
    if items == [] then [] else PrintedItem(items[0]) + PrintedItems(items[1..])
  }

  function Printed(items: seq<seq<byte>>): seq<byte> {
    MAGIC + Word(|items|) + PrintedItems(items)
  }

  // What the parser makes of memory that starts with `mem`; where it stops.
  datatype Parsed = Parsed(items: seq<seq<byte>>, end: nat)

  function ParseItems(mem: seq<byte>, at: nat, count: nat): Option<Parsed>
    decreases count
  {
    if count == 0 then Some(Parsed([], at))
    else
      var n := WordAt(mem, at);
      if BytesAt(mem, at + 4 + n, 2) != ENDING then None
      else
        match ParseItems(mem, at + 4 + n + 2, count - 1)
        case None => None
        case Some(rest) => Some(Parsed([BytesAt(mem, at + 4, n)] + rest.items, rest.end))
  }

  function Parse(mem: seq<byte>): Option<Parsed> {
    if BytesAt(mem, 0, |MAGIC|) != MAGIC then None
    else ParseItems(mem, |MAGIC| + 4, WordAt(mem, |MAGIC|))
  }

  // A file with a padding item and the item "ab", byte by byte.
  lemma PrintedBytes()
    ensures Printed([[], [97, 98]]) ==
            [1, 99, 97, 114, 114, 97, 121, 1, 102, 105, 108, 101, 1]
            + [2, 0, 0, 0]
            + [0, 0, 0, 0] + [0x55, 0xAA]
            + [2, 0, 0, 0] + [97, 98] + [0x55, 0xAA]
  {
    var items: seq<seq<byte>> := [[], [97, 98]];
    assert items[1..] == [[97, 98]] && items[1..][1..] == [];
    assert PrintedItem([]) == [0, 0, 0, 0] + [0x55, 0xAA];
    assert PrintedItem([97, 98]) == [2, 0, 0, 0] + [97, 98] + [0x55, 0xAA];
    hide PrintedItem;
    hide Word;
    assert PrintedItems(items[1..]) == PrintedItem([97, 98]);
    assert Word(|items|) == [2, 0, 0, 0];
  }

  // ----- The two undo each other -----

  lemma WordIsParsed(mem: seq<byte>, at: nat, w: nat)
    requires w < WORD && BytesAt(mem, at, 4) == Word(w)
    ensures WordAt(mem, at) == w
  {
    forall i: nat | i < 4 ensures ByteAt(mem, at + i) == WordByte(w, i) {
      assert BytesAt(mem, at, 4)[i] == Word(w)[i];
    }
    WordIsRead(mem, at, w);
  }

  lemma WordIsPrinted(mem: seq<byte>, at: nat)
    ensures Word(WordAt(mem, at)) == BytesAt(mem, at, 4)
  {
    BytesOfWord(ByteAt(mem, at) as nat, ByteAt(mem, at + 1) as nat,
                ByteAt(mem, at + 2) as nat, ByteAt(mem, at + 3) as nat);
    assert BytesAt(mem, at, 4) == [ByteAt(mem, at), ByteAt(mem, at + 1), ByteAt(mem, at + 2), ByteAt(mem, at + 3)] by {
      assert ByteAt(mem, at + 0) == ByteAt(mem, at);
      hide ByteAt;
    }
    hide ByteAt;
  }

  lemma BytesOfWord(a: nat, b: nat, c: nat, d: nat)
    requires a < 256 && b < 256 && c < 256 && d < 256
    ensures var w := a + 256 * b + 0x1_0000 * c + 0x100_0000 * d;
            w % 256 == a && w / 256 % 256 == b && w / 0x1_0000 % 256 == c && w / 0x100_0000 % 256 == d
  {
    var w := a + 256 * b + 0x1_0000 * c + 0x100_0000 * d;
    assert w / 256 == b + 256 * c + 0x1_0000 * d;
    assert w / 0x1_0000 == c + 256 * d;
    assert w / 0x100_0000 == d;
  }

  lemma SplitBytes(mem: seq<byte>, at: nat, n: nat, m: nat)
    ensures BytesAt(mem, at, n + m) == BytesAt(mem, at, n) + BytesAt(mem, at + n, m)
  {
  }

  lemma Pieces(mem: seq<byte>, at: nat, a: seq<byte>, b: seq<byte>)
    requires BytesAt(mem, at, |a| + |b|) == a + b
    ensures BytesAt(mem, at, |a|) == a && BytesAt(mem, at + |a|, |b|) == b
  {
    SplitBytes(mem, at, |a|, |b|);
    assert a == (a + b)[..|a|] && b == (a + b)[|a|..];
  }

  lemma {:induction false} ItemsAreParsed(mem: seq<byte>, at: nat, items: seq<seq<byte>>)
    requires forall i :: 0 <= i < |items| ==> |items[i]| < WORD
    requires BytesAt(mem, at, |PrintedItems(items)|) == PrintedItems(items)
    ensures ParseItems(mem, at, |items|) == Some(Parsed(items, at + |PrintedItems(items)|))
    decreases |items|
  {
    hide WordAt;
    hide Word;
    if items != [] {
      var item, rest := items[0], PrintedItems(items[1..]);
      Pieces(mem, at, PrintedItem(item), rest);
      Pieces(mem, at, Word(|item|) + item, ENDING);
      Pieces(mem, at, Word(|item|), item);
      WordIsParsed(mem, at, |item|);
      ItemsAreParsed(mem, at + |PrintedItem(item)|, items[1..]);
      assert [item] + items[1..] == items;
      assert |PrintedItem(item)| == 4 + |item| + 2;
    }
  }

  // Parsing what was printed gives the same items, empty ones included, and
  // stops where the printing stopped.
  lemma PrintThenParse(items: seq<seq<byte>>, rest: seq<byte>)
    requires Printable(items)
    ensures Parse(Printed(items) + rest) == Some(Parsed(items, |Printed(items)|))
  {
    var mem := Printed(items) + rest;
    hide Word;
    hide WordAt;
    hide PrintedItems;
    hide ParseItems;
    assert BytesAt(mem, 0, |Printed(items)|) == Printed(items);
    Pieces(mem, 0, MAGIC + Word(|items|), PrintedItems(items));
    Pieces(mem, 0, MAGIC, Word(|items|));
    WordIsParsed(mem, |MAGIC|, |items|);
    ItemsAreParsed(mem, |MAGIC| + 4, items);
  }

  lemma {:induction false} ParsedItemsArePrinted(mem: seq<byte>, at: nat, count: nat)
    requires ParseItems(mem, at, count).Some?
    ensures var r := ParseItems(mem, at, count).value;
            && |r.items| == count && (forall i :: 0 <= i < count ==> |r.items[i]| < WORD)
            && r.end == at + |PrintedItems(r.items)| && BytesAt(mem, at, r.end - at) == PrintedItems(r.items)
    decreases count
  {
    hide WordAt;
    hide Word;
    if count > 0 {
      var n := WordAt(mem, at);
      var next := at + 4 + n + 2;
      ParsedItemsArePrinted(mem, next, count - 1);
      var item := BytesAt(mem, at + 4, n);
      var rest := ParseItems(mem, next, count - 1).value;
      assert ([item] + rest.items)[1..] == rest.items;
      WordIsPrinted(mem, at);
      SplitBytes(mem, at, 4, n);
      SplitBytes(mem, at, 4 + n, 2);
      assert PrintedItem(item) == BytesAt(mem, at, 4 + n + 2);
      SplitBytes(mem, at, 4 + n + 2, rest.end - next);
    }
  }

  // Printing what was parsed gives the bytes that the parser went over.
  lemma ParseThenPrint(mem: seq<byte>)
    requires Parse(mem).Some?
    ensures var r := Parse(mem).value;
            Printable(r.items) && r.end == |Printed(r.items)| && Printed(r.items) == BytesAt(mem, 0, r.end)
  {
    hide Word;
    hide WordAt;
    hide PrintedItems;
    hide ParseItems;
    var r := Parse(mem).value;
    ParsedItemsArePrinted(mem, |MAGIC| + 4, WordAt(mem, |MAGIC|));
    WordIsPrinted(mem, |MAGIC|);
    SplitBytes(mem, 0, |MAGIC|, 4);
    SplitBytes(mem, 0, |MAGIC| + 4, r.end - (|MAGIC| + 4));
  }

  // ----- The programs -----

  // makeCArray; struct.pack raises an error for what does not fit 32 bits.
  method MakeCArray(inputList: seq<seq<byte>>) returns (ans: Option<seq<byte>>)
    ensures ans == if Printable(inputList) then Some(Printed(inputList)) else None
  {
    hide Word;
    if |inputList| >= WORD {
      return None;
    }
    var bytes := MAGIC + Word(|inputList|);
    var i := 0;
    while i < |inputList|
      invariant i <= |inputList| && forall k :: 0 <= k < i ==> |inputList[k]| < WORD
      invariant bytes + PrintedItems(inputList[i..]) == Printed(inputList)
    {
      var obj := inputList[i];
      if |obj| >= WORD {
        return None;
      }
      assert inputList[i..][1..] == inputList[i + 1..];
      ghost var was := bytes;
      bytes := bytes + Word(|obj|);
      bytes := bytes + obj;
      bytes := bytes + [0x55];
      bytes := bytes + [0xaa];
      assert bytes == was + PrintedItem(obj);
      assert was + (PrintedItem(obj) + PrintedItems(inputList[i + 1..])) == bytes + PrintedItems(inputList[i + 1..]);
      i := i + 1;
    }
    assert bytes + [] == bytes;
    ans := Some(bytes);
  }

  // A parsed file: for each item its length, and where it starts unless empty.
  class ArrFile {
    const length: nat
    const subArrLength: array<nat>
    const subArr: array<Option<nat>>

    ghost predicate Valid() {
      subArrLength.Length == subArr.Length == length
    }

    constructor (length: nat)
      ensures Valid() && this.length == length && fresh(subArrLength) && fresh(subArr)
    {
      this.length := length;
      subArrLength := new nat[length];
      subArr := new Option<nat>[length](_ => None);
    }

    // Item i, which is null when it is empty.
    ghost predicate Shows(mem: seq<byte>, i: nat, item: seq<byte>)
      requires Valid() && i < length
      reads subArrLength, subArr
    {
      && subArrLength[i] == |item|
      && if item == [] then subArr[i] == None
         else subArr[i].Some? && BytesAt(mem, subArr[i].value, |item|) == item
    }

    // The index check is against length - 1, which wraps for an empty file: it
    // keeps every index inside if and only if there is an item.
    static lemma IndexCheck(length: nat)
      requires length < WORD
      ensures (forall idx: nat :: idx < WORD && !Refused(idx, length) ==> idx < length) <==> length > 0
    {
      if length == 0 {
        assert !Refused(0, 0);
      }
    }

    static predicate Refused(idx: nat, length: nat)
      requires length < WORD
    {
      idx > (length + WORD - 1) % WORD
    }

    method At(idx: nat) returns (p: Option<nat>)
      requires Valid() && 0 < length < WORD && idx < WORD
      ensures p == if idx < length then subArr[idx] else None
    {
      if Refused(idx, length) {
        return None;
      }
      p := subArr[idx];
    }
  }

  method GetInstance(mem: seq<byte>) returns (obj: ArrFile?)
    ensures obj == null <==> Parse(mem).None?
    ensures obj != null ==>
              var items := Parse(mem).value.items;
              && fresh(obj) && obj.Valid() && obj.length == |items|
              && forall i: nat :: i < obj.length ==> obj.Shows(mem, i, items[i])
  {
    hide WordAt;
    hide ParseItems;
    if BytesAt(mem, 0, |MAGIC|) != MAGIC {
      return null;
    }
    var file := new ArrFile(WordAt(mem, |MAGIC|));
    var ptr: nat := |MAGIC| + 4;
    ghost var items := [];
    assert Parse(mem) == Joined(items, ParseItems(mem, ptr, file.length)) by {
      NothingJoined(ParseItems(mem, ptr, file.length));
    }
    for i := 0 to file.length
      invariant |items| == i && Parse(mem) == Joined(items, ParseItems(mem, ptr, file.length - i))
      invariant forall k: nat :: k < i ==> file.Shows(mem, k, items[k])
    {
      var n := WordAt(mem, ptr);
      NextItem(mem, ptr, file.length - i, items);
      file.subArrLength[i] := n;
      ptr := ptr + 4;
      file.subArr[i] := if n == 0 then None else Some(ptr);
      ghost var item := BytesAt(mem, ptr, n);
      ptr := ptr + n;
      if BytesAt(mem, ptr, 2) != ENDING {
        return null;
      }
      ptr := ptr + 2;
      items := items + [item];
    }
    AllItems(mem, ptr, items);
    obj := file;
  }

  function Joined(items: seq<seq<byte>>, more: Option<Parsed>): Option<Parsed> {
    match more
    case None => None
    case Some(r) => Some(Parsed(items + r.items, r.end))
  }

  lemma NothingJoined(more: Option<Parsed>)
    ensures Joined([], more) == more
  {
    assert more.Some? ==> [] + more.value.items == more.value.items;
  }

  lemma NextItem(mem: seq<byte>, at: nat, count: nat, items: seq<seq<byte>>)
    requires count > 0
    ensures var n := WordAt(mem, at);
            Joined(items, ParseItems(mem, at, count)) ==
            if BytesAt(mem, at + 4 + n, 2) != ENDING then None
            else Joined(items + [BytesAt(mem, at + 4, n)], ParseItems(mem, at + 4 + n + 2, count - 1))
  {
    hide WordAt;
    var n := WordAt(mem, at);
    var item := BytesAt(mem, at + 4, n);
    var more := ParseItems(mem, at + 4 + n + 2, count - 1);
    assert more.Some? ==> items + ([item] + more.value.items) == (items + [item]) + more.value.items;
  }

  lemma AllItems(mem: seq<byte>, at: nat, items: seq<seq<byte>>)
    ensures Joined(items, ParseItems(mem, at, 0)) == Some(Parsed(items, at))
  {
    assert items + [] == items;
  }
}
