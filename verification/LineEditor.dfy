// The line editor of drivers/terminal.cpp as values: where the cursor is, how
// far the screen has scrolled, and the keys that can still be taken back.
module LineEditor {
  import opened Common

  const SCREEN_WIDTH: nat := 80
  const SCREEN_HEIGHT: nat := 25
  const TAB_WIDTH: nat := 4
  const TERM_BUFFER_SIZE: nat := 128
  const NEWLINE: nat := 10
  const RETURN: nat := 13
  const TAB: nat := 9

  // What a key put on the screen; yOffset is 1 if it filled its line.
  datatype Item = Item(c: nat, xOffset: nat, yOffset: nat)

  // `scrolls` counts the lines that went off the top.
  datatype Screen = Screen(x: nat, y: nat, scrolls: nat, items: seq<Item>)

  // A reader blocked until Enter, with the byte count as the code compares it;
  // hasBuffer is false for a null pointer.
  datatype Reader = Reader(len: nat, hasBuffer: bool)

  datatype Term = Term(screen: Screen, waiting: Option<Reader>)

  const BOOT := Term(Screen(0, 0, 0, []), None)

  // A signed byte count cast to size_t: a negative one is larger than any line.
  function AsSize(nbytes: int): (n: nat)
    requires -0x8000_0000 <= nbytes < 0x8000_0000
    ensures nbytes >= 0 ==> n == nbytes
    ensures nbytes < 0 ==> n > TERM_BUFFER_SIZE
  {
    if nbytes < 0 then nbytes + WORD else nbytes
  }

  // 32-bit subtraction.
  function Minus(a: nat, b: nat): nat {
    (a + WORD - b % WORD) % WORD
  }

  lemma MinusIsExact(a: nat, b: nat)
    requires a < WORD
    ensures b <= a ==> Minus(a, b) == a - b
  {
  }

  // ----- Keys -----

  // The cursor goes down a line, or the screen goes up one.
  function LineDown(s: Screen): Screen {
    if s.y < SCREEN_HEIGHT - 1 then s.(x := 0, y := s.y + 1) else s.(x := 0, scrolls := s.scrolls + 1)
  }

  function Advance(s: Screen, c: nat, to: nat): Screen {
    if to >= SCREEN_WIDTH
    then LineDown(s).(items := s.items + [Item(c, Minus(SCREEN_WIDTH, s.x), 1)])
    else s.(x := to, items := s.items + [Item(c, Minus(to, s.x), 0)])
  }

  function TabStop(x: nat): nat {
    x + 4 - x % TAB_WIDTH
  }

  // One place in the buffer is kept for the newline.
  predicate HasRoom(s: Screen) {
    |s.items| < TERM_BUFFER_SIZE - 1
  }

  function TypeChar(s: Screen, c: nat): Screen {
    if HasRoom(s) then Advance(s, c, s.x + 1) else s
  }

  function TypeTab(s: Screen): Screen {
    if HasRoom(s) then Advance(s, TAB, TabStop(s.x)) else s
  }

  function Backspace(s: Screen): Screen {
    if s.items == [] then s
    else
      var last, rest := s.items[|s.items| - 1], s.items[..|s.items| - 1];
      if last.yOffset != 0 then s.(x := Minus(SCREEN_WIDTH, last.xOffset), y := Minus(s.y, 1), items := rest)
      else s.(x := Minus(s.x, last.xOffset), items := rest)
  }

  function CharsOf(items: seq<Item>): (r: seq<nat>)
    ensures |r| == |items| && forall i :: 0 <= i < |items| ==> r[i] == items[i].c
  {
    seq(|items|, i requires 0 <= i < |items| => items[i].c)
  }

  // What a reader for len bytes gets out of the buffer.
  function FirstChars(items: seq<Item>, len: nat): seq<nat> {
    if len < |items| then CharsOf(items[..len]) else CharsOf(items)
  }

  datatype Entered = Entered(term: Term, delivered: Option<seq<nat>>)

  // Enter adds a newline, whose record is otherwise not set, and hands the line
  // to a waiting reader.  A null buffer leaves the line where it is.
  function Enter(t: Term, junk: Item): Entered {
    var s := LineDown(t.screen).(items := t.screen.items + [junk.(c := NEWLINE)]);
    match t.waiting
    case Some(r) =>
      if r.hasBuffer then Entered(Term(s.(items := []), None), Some(FirstChars(s.items, r.len)))
      else Entered(Term(s, None), None)
    case None => Entered(Term(s.(items := []), None), None)
  }

  // A reader that finds enough in the buffer takes it at once.
  datatype ReadResult = ReadResult(term: Term, delivered: Option<seq<nat>>)

  function Read(t: Term, r: Reader): ReadResult {
    if |t.screen.items| < r.len then ReadResult(t.(waiting := Some(r)), None)
    else if !r.hasBuffer then ReadResult(t, None)
    else ReadResult(t.(screen := t.screen.(items := [])), Some(FirstChars(t.screen.items, r.len)))
  }

  // The read system call refuses a null buffer before it gets to the terminal.
  function SysRead(t: Term, r: Reader): ReadResult {
    if r.hasBuffer then Read(t, r) else ReadResult(t, None)
  }

  // Printing is not taken back: it empties the buffer.
  function Print(s: Screen, c: nat): Screen {
    var t := s.(items := []);
    if c == 0 then t
    else if c == NEWLINE || c == RETURN then LineDown(t)
    else if c == TAB then
      var to := TabStop(t.x);
      if to >= SCREEN_WIDTH then LineDown(t).(x := to % SCREEN_WIDTH) else t.(x := to)
    else if t.x + 1 == SCREEN_WIDTH then LineDown(t)
    else t.(x := t.x + 1)
  }

  function Clear(s: Screen): Screen {
    Screen(0, 0, s.scrolls, [])
  }

  // ----- What the editor keeps -----

  // The cursor in the coordinates of everything ever shown.
  datatype Place = Place(x: int, line: int)

  function Cursor(s: Screen): Place {
    Place(s.x, s.y + s.scrolls)
  }

  // Where the cursor was before these items, seen from where it is behind them.
  function Unwind(items: seq<Item>, at: Place): Place {
    if items == [] then at
    else
      var last, rest := items[|items| - 1], items[..|items| - 1];
      Unwind(rest, if last.yOffset != 0 then Place(SCREEN_WIDTH - last.xOffset, at.line - 1)
                   else Place(at.x - last.xOffset, at.line))
  }

  function Wraps(items: seq<Item>): nat {
    if items == [] then 0 else Wraps(items[..|items| - 1]) + items[|items| - 1].yOffset
  }

  function Columns(items: seq<Item>): nat {
    if items == [] then 0 else Columns(items[..|items| - 1]) + items[|items| - 1].xOffset
  }

  // Each item takes between 1 and 4 columns and ends at most one line.
  ghost predicate Items(items: seq<Item>) {
    forall i :: 0 <= i < |items| ==> 1 <= items[i].xOffset <= TAB_WIDTH && items[i].yOffset <= 1
  }

  // Each item lies inside its line: the columns at its start and end.
  ghost predicate Chain(items: seq<Item>, at: Place) {
    && 0 <= at.x < SCREEN_WIDTH
    && (items != [] ==>
          var last, rest := items[|items| - 1], items[..|items| - 1];
          if last.yOffset != 0 then at.x == 0 && Chain(rest, Place(SCREEN_WIDTH - last.xOffset, at.line - 1))
          else Chain(rest, Place(at.x - last.xOffset, at.line)))
  }

  ghost predicate ScreenOk(s: Screen, start: Place) {
    && s.x < SCREEN_WIDTH && s.y < SCREEN_HEIGHT && |s.items| < TERM_BUFFER_SIZE
    && Items(s.items) && Chain(s.items, Cursor(s)) && Unwind(s.items, Cursor(s)) == start
    && Wraps(s.items) <= s.y
  }

  // The wraps in a chain follow from the columns: each full line took 80.
  lemma {:induction false} ColumnsOfChain(items: seq<Item>, at: Place)
    requires Chain(items, at) && Items(items)
    ensures Unwind(items, at).x + Columns(items) == at.x + SCREEN_WIDTH * Wraps(items)
    ensures 0 <= Unwind(items, at).x < SCREEN_WIDTH
    ensures Columns(items) <= TAB_WIDTH * |items|
    ensures Unwind(items, at).line == at.line - Wraps(items)
  {
    if items != [] {
      var last, rest := items[|items| - 1], items[..|items| - 1];
      ColumnsOfChain(rest, if last.yOffset != 0 then Place(SCREEN_WIDTH - last.xOffset, at.line - 1)
                           else Place(at.x - last.xOffset, at.line));
    }
  }

  // A buffer of 127 items fills at most seven lines.
  lemma FewWraps(items: seq<Item>, at: Place)
    requires Chain(items, at) && Items(items) && |items| < TERM_BUFFER_SIZE
    ensures Wraps(items) <= 7
  {
    ColumnsOfChain(items, at);
  }

  lemma OneItemMore(items: seq<Item>, item: Item, at: Place)
    requires Chain(items, at) && Items(items) && 1 <= item.xOffset <= TAB_WIDTH && item.yOffset <= 1
    requires item.yOffset == 1 ==> at.x + item.xOffset == SCREEN_WIDTH
    requires item.yOffset == 0 ==> at.x + item.xOffset < SCREEN_WIDTH
    ensures var next := if item.yOffset == 1 then Place(0, at.line + 1) else Place(at.x + item.xOffset, at.line);
            && Items(items + [item]) && Chain(items + [item], next)
            && Unwind(items + [item], next) == Unwind(items, at)
            && Wraps(items + [item]) == Wraps(items) + item.yOffset
  {
    var all := items + [item];
    assert all[..|all| - 1] == items;
  }

  lemma AdvanceKeepsOk(s: Screen, c: nat, to: nat, start: Place)
    requires ScreenOk(s, start) && HasRoom(s) && s.x < to <= s.x + TAB_WIDTH && to <= SCREEN_WIDTH
    ensures ScreenOk(Advance(s, c, to), start)
  {
    hide Minus;
    MinusIsExact(SCREEN_WIDTH, s.x);
    MinusIsExact(to, s.x);
    FewWraps(s.items, Cursor(s));
    var item := if to >= SCREEN_WIDTH then Item(c, SCREEN_WIDTH - s.x, 1) else Item(c, to - s.x, 0);
    OneItemMore(s.items, item, Cursor(s));
    hide Chain;
    hide Items;
    hide Unwind;
    hide Wraps;
  }

  lemma TabStopIsNear(x: nat)
    requires x < SCREEN_WIDTH
    ensures x < TabStop(x) <= x + TAB_WIDTH && TabStop(x) <= SCREEN_WIDTH && TabStop(x) % TAB_WIDTH == 0
  {
  }

  // Characters, tabs and backspaces keep the cursor on the screen and the start
  // of the line where it was.
  lemma EditingKeepsOk(s: Screen, c: nat, start: Place)
    requires ScreenOk(s, start)
    ensures ScreenOk(TypeChar(s, c), start) && ScreenOk(TypeTab(s), start) && ScreenOk(Backspace(s), start)
  {
    if HasRoom(s) {
      TabStopIsNear(s.x);
      AdvanceKeepsOk(s, c, s.x + 1, start);
      AdvanceKeepsOk(s, TAB, TabStop(s.x), start);
    }
    if s.items != [] {
      BackspaceKeepsOk(s, start);
    }
  }

  // The row never runs below zero: there is a line above for each wrap.
  lemma BackspaceKeepsOk(s: Screen, start: Place)
    requires ScreenOk(s, start) && s.items != []
    ensures ScreenOk(Backspace(s), start) && (s.items[|s.items| - 1].yOffset != 0 ==> s.y >= 1)
  {
    hide Minus;
    var last, rest := s.items[|s.items| - 1], s.items[..|s.items| - 1];
    assert 1 <= last.xOffset <= TAB_WIDTH && last.yOffset <= 1;
    MinusIsExact(SCREEN_WIDTH, last.xOffset);
    MinusIsExact(s.x, last.xOffset);
    MinusIsExact(s.y, 1);
    if last.yOffset == 0 {
      ChainStart(rest, Place(s.x - last.xOffset, s.y + s.scrolls));
    }
  }

  // Where a backspace puts the cursor.
  lemma BackspacePlace(s: Screen, start: Place)
    requires ScreenOk(s, start) && s.items != []
    ensures var last, r := s.items[|s.items| - 1], Backspace(s);
            if last.yOffset != 0 then s.x == 0 && r.y + 1 == s.y && r.x + last.xOffset == SCREEN_WIDTH
            else r.y == s.y && r.x + last.xOffset == s.x
  {
    hide Minus;
    BackspaceKeepsOk(s, start);
    var last := s.items[|s.items| - 1];
    assert 1 <= last.xOffset <= TAB_WIDTH && last.yOffset <= 1;
    MinusIsExact(SCREEN_WIDTH, last.xOffset);
    MinusIsExact(s.x, last.xOffset);
    MinusIsExact(s.y, 1);
    if last.yOffset == 0 {
      ChainStart(s.items[..|s.items| - 1], Place(s.x - last.xOffset, s.y + s.scrolls));
    }
  }

  lemma ChainStart(items: seq<Item>, at: Place)
    requires Chain(items, at)
    ensures 0 <= at.x < SCREEN_WIDTH
  {
  }

  // Taking back everything: the cursor is in its first column again, and on its
  // first row less the lines that scrolled away in between.
  function BackspaceN(s: Screen, n: nat): Screen {
    if n == 0 then s else Backspace(BackspaceN(s, n - 1))
  }

  lemma {:induction false} BackspaceNKeepsOk(s: Screen, start: Place, n: nat)
    requires ScreenOk(s, start) && n <= |s.items|
    ensures var r := BackspaceN(s, n);
            ScreenOk(r, start) && |r.items| == |s.items| - n && r.scrolls == s.scrolls
  {
    if n > 0 {
      BackspaceNKeepsOk(s, start, n - 1);
      BackspaceKeepsOk(BackspaceN(s, n - 1), start);
    }
  }

  lemma ErasingReturnsToStart(s: Screen, start: Place)
    requires ScreenOk(s, start)
    ensures var r := BackspaceN(s, |s.items|);
            r.items == [] && r.x == start.x && r.y == start.line - s.scrolls && r.scrolls == s.scrolls
  {
    BackspaceNKeepsOk(s, start, |s.items|);
  }

  // ----- The text of the line -----

  // What the keys since the buffer was last empty come to: text.
  datatype Key = Char(c: nat) | TabKey | BackspaceKey

  function Edited(text: seq<nat>, key: Key): seq<nat> {
    match key
    case Char(c) => if |text| < TERM_BUFFER_SIZE - 1 then text + [c] else text
    case TabKey => if |text| < TERM_BUFFER_SIZE - 1 then text + [TAB] else text
    case BackspaceKey => if text == [] then [] else text[..|text| - 1]
  }

  function Text(keys: seq<Key>): seq<nat> {
    if keys == [] then [] else Edited(Text(keys[..|keys| - 1]), keys[|keys| - 1])
  }

  function Press(s: Screen, key: Key): Screen {
    match key
    case Char(c) => TypeChar(s, c)
    case TabKey => TypeTab(s)
    case BackspaceKey => Backspace(s)
  }

  function PressAll(s: Screen, keys: seq<Key>): Screen {
    if keys == [] then s else Press(PressAll(s, keys[..|keys| - 1]), keys[|keys| - 1])
  }

  lemma {:induction false} BufferIsText(s: Screen, keys: seq<Key>)
    requires s.items == []
    ensures CharsOf(PressAll(s, keys).items) == Text(keys)
  {
    hide Advance;
    if keys != [] {
      BufferIsText(s, keys[..|keys| - 1]);
      PressIsEdited(PressAll(s, keys[..|keys| - 1]), keys[|keys| - 1]);
    }
  }

  lemma {:induction false} PressAllKeepsOk(s: Screen, keys: seq<Key>, start: Place)
    requires ScreenOk(s, start)
    ensures ScreenOk(PressAll(s, keys), start)
  {
    hide ScreenOk;
    hide Advance;
    hide Backspace;
    if keys != [] {
      var key := keys[|keys| - 1];
      PressAllKeepsOk(s, keys[..|keys| - 1], start);
      EditingKeepsOk(PressAll(s, keys[..|keys| - 1]), if key.Char? then key.c else 0, start);
    }
  }

  // Editing can be undone.  Since the buffer was last empty, whatever mix of
  // characters, tabs and backspaces came, erasing what is left puts the cursor
  // back in the column where it was then, and on the row where it was less the
  // lines that have scrolled away in between.
  lemma EditingCanBeUndone(s: Screen, keys: seq<Key>)
    requires s.items == [] && s.x < SCREEN_WIDTH && s.y < SCREEN_HEIGHT
    ensures var t := PressAll(s, keys);
            var r := BackspaceN(t, |t.items|);
            && t.x < SCREEN_WIDTH && t.y < SCREEN_HEIGHT
            && r.items == [] && r.x == s.x && r.y + r.scrolls == s.y + s.scrolls && r.scrolls == t.scrolls
  {
    hide PressAll;
    hide BackspaceN;
    EmptyIsOk(s);
    PressAllKeepsOk(s, keys, Cursor(s));
    ErasingReturnsToStart(PressAll(s, keys), Cursor(s));
  }

  lemma PressIsEdited(s: Screen, key: Key)
    ensures CharsOf(Press(s, key).items) == Edited(CharsOf(s.items), key)
  {
    hide Minus;
  }

  // A reader waiting for len bytes gets, on Enter, the first len bytes of the
  // edited text and the newline.
  lemma ReaderGetsLine(s: Screen, keys: seq<Key>, r: Reader, junk: Item)
    requires s.items == [] && r.hasBuffer
    ensures var line := Text(keys) + [NEWLINE];
            Enter(Term(PressAll(s, keys), Some(r)), junk).delivered
            == Some(if r.len < |line| then line[..r.len] else line)
  {
    BufferIsText(s, keys);
    var items := PressAll(s, keys).items + [junk.(c := NEWLINE)];
    var line := Text(keys) + [NEWLINE];
    assert CharsOf(items) == line;
    if r.len < |line| {
      assert CharsOf(items[..r.len]) == line[..r.len];
    }
  }

  // A reader that finds enough typed gets its bytes at once and the buffer is
  // emptied; else it waits, and nothing else changes.
  lemma ReadsWhatIsTyped(s: Screen, keys: seq<Key>, waiting: Option<Reader>, r: Reader)
    requires s.items == [] && r.hasBuffer
    ensures var t := Term(PressAll(s, keys), waiting);
            Read(t, r) ==
            if |Text(keys)| < r.len then ReadResult(Term(t.screen, Some(r)), None)
            else ReadResult(Term(t.screen.(items := []), waiting), Some(Text(keys)[..r.len]))
  {
    BufferIsText(s, keys);
    var items := PressAll(s, keys).items;
    assert CharsOf(items) == Text(keys);
    if r.len <= |items| {
      assert CharsOf(items[..r.len]) == Text(keys)[..r.len];
    }
    if r.len == |items| {
      assert Text(keys)[..r.len] == Text(keys);
    }
  }

  // ----- Runs -----

  datatype Event =
    | Pressed(key: Key)
    | Entering(junk: Item)
    | ClearScreen
    | Printing(c: nat)
    | Reading(r: Reader)
    | Disowned

  function Step(t: Term, e: Event): Term {
    match e
    case Pressed(key) => t.(screen := Press(t.screen, key))
    case Entering(junk) => Enter(t, junk).term
    case ClearScreen => t.(screen := Clear(t.screen))
    case Printing(c) => t.(screen := Print(t.screen, c))
    case Reading(r) => SysRead(t, r).term
    case Disowned => t.(waiting := None)
  }

  // No reader waits with a null buffer.
  ghost predicate Buffered(t: Term) {
    t.waiting.Some? ==> t.waiting.value.hasBuffer
  }

  ghost predicate TermOk(t: Term) {
    Buffered(t) && exists start :: ScreenOk(t.screen, start)
  }

  lemma EmptyIsOk(s: Screen)
    requires s.items == [] && s.x < SCREEN_WIDTH && s.y < SCREEN_HEIGHT
    ensures ScreenOk(s, Cursor(s))
  {
  }

  lemma {:induction false} PrintStaysInside(s: Screen, c: nat)
    requires s.x < SCREEN_WIDTH && s.y < SCREEN_HEIGHT
    ensures var r := Print(s, c);
            r.x < SCREEN_WIDTH && r.y < SCREEN_HEIGHT && r.items == [] && r.scrolls >= s.scrolls
  {
    TabStopIsNear(s.x);
  }

  // How far the cursor is in reading order.
  function Reached(s: Screen): nat {
    (s.y + s.scrolls) * SCREEN_WIDTH + s.x
  }

  // A printed character takes one place, a tab goes on to the next multiple of
  // four, a newline to the next line, and a null takes none, whether or not the
  // screen has to scroll.
  lemma PrintAdvances(s: Screen, c: nat)
    requires s.x < SCREEN_WIDTH && s.y < SCREEN_HEIGHT
    ensures var at, to := Reached(s), Reached(Print(s, c));
            to == if c == 0 then at
                  else if c == NEWLINE || c == RETURN then (at / SCREEN_WIDTH + 1) * SCREEN_WIDTH
                  else if c == TAB then at + TAB_WIDTH - at % TAB_WIDTH
                  else at + 1
  {
    TabStopIsNear(s.x);
    assert Reached(s) / SCREEN_WIDTH == s.y + s.scrolls;
    assert Reached(s) % TAB_WIDTH == s.x % TAB_WIDTH;
  }

  // Typing moves the cursor on in the same way, while there is room in the
  // buffer; a backspace after it takes that back.
  lemma KeysAdvance(s: Screen, c: nat)
    requires s.x < SCREEN_WIDTH && s.y < SCREEN_HEIGHT
    ensures var at := Reached(s);
            if |s.items| < 127
            then Reached(TypeChar(s, c)) == at + 1 && Reached(TypeTab(s)) == at + 4 - at % 4
            else TypeChar(s, c) == TypeTab(s) == s
    ensures |s.items| < 127 ==> TakenBack(s, Backspace(TypeChar(s, c))) && TakenBack(s, Backspace(TypeTab(s)))
  {
    TabStopIsNear(s.x);
    ReachedByFours(s);
    hide Reached;
    hide Advance;
    hide Backspace;
    hide TakenBack;
    if HasRoom(s) {
      AdvancedAndBack(s, c, s.x + 1);
      AdvancedAndBack(s, TAB, TabStop(s.x));
    }
  }

  lemma ReachedByFours(s: Screen)
    ensures Reached(s) % 4 == s.x % 4
  {
    var k := 20 * (s.y + s.scrolls);
    assert Reached(s) == 4 * k + s.x;
    hide Reached;
    FoursDropOut(k, s.x);
  }

  lemma FoursDropOut(k: nat, x: nat)
    ensures (4 * k + x) % 4 == x % 4
  {
    var q, r := x / 4, x % 4;
    assert 4 * k + x == 4 * (k + q) + r;
  }

  // The same line again, perhaps further up the screen.
  predicate TakenBack(s: Screen, r: Screen) {
    r.items == s.items && r.x == s.x && Reached(r) == Reached(s)
  }

  lemma AdvancedAndBack(s: Screen, c: nat, to: nat)
    requires s.x < to <= SCREEN_WIDTH && s.y < SCREEN_HEIGHT
    ensures Reached(Advance(s, c, to)) == Reached(s) + to - s.x && TakenBack(s, Backspace(Advance(s, c, to)))
  {
    hide Minus;
    MinusIsExact(SCREEN_WIDTH, s.x);
    MinusIsExact(SCREEN_WIDTH, SCREEN_WIDTH - s.x);
    MinusIsExact(to, s.x);
    MinusIsExact(to, to - s.x);
    MinusIsExact(LineDown(s).y, 1);
    var r := Advance(s, c, to);
    assert r.items[..|r.items| - 1] == s.items;
  }

  // Enter goes to the start of the next line, and nobody waits any more.
  lemma EnterGoesDown(t: Term, junk: Item)
    requires t.screen.x < SCREEN_WIDTH && t.screen.y < SCREEN_HEIGHT
    ensures var r := Enter(t, junk).term;
            && Reached(r.screen) == (Reached(t.screen) / SCREEN_WIDTH + 1) * SCREEN_WIDTH
            && r.screen.x == 0 && r.screen.y < SCREEN_HEIGHT && r.waiting == None
  {
    assert Reached(t.screen) / SCREEN_WIDTH == t.screen.y + t.screen.scrolls;
  }

  // ----- Printing text -----

  function PrintAll(s: Screen, text: seq<nat>): Screen {
    if text == [] then s else Print(PrintAll(s, text[..|text| - 1]), text[|text| - 1])
  }

  predicate Printable(c: nat) {
    c != 0 && c != NEWLINE && c != RETURN && c != TAB
  }

  // What printing puts on paper: the characters, by their place in reading order.
  function Ink(s: Screen, text: seq<nat>): map<nat, nat> {
    if text == [] then map[]
    else
      var front, c := text[..|text| - 1], text[|text| - 1];
      if Printable(c) then Ink(s, front)[Reached(PrintAll(s, front)) := c] else Ink(s, front)
  }

  lemma {:induction false} PrintAllStaysInside(s: Screen, text: seq<nat>)
    requires s.x < SCREEN_WIDTH && s.y < SCREEN_HEIGHT
    ensures PrintAll(s, text).x < SCREEN_WIDTH && PrintAll(s, text).y < SCREEN_HEIGHT
  {
    if text != [] {
      PrintAllStaysInside(s, text[..|text| - 1]);
      PrintStaysInside(PrintAll(s, text[..|text| - 1]), text[|text| - 1]);
    }
  }

  // Text without control characters stands on paper as it is.
  lemma {:induction false} PlainTextInOrder(s: Screen, text: seq<nat>)
    requires s.x < SCREEN_WIDTH && s.y < SCREEN_HEIGHT && forall i :: 0 <= i < |text| ==> Printable(text[i])
    ensures Reached(PrintAll(s, text)) == Reached(s) + |text|
    ensures forall at :: at in Ink(s, text) <==> Reached(s) <= at < Reached(s) + |text|
    ensures forall i :: 0 <= i < |text| ==> Ink(s, text)[Reached(s) + i] == text[i]
  {
    hide Reached;
    hide Print;
    if text != [] {
      var front := text[..|text| - 1];
      PlainTextInOrder(s, front);
      PrintAllStaysInside(s, front);
      PrintAdvances(PrintAll(s, front), text[|text| - 1]);
    }
  }

  lemma StepKeepsOk(t: Term, e: Event)
    requires TermOk(t)
    ensures TermOk(Step(t, e))
  {
    hide Chain;
    hide Items;
    hide Unwind;
    hide Wraps;
    var start :| ScreenOk(t.screen, start);
    var s := t.screen;
    assert ScreenOk(s, start);
    match e
    case Pressed(key) =>
      EditingKeepsOk(s, if key.Char? then key.c else 0, start);
      assert ScreenOk(Press(s, key), start);
    case Printing(c) =>
      PrintStaysInside(s, c);
      EmptyIsOk(Print(s, c));
    case Entering(junk) =>
      EmptyIsOk(LineDown(s).(items := []));
    case ClearScreen =>
      EmptyIsOk(Clear(s));
    case Reading(r) =>
      EmptyIsOk(s.(items := []));
    case Disowned =>
  }

  function Run(t: Term, events: seq<Event>): Term {
    if events == [] then t else Step(Run(t, events[..|events| - 1]), events[|events| - 1])
  }

  lemma BootIsOk()
    ensures TermOk(BOOT)
  {
    hide ScreenOk;
    hide Cursor;
    EmptyIsOk(BOOT.screen);
  }

  // Over every run from boot the cursor stays on the screen, the index at which
  // a key is stored stays inside the buffer, and no reader waits with a null
  // buffer, as the system call has refused it.
  lemma {:induction false} EveryRunIsOk(events: seq<Event>)
    ensures var t := Run(BOOT, events);
            && TermOk(t) && t.screen.x < SCREEN_WIDTH && t.screen.y < SCREEN_HEIGHT
            && |t.screen.items| < TERM_BUFFER_SIZE
  {
    hide ScreenOk;
    hide TermOk;
    hide Step;
    if events == [] {
      BootIsOk();
    } else {
      EveryRunIsOk(events[..|events| - 1]);
      StepKeepsOk(Run(BOOT, events[..|events| - 1]), events[|events| - 1]);
    }
    var start := Start(Run(BOOT, events));
    OnScreen(Run(BOOT, events).screen, start);
  }

  lemma Start(t: Term) returns (start: Place)
    requires TermOk(t)
    ensures ScreenOk(t.screen, start)
  {
    start :| ScreenOk(t.screen, start);
  }

  lemma OnScreen(s: Screen, start: Place)
    requires ScreenOk(s, start)
    ensures s.x < SCREEN_WIDTH && s.y < SCREEN_HEIGHT && |s.items| < TERM_BUFFER_SIZE
  {
  }

  // No event of a stretch empties the buffer: each is a key, or leaves the
  // screen alone, as a read that blocks does.
  ghost predicate NoReset(t: Term, events: seq<Event>) {
    events == []
    || (NoReset(t, events[..|events| - 1])
        && (events[|events| - 1].Pressed? || Run(t, events).screen == Run(t, events[..|events| - 1]).screen))
  }

  function KeysOf(events: seq<Event>): seq<Key> {
    if events == [] then []
    else
      var before, e := KeysOf(events[..|events| - 1]), events[|events| - 1];
      if e.Pressed? then before + [e.key] else before
  }

  lemma {:induction false} OnlyKeysMatter(t: Term, events: seq<Event>)
    requires NoReset(t, events)
    ensures Run(t, events).screen == PressAll(t.screen, KeysOf(events))
  {
    hide Press;
    if events != [] {
      var before, e := events[..|events| - 1], events[|events| - 1];
      OnlyKeysMatter(t, before);
      if e.Pressed? {
        assert (KeysOf(before) + [e.key])[..|KeysOf(before)|] == KeysOf(before);
      }
    }
  }

  // In every run from boot: where the buffer was empty and has not been emptied
  // since, erasing it brings the cursor back to where it was.
  lemma EveryLineCanBeUndone(before: seq<Event>, since: seq<Event>)
    requires Run(BOOT, before).screen.items == [] && NoReset(Run(BOOT, before), since)
    ensures var s, t := Run(BOOT, before).screen, Run(Run(BOOT, before), since).screen;
            var r := BackspaceN(t, |t.items|);
            r.items == [] && r.x == s.x && r.y + r.scrolls == s.y + s.scrolls && r.scrolls == t.scrolls
  {
    EveryRunIsOk(before);
    OnlyKeysMatter(Run(BOOT, before), since);
    EditingCanBeUndone(Run(BOOT, before).screen, KeysOf(since));
  }

  // ----- The terminal without the guard of the system call -----

  // Enter empties the buffer unless the reader it wakes has a null buffer; then
  // the line, and its newline, stay.
  lemma EnterEmptiesBuffer(t: Term, junk: Item)
    ensures Enter(t, junk).term.screen.items == [] <==> Buffered(t)
    ensures !Buffered(t) ==> |Enter(t, junk).term.screen.items| == |t.screen.items| + 1
  {
  }

  // The terminal itself relies on that guard: called with null buffers twice
  // on a full line, it would store a key behind its buffer.
  lemma NullReadersOverflow(keys: seq<Key>, junk: Item)
    requires |Text(keys)| == TERM_BUFFER_SIZE - 1
    ensures var typed := BOOT.(screen := PressAll(BOOT.screen, keys));
            var t := Enter(Read(typed, Reader(128, false)).term, junk).term;
            var u := Enter(Read(t, Reader(129, false)).term, junk).term;
            |u.screen.items| > TERM_BUFFER_SIZE
  {
    hide PressAll;
    hide Text;
    BufferIsText(BOOT.screen, keys);
  }

  // And a line can be full.
  lemma {:induction false} FullLine(n: nat)
    requires n < TERM_BUFFER_SIZE
    ensures |Text(seq(n, _ => Char(97)))| == n
  {
    if n > 0 {
      FullLine(n - 1);
      assert seq(n, _ => Char(97))[..n - 1] == seq(n - 1, _ => Char(97));
    }
  }
}
