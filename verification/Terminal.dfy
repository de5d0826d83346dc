// The terminal of drivers/terminal.cpp, with the text painter of
// drivers/txtmode.cpp that it draws through, proved against LineEditor.
module Terminal {
  import opened Common
  import opened LineEditor

  const BLANK: nat := 32
  const CELLS: nat := SCREEN_WIDTH * SCREEN_HEIGHT

  function Cell(x: nat, y: nat): nat {
    SCREEN_WIDTH * y + x
  }

  class TextModePainter {
    const cells: array<nat>
    ghost var scrolls: nat

    ghost predicate Valid() {
      cells.Length == CELLS
    }

    constructor ()
      ensures Valid() && fresh(cells) && scrolls == 0 && forall k :: 0 <= k < CELLS ==> cells[k] == BLANK
    {
      cells := new nat[CELLS](_ => BLANK);
      scrolls := 0;
    }

    method ShowChar(x: nat, y: nat, c: nat)
      requires Valid() && x < SCREEN_WIDTH && y < SCREEN_HEIGHT
      modifies cells
      ensures cells[..] == old(cells[..])[Cell(x, y) := c]
    {
      cells[SCREEN_WIDTH * y + x] := c;
    }

    method ScrollDown()
      requires Valid()
      modifies this, cells
      ensures scrolls == old(scrolls) + 1
      ensures forall k :: 0 <= k < CELLS ==>
                cells[k] == if k + SCREEN_WIDTH < CELLS then old(cells[k + SCREEN_WIDTH]) else BLANK
    {
      forall k | 0 <= k < CELLS {
        cells[k] := if k + SCREEN_WIDTH < CELLS then cells[k + SCREEN_WIDTH] else BLANK;
      }
      scrolls := scrolls + 1;
    }

    method ClearLine(y: nat)
      requires Valid() && y < SCREEN_HEIGHT
      modifies cells
      ensures forall k :: 0 <= k < CELLS ==>
                cells[k] == if Cell(0, y) <= k < Cell(0, y + 1) then BLANK else old(cells[k])
    {
      forall k | Cell(0, y) <= k < Cell(0, y + 1) {
        cells[k] := BLANK;
      }
    }

    method ClearScreen()
      requires Valid()
      modifies cells
      ensures forall k :: 0 <= k < CELLS ==> cells[k] == BLANK
    {
      forall k | 0 <= k < CELLS {
        cells[k] := BLANK;
      }
    }
  }

  type int32 = n: int | -0x8000_0000 <= n < 0x8000_0000

  // The caller's buffer holds what a read can give it: its count of bytes, or a
  // whole line if it asks for more.
  predicate Fits(nbytes: int32, buffer: array<nat>) {
    Min(AsSize(nbytes), TERM_BUFFER_SIZE) <= buffer.Length
  }

  datatype ReadOutcome = Refused | NotOwner | Blocked | Delivered(n: int)

  const EFOPS: int := 1

  class Term {
    const painter: TextModePainter
    const termBuf: array<Item>
    var nextCharX: nat
    var nextCharY: nat
    var termBufPos: nat
    var ownedByPid: int
    var userWaitingRead: bool
    var userWaitingBuffer: array?<nat>
    var userWaitingLen: int32

    ghost predicate Valid()
      reads this
    {
      painter.Valid() && termBuf.Length == TERM_BUFFER_SIZE && termBufPos <= TERM_BUFFER_SIZE
    }

    ghost function Screen(): Screen
      requires Valid()
      reads this, painter, termBuf
    {
      LineEditor.Screen(nextCharX, nextCharY, painter.scrolls, termBuf[..termBufPos])
    }

    ghost function View(): LineEditor.Term
      requires Valid()
      reads this, painter, termBuf
    {
      LineEditor.Term(
        Screen(), if userWaitingRead then Some(Reader(AsSize(userWaitingLen), userWaitingBuffer != null)) else None)
    }

    // What stands on paper at a place in reading order, as far as the screen
    // shows it; lines not yet reached are blank.
    ghost function Shown(at: nat): nat
      requires Valid()
      reads this, painter, painter.cells
    {
      if Gone(at) || ToCome(at) then BLANK else painter.cells[at - SCREEN_WIDTH * painter.scrolls]
    }

    // Above the top of the screen, and below it.
    ghost predicate Gone(at: nat)
      reads this, painter
    {
      at < SCREEN_WIDTH * painter.scrolls
    }

    ghost predicate ToCome(at: nat)
      reads this, painter
    {
      at >= SCREEN_WIDTH * painter.scrolls + CELLS
    }

    // The line as the editor keeps it.
    ghost predicate InOrder()
      requires Valid()
      reads this, painter, termBuf
    {
      exists start :: ScreenOk(Screen(), start)
    }

    constructor ()
      ensures Valid() && View() == LineEditor.Term(LineEditor.Screen(0, 0, 0, []), None) && InOrder()
      ensures forall at: nat :: Shown(at) == BLANK
    {
      painter := new TextModePainter();
      termBuf := new Item[TERM_BUFFER_SIZE](_ => Item(0, 0, 0));
      nextCharX, nextCharY, termBufPos := 0, 0, 0;
      ownedByPid := -1;
      userWaitingRead := false;
      userWaitingBuffer := null;
      userWaitingLen := -1;
      new;
      EmptyIsOk(Screen());
    }

    method NewLine()
      requires Valid()
      modifies this`nextCharX, this`nextCharY, painter, painter.cells
      ensures Valid() && Screen() == LineDown(old(Screen()))
      ensures forall at: nat :: !Gone(at) ==> Shown(at) == old(Shown(at))
    {
      nextCharX := 0;
      if nextCharY < SCREEN_HEIGHT - 1 {
        nextCharY := nextCharY + 1;
      } else {
        painter.ScrollDown();
      }
    }

    // Moves the cursor to a column, or to the next line, and records the key.
    method AdvanceTo(c: nat, to: nat)
      requires Valid() && termBufPos < TERM_BUFFER_SIZE - 1
      modifies this`nextCharX, this`nextCharY, this`termBufPos, termBuf, painter, painter.cells
      ensures Valid() && Screen() == Advance(old(Screen()), c, to)
      ensures forall at: nat :: !Gone(at) ==> Shown(at) == old(Shown(at))
    {
      var oldX := nextCharX;
      ghost var items := termBuf[..termBufPos];
      var rec;
      if to >= SCREEN_WIDTH {
        rec := Item(c, Minus(SCREEN_WIDTH, oldX), 1);
        NewLine();
      } else {
        rec := Item(c, Minus(to, oldX), 0);
        nextCharX := to;
      }
      termBuf[termBufPos] := rec;
      termBufPos := termBufPos + 1;
      assert termBuf[..termBufPos] == items + [rec];
    }

    // The part of key that handles a printable character.
    method KeyChar(c: nat)
      requires Valid() && InOrder()
      modifies this`nextCharX, this`nextCharY, this`termBufPos, termBuf, painter, painter.cells
      ensures Valid() && Screen() == TypeChar(old(Screen()), c) && InOrder()
      ensures forall at: nat :: !Gone(at) ==>
                Shown(at) == if HasRoom(old(Screen())) && at == Reached(old(Screen())) then c else old(Shown(at))
    {
      hide Advance;
      hide ScreenOk;
      ghost var start := Start();
      EditingKeepsOk(Screen(), c, start);
      OnScreen(Screen(), start);
      if termBufPos < TERM_BUFFER_SIZE - 1 {
        painter.ShowChar(nextCharX, nextCharY, c);
        AdvanceTo(c, nextCharX + 1);
      }
    }

    lemma Start() returns (start: Place)
      requires Valid() && InOrder()
      ensures ScreenOk(Screen(), start)
    {
      start :| ScreenOk(Screen(), start);
    }

    method TabHandler()
      requires Valid() && InOrder()
      modifies this`nextCharX, this`nextCharY, this`termBufPos, termBuf, painter, painter.cells
      ensures Valid() && Screen() == TypeTab(old(Screen())) && InOrder()
      ensures forall at: nat :: !Gone(at) ==> Shown(at) == old(Shown(at))
    {
      hide Advance;
      hide ScreenOk;
      ghost var start := Start();
      EditingKeepsOk(Screen(), 0, start);
      if termBufPos >= TERM_BUFFER_SIZE - 1 {
        return;
      }
      AdvanceTo(TAB, TabStop(nextCharX));
    }

    method BackspaceHandler()
      requires Valid() && InOrder()
      modifies this`nextCharX, this`nextCharY, this`termBufPos, painter.cells
      ensures Valid() && Screen() == Backspace(old(Screen())) && InOrder()
      // Blank is what lies between the two cursors, and a line that is left.
      ensures var was, now := old(Screen()), Screen();
              var left := if now.y < was.y then SCREEN_WIDTH else 1;
              forall at: nat :: !Gone(at) ==>
                Shown(at) == if was.items != [] && Reached(now) <= at < Reached(was) + left then BLANK
                             else old(Shown(at))
    {
      hide ScreenOk;
      hide Minus;
      ghost var start := Start();
      EditingKeepsOk(Screen(), 0, start);
      if termBufPos == 0 {
        return;
      }
      ghost var was := Screen();
      BackspacePlace(was, start);
      OnScreen(was, start);
      OnScreen(Backspace(was), start);
      var i := termBuf[termBufPos - 1];
      assert was.items[|was.items| - 1] == i && was.items[..|was.items| - 1] == termBuf[..termBufPos - 1];
      var origX := nextCharX;
      if i.yOffset != 0 {
        painter.ClearLine(nextCharY);
        nextCharY := Minus(nextCharY, 1);
        nextCharX := Minus(SCREEN_WIDTH, i.xOffset);
        Blank(nextCharX, SCREEN_WIDTH - 1, nextCharY);
      } else {
        nextCharX := Minus(origX, i.xOffset);
        Blank(nextCharX, origX, nextCharY);
      }
      termBufPos := termBufPos - 1;
    }

    // Draws blanks over the columns from x up to and with `to`.
    method Blank(x: nat, to: nat, y: nat)
      requires painter.Valid() && to < SCREEN_WIDTH && y < SCREEN_HEIGHT
      modifies painter.cells
      ensures forall k :: 0 <= k < CELLS ==>
                painter.cells[k] == if Cell(x, y) <= k <= Cell(to, y) then BLANK else old(painter.cells[k])
    {
      var j := x;
      while j <= to
        invariant x <= j && (j <= to + 1 || j == x)
        invariant forall k :: 0 <= k < CELLS ==>
                    painter.cells[k] == if Cell(x, y) <= k < Cell(j, y) then BLANK else old(painter.cells[k])
      {
        painter.ShowChar(j, y, BLANK);
        j := j + 1;
      }
    }

    // Enter: a waiting reader gets the line; its result is n.
    method EnterHandler(junk: Item) returns (woken: bool, n: int)
      requires Valid() && termBufPos < TERM_BUFFER_SIZE
      requires userWaitingRead && userWaitingBuffer != null ==>
                 Fits(userWaitingLen, userWaitingBuffer) && userWaitingBuffer != painter.cells
      modifies this, termBuf, painter, painter.cells, if userWaitingRead then userWaitingBuffer else null
      ensures Valid() && woken == old(userWaitingRead)
      ensures View() == Enter(old(View()), junk).term
      ensures forall at: nat :: !Gone(at) ==> Shown(at) == old(Shown(at))
      ensures match Enter(old(View()), junk).delivered
              case Some(line) => n == |line| <= AsSize(old(userWaitingLen))
                                 && old(userWaitingBuffer) != null && old(userWaitingBuffer)[..|line|] == line
              case None => woken ==> n == -EFOPS
    {
      ghost var was, items := View(), termBuf[..termBufPos];
      NewLine();
      termBuf[termBufPos] := junk.(c := NEWLINE);
      termBufPos := termBufPos + 1;
      assert termBuf[..termBufPos] == items + [junk.(c := NEWLINE)];
      woken, n := userWaitingRead, 0;
      if userWaitingRead {
        userWaitingRead := false;
        n := HelpFinishRead(userWaitingBuffer, userWaitingLen);
      } else {
        termBufPos := 0;
      }
    }

    // Copies out the first characters and empties the buffer; a null buffer is
    // refused before that.
    method HelpFinishRead(buffer: array?<nat>, nbytes: int32) returns (n: int)
      requires Valid() && (buffer != null ==> Fits(nbytes, buffer))
      modifies this`termBufPos, buffer
      ensures Valid()
      ensures buffer == null ==> n == -EFOPS && termBufPos == old(termBufPos)
      ensures buffer != null ==>
                termBufPos == 0 && var line := FirstChars(old(termBuf[..termBufPos]), AsSize(nbytes));
                n == |line| <= AsSize(nbytes) && buffer[..|line|] == line
    {
      if buffer == null {
        return -EFOPS;
      }
      var copylen := if AsSize(nbytes) < termBufPos then AsSize(nbytes) else termBufPos;
      termBufPos := 0;
      var i := 0;
      while i < copylen
        invariant i <= copylen && termBufPos == 0
        invariant forall k :: 0 <= k < i ==> buffer[k] == termBuf[k].c
      {
        buffer[i] := termBuf[i].c;
        i := i + 1;
      }
      n := i;
    }

    // The first reader becomes the owner; others are refused.
    method ReadLine(buffer: array?<nat>, nbytes: int32, pid: nat) returns (r: ReadOutcome)
      requires Valid() && (buffer != null ==> Fits(nbytes, buffer))
      modifies this, buffer
      ensures Valid()
      ensures old(ownedByPid) != -1 && old(ownedByPid) != pid ==> r == NotOwner && View() == old(View())
      ensures old(ownedByPid) == -1 || old(ownedByPid) == pid ==>
                var asked := Reader(AsSize(nbytes), buffer != null);
                var was := if old(ownedByPid) == -1 then old(View()).(waiting := None) else old(View());
                && ownedByPid == pid && View() == LineEditor.Read(was, asked).term
                && (r == Blocked <==> |old(Screen()).items| < AsSize(nbytes))
                && match LineEditor.Read(was, asked).delivered
                   case Some(line) => r == Delivered(|line|) && buffer != null && buffer[..|line|] == line
                   case None => r == Blocked || r == Delivered(-EFOPS)
    {
      if ownedByPid == -1 {
        ownedByPid := pid;
        userWaitingRead := false;
      } else if ownedByPid != pid {
        return NotOwner;
      }
      if termBufPos < AsSize(nbytes) {
        userWaitingRead := true;
        userWaitingBuffer := buffer;
        userWaitingLen := nbytes;
        return Blocked;
      }
      var n := HelpFinishRead(buffer, nbytes);
      r := Delivered(n);
    }

    // The read system call: a null buffer never gets to the terminal, so no
    // reader waits with one.
    method SysRead(buffer: array?<nat>, nbytes: int32, pid: nat) returns (r: ReadOutcome)
      requires Valid() && (buffer != null ==> Fits(nbytes, buffer)) && Buffered(View())
      modifies this, buffer
      ensures Valid() && Buffered(View()) && (r == Refused <==> buffer == null)
      ensures r == Refused || (old(ownedByPid) != -1 && old(ownedByPid) != pid) ==> View() == old(View())
      ensures buffer != null && old(ownedByPid) == pid ==>
                View() == LineEditor.SysRead(old(View()), Reader(AsSize(nbytes), true)).term
    {
      if buffer == null {
        return Refused;
      }
      r := ReadLine(buffer, nbytes, pid);
    }

    method Putc(c: nat)
      requires Valid() && nextCharX < SCREEN_WIDTH && nextCharY < SCREEN_HEIGHT
      modifies this`nextCharX, this`nextCharY, this`termBufPos, painter, painter.cells
      ensures Valid() && Screen() == Print(old(Screen()), c) && InOrder()
      ensures forall at: nat :: !Gone(at) ==>
                Shown(at) == if Printable(c) && at == Reached(old(Screen())) then c else old(Shown(at))
    {
      PrintStaysInside(Screen(), c);
      EmptyIsOk(Print(Screen(), c));
      termBufPos := 0;
      if c == 0 {
      } else if c == NEWLINE || c == RETURN {
        NewLine();
      } else if c == TAB {
        var to := TabStop(nextCharX);
        if to >= SCREEN_WIDTH {
          NewLine();
          nextCharX := to % SCREEN_WIDTH;
        } else {
          nextCharX := to;
        }
      } else {
        painter.ShowChar(nextCharX, nextCharY, c);
        nextCharX := nextCharX + 1;
        if nextCharX == SCREEN_WIDTH {
          NewLine();
        }
      }
    }

    // The write system call: prints up to a null or the count of bytes, and
    // returns how many were printed.
    method Write(buf: seq<nat>, nbytes: int32) returns (n: int)
      requires Valid() && nextCharX < SCREEN_WIDTH && nextCharY < SCREEN_HEIGHT && nbytes <= |buf|
      modifies this`nextCharX, this`nextCharY, this`termBufPos, painter, painter.cells
      ensures Valid()
      ensures nbytes < 0 ==> n == nbytes && Screen() == old(Screen())
      ensures nbytes >= 0 ==>
                && 0 <= n <= nbytes && 0 !in buf[..n] && (n < nbytes ==> buf[n] == 0)
                && Screen() == PrintAll(old(Screen()), buf[..n])
      ensures forall at: nat :: !Gone(at) ==>
                Shown(at) == var ink := Ink(old(Screen()), if n < 0 then [] else buf[..n]);
                             if at in ink then ink[at] else old(Shown(at))
    {
      hide Print;
      ghost var s := Screen();
      var i := 0;
      while i < nbytes
        invariant 0 <= i && (i <= nbytes || i == 0) && Valid() && 0 !in buf[..i]
        invariant Screen() == PrintAll(s, buf[..i])
        invariant forall at: nat :: !Gone(at) ==>
                    Shown(at) == if at in Ink(s, buf[..i]) then Ink(s, buf[..i])[at] else old(Shown(at))
      {
        PrintAllStaysInside(s, buf[..i]);
        if buf[i] == 0 {
          return i;
        }
        assert buf[..i + 1][..i] == buf[..i];
        PrintStaysInside(Screen(), buf[i]);
        Putc(buf[i]);
        i := i + 1;
      }
      n := nbytes;
    }

    // Ctrl-L and cls.
    method ClearAll()
      requires Valid()
      modifies this`nextCharX, this`nextCharY, this`termBufPos, painter.cells
      ensures Valid() && Screen() == Clear(old(Screen())) && InOrder()
      ensures nextCharX == nextCharY == termBufPos == 0 && forall at: nat :: Shown(at) == BLANK
    {
      nextCharX, nextCharY := 0, 0;
      termBufPos := 0;
      painter.ClearScreen();
      EmptyIsOk(Screen());
    }

    method SetOwner(upid: int)
      requires Valid()
      modifies this
      ensures Valid() && ownedByPid == upid && View() == old(View()).(waiting := None)
    {
      ownedByPid := upid;
      userWaitingRead := false;
      userWaitingBuffer := null;
      userWaitingLen := -1;
    }
  }
}
