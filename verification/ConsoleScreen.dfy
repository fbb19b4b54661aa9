/** The screen buffer and the cursor, updated in place. */
module ConsoleScreen {
  import opened Console

  class TextScreen {
    const width: nat
    const height: nat
    const buffer: array<nat>
    var cursor: nat
    /** What has been printed so far, on the tape. */
    ghost var tape: Tape

    ghost function View(): (c: Screen)
      reads this, buffer
    {
      Screen(buffer[..], cursor)
    }

    ghost predicate Fits()
      reads this, buffer
    {
      Shaped(width, height, View())
    }

    /** The screen is the window of the tape. */
    ghost predicate Valid()
      reads this, buffer
    {
      Fits() && Mirrors(width, height, View(), tape)
    }

    /** arch_printk_init on a text framebuffer. */
    constructor (width: nat, height: nat)
      requires width > 0 && height > 0
      ensures Valid() && this.width == width && this.height == height
      ensures View() == BlankScreen(width, height) && tape == Tape(map[], 0, 0, 0)
      ensures fresh(buffer)
    {
      this.width, this.height := width, height;
      buffer := new nat[width * height](_ => CharEntry(0));
      cursor := 0;
      tape := Tape(map[], 0, 0, 0);
      new;
      BlankMirrors(width, height);
      MirrorsShaped(width, height, BlankScreen(width, height), tape);
      assert View() == BlankScreen(width, height);
    }

    method SetCursorPos(x: nat, y: nat)
      modifies this`cursor
      ensures cursor == Index(width, y, x) % CURSOR_LIMIT
    {
      cursor := (y * width + x) % CURSOR_LIMIT;
    }

    method ClearScreen()
      requires buffer.Length == width * height
      modifies this`cursor, buffer
      ensures View() == BlankScreen(width, height)
    {
      for i := 0 to width * height
        invariant forall j :: 0 <= j < i ==> buffer[j] == CharEntry(0)
      {
        buffer[i] := CharEntry(0);
      }
      SetCursorPos(0, 0);
      assert buffer[..] == BlankScreen(width, height).cells;
    }

    /** Every cell takes the value of the one a row below; the last row becomes blank. */
    method MoveUp()
      requires width > 0 && height > 0 && buffer.Length == width * height
      modifies buffer
      ensures forall j :: 0 <= j < buffer.Length ==>
        buffer[j] == if j + width < buffer.Length then old(buffer[j + width]) else CharEntry(0)
    {
      assert (height - 1) * width + width == width * height;
      for i := 0 to height - 1
        invariant i * width + width <= buffer.Length
        invariant forall j :: 0 <= j < i * width ==> buffer[j] == old(buffer[j + width])
        invariant forall j :: i * width <= j < buffer.Length ==> buffer[j] == old(buffer[j])
      {
        RowsApart(width, i + 1, height);
        assert (i + 1) * width == i * width + width;
        var at := i * width;
        for t := 0 to width
          invariant forall j :: 0 <= j < at + t ==> buffer[j] == old(buffer[j + width])
          invariant forall j :: at + t <= j < buffer.Length ==> buffer[j] == old(buffer[j])
        {
          buffer[i * width + t] := buffer[(i + 1) * width + t];
        }
      }
      var at := (height - 1) * width;
      for i := 0 to width
        invariant forall j :: 0 <= j < at ==> buffer[j] == old(buffer[j + width])
        invariant forall j :: at <= j < at + i ==> buffer[j] == CharEntry(0)
      {
        buffer[(height - 1) * width + i] := CharEntry(0);
      }
    }

    method Scroll()
      requires width > 0 && height > 0 && buffer.Length == width * height && width * height <= cursor < CURSOR_LIMIT
      modifies this`cursor, buffer
      ensures View() == Screen(MovedUp(old(buffer[..]), width), old(cursor) - width)
    {
      MoveUp();
      assert buffer[..] == MovedUp(old(buffer[..]), width);
      UpOneRow(width, height, cursor);
      SetCursorPos(cursor % width, cursor / width - 1);
    }

    /** The cases of the switch that only move the cursor. */
    method Move(ch: Byte)
      requires width > 0 && cursor < CURSOR_LIMIT && !Printable(ch) && ch != FORMFEED
      modifies this`cursor
      ensures cursor == CursorAfter(width, old(cursor), ch) % CURSOR_LIMIT
    {
      if ch == BACKSPACE {
        if cursor > 0 {
          cursor := cursor - 1;
        }
      } else if ch == TAB {
        cursor := (cursor + TAB_SIZE) % CURSOR_LIMIT;
      } else if ch == NEWLINE {
        SetCursorPos(0, cursor / width + 1);
      } else if ch == VTAB {
        SetCursorPos(cursor % width, cursor / width + 1);
      } else if ch == RETURN {
        SetCursorPos(0, cursor / width);
      }
    }

    /** The switch on one character: one that is printed goes into the cell under the cursor, white on black. */
    method Put(ch: Byte)
      requires Fits()
      modifies this`cursor, buffer
      ensures View() == Typed(width, height, old(View()), ch)
      ensures Printable(ch) ==> Holds(buffer[old(cursor)], ch, WHITE, BLACK)
    {
      EntryMeans(ch);
      if Printable(ch) {
        buffer[cursor] := CharEntry(ch);
        cursor := (cursor + 1) % CURSOR_LIMIT;
      } else if ch == FORMFEED {
        ClearScreen();
      } else {
        Move(ch);
      }
    }

    /** scrollRep: scrolls until the cursor is on the screen. */
    method ScrollIntoView()
      requires width > 0 && height > 0 && buffer.Length == width * height && cursor < CURSOR_LIMIT
      modifies this`cursor, buffer
      ensures View() == Scrolled(width, height, old(View()))
    {
      RowsApart(width, 1, height);
      while cursor >= width * height
        invariant cursor < CURSOR_LIMIT
        invariant Scrolled(width, height, View()) == Scrolled(width, height, old(View()))
        decreases cursor
      {
        Scroll();
      }
    }

    /** The loop of arch_print. */
    method PrintAll(str: seq<Byte>)
      requires Fits()
      modifies this`cursor, buffer
      ensures Fits() && View() == Printed(width, height, old(View()), str)
    {
      var i := 0;
      while i < |str|
        invariant 0 <= i <= |str| && Fits()
        invariant Printed(width, height, View(), str[i..]) == Printed(width, height, old(View()), str)
      {
        if str[i] == 0 {
          // The cursor is on the screen, so the scroll loop after the switch does nothing.
          PrintedStops(width, height, View(), str[i..]);
          return;
        }
        PrintedOne(width, height, View(), str, i);
        Put(str[i]);
        ScrollIntoView();
        i := i + 1;
      }
      PrintedStops(width, height, View(), str[i..]);
    }

    /** Line 126: the cursor is set to where it is. */
    method ShowCursor()
      requires width > 0 && cursor < CURSOR_LIMIT
      modifies this`cursor
      ensures cursor == old(cursor)
    {
      CellRow(width, cursor);
      SetCursorPos(cursor % width, cursor / width);
    }

    /** On every screen the buffer and the cursor become what the specification says; on screens on which the cursor
        cannot wrap they stay the window of the tape. */
    method ArchPrint(str: seq<Byte>)
      requires Fits()
      modifies this, buffer
      ensures Fits() && View() == Printed(width, height, old(View()), str)
      ensures old(Valid()) && CursorFits(width, height) ==> Valid() && tape == Print(old(tape), width, height, str)
    {
      ghost var c, t := View(), tape;
      PrintAll(str);
      ShowCursor();
      if Mirrors(width, height, c, t) && CursorFits(width, height) {
        PrintedMirrors(width, height, c, t, str);
      }
      tape := Print(t, width, height, str);
    }
  }

  lemma PrintedStops(w: nat, h: nat, c: Screen, s: seq<Byte>)
    requires Shaped(w, h, c) && (s == [] || s[0] == 0)
    ensures Printed(w, h, c, s) == c
  {
  }

  lemma UpOneRow(w: nat, h: nat, cursor: nat)
    requires w > 0 && h > 0 && w * h <= cursor
    ensures cursor / w > 0 && Index(w, cursor / w - 1, cursor % w) == cursor - w
  {
    RowsApart(w, 1, h);
    CellRow(w, cursor);
    UpOne(w, cursor / w, cursor % w);
  }

  lemma PrintedOne(w: nat, h: nat, c: Screen, s: seq<Byte>, i: nat)
    requires Shaped(w, h, c) && i < |s| && s[i] != 0
    ensures Printed(w, h, c, s[i..]) == Printed(w, h, Scrolled(w, h, Typed(w, h, c, s[i])), s[i + 1..])
  {
    assert s[i..][1..] == s[i + 1..];
  }
}
