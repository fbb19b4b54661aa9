/** The text console: a screen of width x height cells and a 16-bit cursor, as the window onto an
    unbounded tape of rows. */
module Console {

  type Byte = x: nat | x < 256

  const BACKSPACE: Byte := 8
  const TAB: Byte := 9
  const NEWLINE: Byte := 10
  const VTAB: Byte := 11
  const FORMFEED: Byte := 12
  const RETURN: Byte := 13
  const TAB_SIZE: nat := 4
  const CURSOR_LIMIT: nat := 0x1_0000

  /** fore_color and back_color, which are never changed. */
  const WHITE: nat := 15
  const BLACK: nat := 0

  function CharEntry(ch: Byte): nat
  {
    (BLACK * 16 + WHITE) * 256 + ch
  }

  /** A cell of 16 bits: the character, four bits of foreground colour, four bits of background colour. */
  predicate Holds(cell: nat, ch: Byte, fore: nat, back: nat)
  {
    cell % 256 == ch && cell / 256 % 16 == fore && cell / 4096 == back
  }

  /** Every entry is white on black. */
  lemma EntryMeans(ch: Byte)
    ensures Holds(CharEntry(ch), ch, 15, 0)
  {
  }

  predicate Printable(ch: Byte)
  {
    32 <= ch <= 126
  }

  // ---------------------------------------------------------------- the tape

  /** Rows without end; the screen shows those from top on. Cells never written are blank. */
  datatype Tape = Tape(cells: map<(nat, nat), nat>, top: nat, row: nat, col: nat)

  function CellAt(t: Tape, row: nat, col: nat): nat
  {
    if (row, col) in t.cells then t.cells[(row, col)] else CharEntry(0)
  }

  function Forward(t: Tape, w: nat, n: nat): Tape
    requires w > 0
  {
    t.(row := t.row + (t.col + n) / w, col := (t.col + n) % w)
  }

  /** What one character does to the tape and the position on it. */
  function Feed(t: Tape, w: nat, ch: Byte): Tape
    requires w > 0
  {
    if Printable(ch) then Forward(t.(cells := t.cells[(t.row, t.col) := CharEntry(ch)]), w, 1)
    else if ch == BACKSPACE then
      if t.col > 0 then t.(col := t.col - 1)
      else if t.row > t.top then t.(row := t.row - 1, col := w - 1)
      else t
    else if ch == TAB then Forward(t, w, TAB_SIZE)
    else if ch == NEWLINE then t.(row := t.row + 1, col := 0)
    else if ch == VTAB then t.(row := t.row + 1)
    else if ch == FORMFEED then Tape(map[], 0, 0, 0)
    else if ch == RETURN then t.(col := 0)
    else t
  }

  /** The window moves down just far enough to show the position. */
  function Follow(t: Tape, h: nat): Tape
  {
    if t.row >= t.top + h then t.(top := t.row - h + 1) else t
  }

  /** Printing a string: a zero byte ends it. */
  function Print(t: Tape, w: nat, h: nat, s: seq<Byte>): Tape
    requires w > 0
    decreases |s|
  {
    if s == [] || s[0] == 0 then t else Print(Follow(Feed(t, w, s[0]), h), w, h, s[1..])
  }

  /** On the tape it does not matter how output is cut into calls, zero bytes aside. */
  lemma {:induction false} PrintParts(t: Tape, w: nat, h: nat, a: seq<Byte>, b: seq<Byte>)
    requires w > 0 && 0 !in a
    ensures Print(t, w, h, a + b) == Print(Print(t, w, h, a), w, h, b)
    decreases |a|
  {
    if a == [] {
      assert a + b == b;
    } else {
      assert (a + b)[1..] == a[1..] + b;
      PrintParts(Follow(Feed(t, w, a[0]), h), w, h, a[1..], b);
    }
  }

  ghost predicate Sane(t: Tape, w: nat, h: nat)
  {
    && t.col < w && t.top <= t.row < t.top + h
    && forall r, c :: (r, c) in t.cells ==> r < t.top + h && c < w
  }

  /** The position stays inside the window and nothing is ever written below it. */
  lemma FeedSane(t: Tape, w: nat, h: nat, ch: Byte)
    requires Sane(t, w, h)
    ensures Sane(Follow(Feed(t, w, ch), h), w, h)
  {
    if Printable(ch) || ch == TAB {
      var n := if ch == TAB then TAB_SIZE else 1;
      assert (t.col + n) % w < w;
    }
  }

  lemma {:induction false} PrintSane(t: Tape, w: nat, h: nat, s: seq<Byte>)
    requires Sane(t, w, h)
    ensures Sane(Print(t, w, h, s), w, h)
    decreases |s|
  {
    if s == [] || s[0] == 0 {
    } else {
      FeedSane(t, w, h, s[0]);
      PrintSane(Follow(Feed(t, w, s[0]), h), w, h, s[1..]);
    }
  }

  // ---------------------------------------------------------------- cells of the screen

  function Index(w: nat, r: nat, c: nat): nat
  {
    r * w + c
  }

  lemma IndexBelow(w: nat, h: nat, r: nat, c: nat)
    requires r < h && c < w
    ensures Index(w, r, c) < w * h
  {
    RowsApart(w, r, h);
  }

  lemma RowUnique(w: nat, r: nat, c: nat, q: nat, d: nat)
    requires c < w && d < w && r * w + c == q * w + d
    ensures r == q && c == d
  {
    RowsApart(w, r, q);
  }

  lemma {:induction false} RowsGap(w: nat, r: nat, q: nat)
    requires r < q
    ensures r * w + w <= q * w
    decreases q
  {
    assert q * w == (q - 1) * w + w;
    if r == q - 1 {
    } else {
      RowsGap(w, r, q - 1);
    }
  }

  lemma RowsApart(w: nat, r: nat, q: nat)
    ensures r < q ==> r * w + w <= q * w
    ensures q < r ==> q * w + w <= r * w
  {
    if r < q {
      RowsGap(w, r, q);
    } else if q < r {
      RowsGap(w, q, r);
    }
  }

  lemma IndexRow(w: nat, r: nat, c: nat)
    requires c < w
    ensures Index(w, r, c) / w == r && Index(w, r, c) % w == c
  {
    var n := Index(w, r, c);
    RowUnique(w, r, c, n / w, n % w);
  }

  lemma IndexApart(w: nat, r: nat, c: nat, q: nat, d: nat)
    requires c < w && d < w && (r, c) != (q, d)
    ensures Index(w, r, c) != Index(w, q, d)
  {
    if Index(w, r, c) == Index(w, q, d) {
      RowUnique(w, r, c, q, d);
    }
  }

  /** Where a character takes the cursor from row r and column c, before the cursor is cut to 16 bits and
      the screen scrolls. */
  function CursorFrom(w: nat, r: nat, c: nat, cursor: nat, ch: Byte): nat
  {
    if Printable(ch) then cursor + 1
    else if ch == BACKSPACE then if cursor > 0 then cursor - 1 else 0
    else if ch == TAB then cursor + TAB_SIZE
    else if ch == NEWLINE then Index(w, r + 1, 0)
    else if ch == VTAB then Index(w, r + 1, c)
    else if ch == FORMFEED then 0
    else if ch == RETURN then Index(w, r, 0)
    else cursor
  }

  function CursorAfter(w: nat, cursor: nat, ch: Byte): nat
    requires w > 0
  {
    CursorFrom(w, cursor / w, cursor % w, cursor, ch)
  }

  /** What each character does to the cursor: the printed ones move it on by one cell, a tab by four, a vertical tab
      by one row; a return takes it back to the first cell of its row, a line feed on to the first of the next. */
  lemma CursorMeans(w: nat, cursor: nat, ch: Byte)
    requires w > 0
    ensures var next := CursorAfter(w, cursor, ch);
      && (32 <= ch <= 126 ==> next == cursor + 1)
      && (ch == 9 ==> next == cursor + 4)
      && (ch == 11 ==> next == cursor + w)
      && (ch == 13 ==> next % w == 0 && next <= cursor < next + w)
      && (ch == 10 ==> next % w == 0 && cursor < next <= cursor + w)
      && (ch == 8 ==> next + 1 == cursor || next == cursor == 0)
      && (ch == 12 ==> next == 0)
      && (ch < 8 || ch == 14 || 14 < ch < 32 || ch > 126 ==> next == cursor)
  {
    CursorStep(w, cursor);
    IndexRow(w, cursor / w, 0);
    IndexRow(w, cursor / w + 1, 0);
    assert (cursor / w + 1) * w == cursor / w * w + w;
  }

  /** No cursor step from inside the screen can leave 16 bits. */
  predicate CursorFits(w: nat, h: nat)
  {
    w * h + w <= CURSOR_LIMIT && w * h + TAB_SIZE <= CURSOR_LIMIT
  }

  /** The 16-bit cursor never wraps exactly on screens that leave room for one line feed and one tab. */
  lemma CursorWraps(w: nat, h: nat)
    requires w > 0 && h > 0
    ensures (forall cursor: nat, ch: Byte :: cursor < w * h ==> CursorAfter(w, cursor, ch) < CURSOR_LIMIT)
      <==> CursorFits(w, h)
  {
    var last := w * h - 1;
    IndexBelow(w, h, h - 1, w - 1);
    assert h * w == (h - 1) * w + w;
    assert Index(w, h - 1, w - 1) == last;
    IndexRow(w, h - 1, w - 1);
    assert CursorAfter(w, last, VTAB) == w * h + w - 1 by {
      assert Index(w, h, w - 1) == h * w + w - 1;
    }
    assert CursorAfter(w, last, TAB) == w * h + TAB_SIZE - 1;
    if CursorFits(w, h) {
      forall cursor: nat, ch: Byte | cursor < w * h ensures CursorAfter(w, cursor, ch) < CURSOR_LIMIT {
        CursorStep(w, cursor);
      }
    }
  }

  lemma CursorStep(w: nat, cursor: nat)
    requires w > 0
    ensures Index(w, cursor / w + 1, 0) <= cursor + w
    ensures Index(w, cursor / w + 1, cursor % w) == cursor + w
    ensures Index(w, cursor / w, 0) <= cursor
  {
    assert (cursor / w + 1) * w == cursor / w * w + w;
    assert cursor / w * w + cursor % w == cursor;
  }

  /** Moving the position on the tape moves the cursor by as many cells. */
  lemma ForwardIndex(w: nat, r: nat, c: nat, n: nat)
    requires w > 0 && c < w
    ensures Index(w, r + (c + n) / w, (c + n) % w) == Index(w, r, c) + n
  {
    assert (r + (c + n) / w) * w == r * w + (c + n) / w * w;
  }

  lemma FeedForward(t: Tape, w: nat, h: nat, ch: Byte)
    requires Sane(t, w, h) && (Printable(ch) || ch == TAB)
    ensures var u, r, n := Feed(t, w, ch), t.row - t.top, if ch == TAB then TAB_SIZE else 1;
      t.top <= u.row && u.col < w && Index(w, u.row - t.top, u.col) == Index(w, r, t.col) + n
  {
    var n := if ch == TAB then TAB_SIZE else 1;
    ForwardIndex(w, t.row - t.top, t.col, n);
    ModBelow(t.col + n, w);
  }

  lemma IndexBack(w: nat, r: nat)
    requires w > 0
    ensures Index(w, 0, 0) == 0
    ensures r > 0 ==> Index(w, r - 1, w - 1) == Index(w, r, 0) - 1 && Index(w, r, 0) > 0
  {
    if r > 0 {
      assert r * w == (r - 1) * w + w;
    }
  }

  /** The cursor and the position on the tape make the same move, the window being at row top. */
  lemma FeedFrom(t: Tape, w: nat, h: nat, ch: Byte)
    requires Sane(t, w, h)
    ensures var u, r := Feed(t, w, ch), t.row - t.top;
      u.top <= u.row && u.col < w
      && Index(w, u.row - u.top, u.col) == CursorFrom(w, r, t.col, Index(w, r, t.col), ch)
  {
    if Printable(ch) || ch == TAB {
      FeedForward(t, w, h, ch);
    } else {
      IndexBack(w, t.row - t.top);
    }
  }

  lemma FeedCursor(t: Tape, w: nat, h: nat, ch: Byte)
    requires Sane(t, w, h)
    ensures var u, cursor := Feed(t, w, ch), Index(w, t.row - t.top, t.col);
      u.top <= u.row && u.col < w && Index(w, u.row - u.top, u.col) == CursorAfter(w, cursor, ch)
  {
    FeedFrom(t, w, h, ch);
    IndexRow(w, t.row - t.top, t.col);
  }

  lemma ModBelow(x: nat, w: nat)
    requires w > 0
    ensures x % w < w
  {
  }

  // ---------------------------------------------------------------- the screen

  ghost predicate ShowsAt(b: seq<nat>, w: nat, t: Tape, r: nat, c: nat)
  {
    Index(w, r, c) < |b| && b[Index(w, r, c)] == CellAt(t, t.top + r, c)
  }

  /** The buffer is the window of the tape. */
  ghost predicate Shown(b: seq<nat>, w: nat, h: nat, t: Tape)
  {
    forall r: nat, c: nat {:trigger ShowsAt(b, w, t, r, c)} :: r < h && c < w ==> ShowsAt(b, w, t, r, c)
  }

  ghost predicate NothingBelow(t: Tape, w: nat, h: nat)
  {
    forall r, c :: (r, c) in t.cells ==> r < t.top + h && c < w
  }

  lemma WriteShows(b: seq<nat>, w: nat, h: nat, t: Tape, x: nat)
    requires Shown(b, w, h, t) && Sane(t, w, h) && |b| == w * h
    ensures Index(w, t.row - t.top, t.col) < |b|
    ensures var at := Index(w, t.row - t.top, t.col);
      Shown(b[at := x], w, h, t.(cells := t.cells[(t.row, t.col) := x]))
  {
    var at := Index(w, t.row - t.top, t.col);
    IndexBelow(w, h, t.row - t.top, t.col);
    var d, u := b[at := x], t.(cells := t.cells[(t.row, t.col) := x]);
    forall r: nat, c: nat | r < h && c < w ensures ShowsAt(d, w, u, r, c) {
      assert ShowsAt(b, w, t, r, c);
      if (r, c) != (t.row - t.top, t.col) {
        IndexApart(w, r, c, t.row - t.top, t.col);
      }
    }
  }

  lemma ScrolledShows(b: seq<nat>, d: seq<nat>, w: nat, h: nat, t: Tape)
    requires Shown(b, w, h, t) && NothingBelow(t, w, h) && |b| == |d| == w * h
    requires forall j :: 0 <= j < |d| ==> d[j] == if j + w < |d| then b[j + w] else CharEntry(0)
    ensures Shown(d, w, h, t.(top := t.top + 1))
  {
    var u := t.(top := t.top + 1);
    forall r: nat, c: nat | r < h && c < w ensures ShowsAt(d, w, u, r, c) {
      IndexBelow(w, h, r, c);
      assert Index(w, r + 1, c) == Index(w, r, c) + w;
      if r + 1 < h {
        IndexBelow(w, h, r + 1, c);
        assert ShowsAt(b, w, t, r + 1, c);
      } else {
        assert Index(w, h, c) >= w * h;
      }
    }
  }

  /** A character that is neither printed nor a form feed moves the position only. */
  lemma FeedMoves(b: seq<nat>, w: nat, h: nat, t: Tape, ch: Byte)
    requires Sane(t, w, h) && Shown(b, w, h, t) && !Printable(ch) && ch != FORMFEED
    ensures Shown(b, w, h, Feed(t, w, ch)) && NothingBelow(Feed(t, w, ch), w, h)
  {
    var u := Feed(t, w, ch);
    WindowOnly(b, w, h, t, u);
  }

  /** Moving up one row, as scroll does. */
  lemma RowUp(w: nat, r: nat, c: nat)
    requires c < w && r > 0
    ensures var cursor := Index(w, r, c);
      cursor / w == r && cursor % w == c && Index(w, r - 1, c) < cursor
  {
    IndexRow(w, r, c);
    RowsApart(w, r - 1, r);
  }

  /** Only cells and window decide what the screen shows. */
  lemma WindowOnly(b: seq<nat>, w: nat, h: nat, t: Tape, u: Tape)
    requires Shown(b, w, h, t) && u.cells == t.cells && u.top == t.top
    ensures Shown(b, w, h, u)
  {
    forall r: nat, c: nat | r < h && c < w ensures ShowsAt(b, w, u, r, c) {
      assert ShowsAt(b, w, t, r, c);
    }
  }

  lemma CursorFitsAfter(w: nat, h: nat, cursor: nat, ch: Byte)
    requires w > 0 && CursorFits(w, h) && cursor < w * h
    ensures CursorAfter(w, cursor, ch) < CURSOR_LIMIT
  {
    CursorStep(w, cursor);
  }

  lemma BelowScreen(w: nat, h: nat, r: nat, c: nat)
    requires c < w && Index(w, r, c) >= w * h
    ensures r >= h
  {
    if r < h {
      IndexBelow(w, h, r, c);
    }
  }

  lemma InsideScreen(w: nat, h: nat, r: nat, c: nat)
    requires c < w && Index(w, r, c) < w * h
    ensures r < h
  {
    if r > h {
      RowsApart(w, r, h);
    }
  }

  lemma PrintOne(t: Tape, w: nat, h: nat, s: seq<Byte>, i: nat)
    requires w > 0 && i < |s| && s[i] != 0
    ensures Print(t, w, h, s[i..]) == Print(Follow(Feed(t, w, s[i]), h), w, h, s[i + 1..])
  {
    assert s[i..][1..] == s[i + 1..];
  }

  lemma PrintStops(t: Tape, w: nat, h: nat, s: seq<Byte>)
    requires w > 0 && (s == [] || s[0] == 0)
    ensures Print(t, w, h, s) == t
  {
  }

  // ---------------------------------------------------------------- the screen as the program updates it

  /** display_buffer and cursor_pos. */
  datatype Screen = Screen(cells: seq<nat>, cursor: nat)

  /** What clear_screen leaves: character 0 everywhere. */
  function BlankScreen(w: nat, h: nat): (r: Screen)
    ensures |r.cells| == w * h && r.cursor == 0 && forall j :: 0 <= j < w * h ==> Holds(r.cells[j], 0, 15, 0)
  {
    Screen(seq(w * h, i => CharEntry(0)), 0)
  }

  predicate Shaped(w: nat, h: nat, c: Screen)
  {
    w > 0 && h > 0 && |c.cells| == w * h && c.cursor < w * h && c.cursor < CURSOR_LIMIT
  }

  function CellBelow(cells: seq<nat>, w: nat, j: nat): nat
  {
    if j + w < |cells| then cells[j + w] else CharEntry(0)
  }

  /** scroll, as far as the buffer goes. */
  function MovedUp(cells: seq<nat>, w: nat): (r: seq<nat>)
    ensures |r| == |cells|
    ensures forall j :: 0 <= j < |r| ==> r[j] == if j + w < |cells| then cells[j + w] else CharEntry(0)
  {
    seq(|cells|, (j: int) requires 0 <= j < |cells| => CellBelow(cells, w, j))
  }

  /** The switch on one character; the cursor has 16 bits. */
  function Typed(w: nat, h: nat, c: Screen, ch: Byte): (r: Screen)
    requires Shaped(w, h, c)
    ensures |r.cells| == w * h && r.cursor < CURSOR_LIMIT
  {
    if Printable(ch) then Screen(c.cells[c.cursor := CharEntry(ch)], (c.cursor + 1) % CURSOR_LIMIT)
    else if ch == FORMFEED then BlankScreen(w, h)
    else Screen(c.cells, CursorAfter(w, c.cursor, ch) % CURSOR_LIMIT)
  }

  /** The loop at scrollRep. */
  function Scrolled(w: nat, h: nat, c: Screen): (r: Screen)
    requires w > 0 && h > 0 && |c.cells| == w * h && c.cursor < CURSOR_LIMIT
    ensures Shaped(w, h, r)
    decreases c.cursor
  {
    RowsApart(w, 1, h);
    if c.cursor < w * h then c else Scrolled(w, h, Screen(MovedUp(c.cells, w), c.cursor - w))
  }

  /** arch_print. */
  function Printed(w: nat, h: nat, c: Screen, s: seq<Byte>): (r: Screen)
    requires Shaped(w, h, c)
    ensures Shaped(w, h, r)
    decreases |s|
  {
    if s == [] || s[0] == 0 then c else Printed(w, h, Scrolled(w, h, Typed(w, h, c, s[0])), s[1..])
  }

  /** The screen is the window of the tape, and the cursor its position, which may be below the screen. */
  ghost predicate Follows(w: nat, h: nat, c: Screen, t: Tape)
  {
    && w > 0 && h > 0 && |c.cells| == w * h
    && t.top <= t.row && t.col < w && NothingBelow(t, w, h)
    && c.cursor == Index(w, t.row - t.top, t.col) < CURSOR_LIMIT
    && Shown(c.cells, w, h, t)
  }

  ghost predicate Mirrors(w: nat, h: nat, c: Screen, t: Tape)
  {
    Follows(w, h, c, t) && t.row < t.top + h
  }

  lemma MirrorsShaped(w: nat, h: nat, c: Screen, t: Tape)
    requires Mirrors(w, h, c, t)
    ensures Shaped(w, h, c)
  {
    IndexBelow(w, h, t.row - t.top, t.col);
  }

  lemma BlankMirrors(w: nat, h: nat)
    requires w > 0 && h > 0
    ensures Mirrors(w, h, BlankScreen(w, h), Tape(map[], 0, 0, 0))
  {
    var c := BlankScreen(w, h);
    forall r: nat, d: nat | r < h && d < w
      ensures ShowsAt(c.cells, w, Tape(map[], 0, 0, 0), r, d)
    {
      IndexBelow(w, h, r, d);
    }
  }

  /** One character does to the screen what it does to the tape, if the cursor does not wrap. */
  lemma TypedFollows(w: nat, h: nat, c: Screen, t: Tape, ch: Byte)
    requires Mirrors(w, h, c, t) && Shaped(w, h, c) && CursorAfter(w, c.cursor, ch) < CURSOR_LIMIT
    ensures Follows(w, h, Typed(w, h, c, ch), Feed(t, w, ch))
  {
    FeedCursor(t, w, h, ch);
    if Printable(ch) {
      WriteShows(c.cells, w, h, t, CharEntry(ch));
      var u := t.(cells := t.cells[(t.row, t.col) := CharEntry(ch)]);
      WindowOnly(c.cells[c.cursor := CharEntry(ch)], w, h, u, Feed(t, w, ch));
    } else if ch == FORMFEED {
      BlankMirrors(w, h);
    } else {
      FeedMoves(c.cells, w, h, t, ch);
    }
  }

  /** Scrolling moves the window until it shows the position. */
  lemma {:induction false} ScrolledMirrors(w: nat, h: nat, c: Screen, t: Tape)
    requires Follows(w, h, c, t)
    ensures Mirrors(w, h, Scrolled(w, h, c), Follow(t, h))
    decreases c.cursor
  {
    var r := t.row - t.top;
    if c.cursor < w * h {
      InsideScreen(w, h, r, t.col);
    } else {
      BelowScreen(w, h, r, t.col);
      RowUp(w, r, t.col);
      UpOne(w, r, t.col);
      var d, u := Screen(MovedUp(c.cells, w), c.cursor - w), t.(top := t.top + 1);
      ScrolledShows(c.cells, d.cells, w, h, t);
      ScrolledMirrors(w, h, d, u);
    }
  }

  lemma UpOne(w: nat, r: nat, c: nat)
    requires r > 0
    ensures Index(w, r - 1, c) == Index(w, r, c) - w
  {
    assert r * w == (r - 1) * w + w;
  }

  /** On a screen on which the cursor cannot wrap, every string shows the window of the tape that it writes. */
  lemma {:induction false} PrintedMirrors(w: nat, h: nat, c: Screen, t: Tape, s: seq<Byte>)
    requires CursorFits(w, h) && Mirrors(w, h, c, t) && Shaped(w, h, c)
    ensures Mirrors(w, h, Printed(w, h, c, s), Print(t, w, h, s))
    decreases |s|
  {
    if s == [] || s[0] == 0 {
    } else {
      CursorFitsAfter(w, h, c.cursor, s[0]);
      TypedFollows(w, h, c, t, s[0]);
      ScrolledMirrors(w, h, Typed(w, h, c, s[0]), Feed(t, w, s[0]));
      PrintedMirrors(w, h, Scrolled(w, h, Typed(w, h, c, s[0])), Follow(Feed(t, w, s[0]), h), s[1..]);
    }
  }

  lemma {:induction false} PrintedParts(w: nat, h: nat, c: Screen, a: seq<Byte>, b: seq<Byte>)
    requires Shaped(w, h, c) && 0 !in a
    ensures Printed(w, h, c, a + b) == Printed(w, h, Printed(w, h, c, a), b)
    decreases |a|
  {
    if a == [] {
      assert a + b == b;
    } else {
      assert (a + b)[1..] == a[1..] + b;
      PrintedParts(w, h, Scrolled(w, h, Typed(w, h, c, a[0])), a[1..], b);
    }
  }

  // ---------------------------------------------------------------- what a text leaves

  predicate Text(s: seq<Byte>)
  {
    forall i :: 0 <= i < |s| ==> Printable(s[i])
  }

  /** The position as a number of cells from the start of the tape. */
  function Place(t: Tape, w: nat): nat
  {
    Index(w, t.row, t.col)
  }

  /** The cells from the p-th on hold the text, every other cell is as before. */
  ghost predicate TextAt(t: Tape, u: Tape, w: nat, p: nat, s: seq<Byte>)
  {
    forall r: nat, c: nat {:trigger CellAt(u, r, c)} :: c < w ==>
      var n := Index(w, r, c); CellAt(u, r, c) == if p <= n < p + |s| then CharEntry(s[n - p]) else CellAt(t, r, c)
  }

  lemma OneChar(t: Tape, w: nat, h: nat, ch: Byte)
    requires Sane(t, w, h) && Printable(ch)
    ensures var u := Follow(Feed(t, w, ch), h);
      && u.col < w && Place(u, w) == Place(t, w) + 1 && TextAt(t, u, w, Place(t, w), [ch])
      && u.row >= t.row && u.top == Follow(t.(row := u.row), h).top
  {
    var u := Follow(Feed(t, w, ch), h);
    ForwardIndex(w, t.row, t.col, 1);
    ModBelow(t.col + 1, w);
    forall r: nat, c: nat | c < w
      ensures var n := Index(w, r, c);
        CellAt(u, r, c) == if n == Place(t, w) then CharEntry(ch) else CellAt(t, r, c)
    {
      if (r, c) != (t.row, t.col) {
        IndexApart(w, r, c, t.row, t.col);
      }
    }
  }

  lemma TextJoin(t: Tape, u: Tape, v: Tape, w: nat, p: nat, s: seq<Byte>)
    requires s != [] && TextAt(t, u, w, p, [s[0]]) && TextAt(u, v, w, p + 1, s[1..])
    ensures TextAt(t, v, w, p, s)
  {
    forall r: nat, c: nat | c < w
      ensures var n := Index(w, r, c);
        CellAt(v, r, c) == if p <= n < p + |s| then CharEntry(s[n - p]) else CellAt(t, r, c)
    {
      var n := Index(w, r, c);
      assert CellAt(u, r, c) == if n == p then CharEntry(s[0]) else CellAt(t, r, c);
    }
  }

  /** A text without control characters lies on the tape in the order of its characters, from the position on; the
      position is behind it, nothing else is touched, and the window shows as much as it can. */
  lemma {:induction false} PrintText(t: Tape, w: nat, h: nat, s: seq<Byte>)
    requires Sane(t, w, h) && Text(s)
    ensures var u := Print(t, w, h, s);
      && u.col < w && Place(u, w) == Place(t, w) + |s| && TextAt(t, u, w, Place(t, w), s)
      && u.row >= t.row && u.top == Follow(t.(row := u.row), h).top
    decreases |s|
  {
    if s == [] {
    } else {
      var u := Follow(Feed(t, w, s[0]), h);
      FeedSane(t, w, h, s[0]);
      OneChar(t, w, h, s[0]);
      PrintText(u, w, h, s[1..]);
      TextJoin(t, u, Print(u, w, h, s[1..]), w, Place(t, w), s);
    }
  }

  /** On a screen on which the cursor cannot wrap, each character of a text that is still in view is in its cell,
      white on black. */
  lemma TextShown(w: nat, h: nat, c: Screen, t: Tape, s: seq<Byte>, k: nat, r: nat, d: nat)
    requires CursorFits(w, h) && Mirrors(w, h, c, t) && Shaped(w, h, c) && Text(s) && k < |s| && r < h && d < w
    requires Index(w, Print(t, w, h, s).top + r, d) == Place(t, w) + k
    ensures Index(w, r, d) < w * h && Holds(Printed(w, h, c, s).cells[Index(w, r, d)], s[k], 15, 0)
  {
    MirrorsSane(w, h, c, t);
    PrintText(t, w, h, s);
    PrintedMirrors(w, h, c, t, s);
    CellShown(w, h, Printed(w, h, c, s), t, Print(t, w, h, s), s, k, r, d);
  }

  lemma CellShown(w: nat, h: nat, e: Screen, t: Tape, u: Tape, s: seq<Byte>, k: nat, r: nat, d: nat)
    requires Mirrors(w, h, e, u) && TextAt(t, u, w, Place(t, w), s) && k < |s| && r < h && d < w
    requires Index(w, u.top + r, d) == Place(t, w) + k
    ensures Index(w, r, d) < w * h && Holds(e.cells[Index(w, r, d)], s[k], 15, 0)
  {
    IndexBelow(w, h, r, d);
    assert ShowsAt(e.cells, w, u, r, d);
    assert CellAt(u, u.top + r, d) == CharEntry(s[k]);
    EntryMeans(s[k]);
  }

  lemma MirrorsSane(w: nat, h: nat, c: Screen, t: Tape)
    requires Mirrors(w, h, c, t)
    ensures Sane(t, w, h)
  {
  }

  // ---------------------------------------------------------------- when the cursor wraps

  const LETTER: Byte := 65

  function Letters(k: nat): (s: seq<Byte>)
    ensures |s| == k && 0 !in s
  {
    seq(k, i => LETTER)
  }

  /** The tape after k letters that fit on the screen: the cells before the position hold the letter, no others do. */
  ghost predicate Lettered(t: Tape, w: nat, k: nat)
  {
    && t.top == 0 && t.col < w && Index(w, t.row, t.col) == k
    && forall r: nat, c: nat {:trigger CellAt(t, r, c)} :: c < w
         ==> CellAt(t, r, c) == if Index(w, r, c) < k then CharEntry(LETTER) else CharEntry(0)
  }

  lemma LettersPrint(w: nat, h: nat, k: nat)
    requires w > 0 && h > 0 && k < w * h
    ensures Lettered(Print(Tape(map[], 0, 0, 0), w, h, Letters(k)), w, k)
  {
    var t := Tape(map[], 0, 0, 0);
    var u := Print(t, w, h, Letters(k));
    PrintText(t, w, h, Letters(k));
    InsideScreen(w, h, u.row, u.col);
    forall r: nat, c: nat | c < w
      ensures CellAt(u, r, c) == if Index(w, r, c) < k then CharEntry(LETTER) else CharEntry(0)
    {
      assert CellAt(t, r, c) == CharEntry(0);
    }
  }

  /** What takes the cursor past 16 bits from the last cell of the screen. */
  function Wrapping(w: nat, h: nat): Byte
  {
    if w * h + w > CURSOR_LIMIT then VTAB else TAB
  }

  /** Past 16 bits the cursor cannot follow. */
  lemma TooManyCells(w: nat, h: nat)
    requires w > 0 && h > 0 && w * h > CURSOR_LIMIT
    ensures var s := Letters(CURSOR_LIMIT);
      !Mirrors(w, h, Printed(w, h, BlankScreen(w, h), s), Print(Tape(map[], 0, 0, 0), w, h, s))
  {
    LettersPrint(w, h, CURSOR_LIMIT);
  }

  /** From the last cell the wrapped cursor stays on the screen, which the tape leaves. */
  lemma LastCellSpoils(w: nat, h: nat, c: Screen, t: Tape)
    requires w > 0 && h > 0 && w * h <= CURSOR_LIMIT && !CursorFits(w, h)
    requires Shaped(w, h, c) && Mirrors(w, h, c, t) && Lettered(t, w, w * h - 1)
    ensures var ch := Wrapping(w, h);
      !Mirrors(w, h, Scrolled(w, h, Typed(w, h, c, ch)), Follow(Feed(t, w, ch), h))
  {
    var ch, last := Wrapping(w, h), w * h - 1;
    var d, u := Typed(w, h, c, ch), Follow(Feed(t, w, ch), h);
    FeedCursor(t, w, h, ch);
    var x := CursorAfter(w, c.cursor, ch);
    LastStep(w, h, ch);
    assert x >= CURSOR_LIMIT && x - CURSOR_LIMIT < w * h;
    assert x % CURSOR_LIMIT == x - CURSOR_LIMIT;
    assert Scrolled(w, h, d) == d && d.cells == c.cells;
    BelowScreen(w, h, Feed(t, w, ch).row, Feed(t, w, ch).col);
    StaleCell(w, h, c, t, u);
  }

  lemma LastStep(w: nat, h: nat, ch: Byte)
    requires w > 0 && h > 0 && w * h <= CURSOR_LIMIT && !CursorFits(w, h) && ch == Wrapping(w, h)
    ensures var x := CursorAfter(w, w * h - 1, ch); CURSOR_LIMIT <= x < CURSOR_LIMIT + w * h
  {
    RowsApart(w, 1, h);
    CursorStep(w, w * h - 1);
  }

  lemma CellRow(w: nat, j: nat)
    requires w > 0
    ensures j % w < w && Index(w, j / w, j % w) == j
  {
  }

  lemma RowsDown(w: nat, r: nat, c: nat, k: nat)
    requires k > 0
    ensures Index(w, k + r, c) >= Index(w, r, c) + w
  {
    RowsApart(w, r, k + r);
  }

  /** A letter that the window has moved past is still in the buffer. */
  lemma StaleCell(w: nat, h: nat, c: Screen, t: Tape, u: Tape)
    requires w > 0 && h > 0 && w * h > 1 && Mirrors(w, h, c, t) && Lettered(t, w, w * h - 1)
    requires u.top > 0 && u.cells == t.cells
    ensures !Shown(c.cells, w, h, u)
  {
    var j := w * h - 2;
    var r, d := j / w, j % w;
    CellRow(w, j);
    InsideScreen(w, h, r, d);
    assert ShowsAt(c.cells, w, t, r, d);
    assert CellAt(t, t.top + r, d) == CharEntry(LETTER);
    RowsDown(w, r, d, u.top);
    assert CellAt(t, u.top + r, d) == CharEntry(0);
    assert CellAt(u, u.top + r, d) == CharEntry(0);
    assert !ShowsAt(c.cells, w, u, r, d);
  }

  /** The screen is the window of the tape for every string if and only if the cursor cannot wrap. */
  lemma MirrorsIff(w: nat, h: nat)
    requires w > 0 && h > 0
    ensures CursorFits(w, h) <==> forall s: seq<Byte> ::
      Mirrors(w, h, Printed(w, h, BlankScreen(w, h), s), Print(Tape(map[], 0, 0, 0), w, h, s))
  {
    var c0, t0 := BlankScreen(w, h), Tape(map[], 0, 0, 0);
    BlankMirrors(w, h);
    MirrorsShaped(w, h, c0, t0);
    if CursorFits(w, h) {
      forall s: seq<Byte>
        ensures Mirrors(w, h, Printed(w, h, c0, s), Print(t0, w, h, s))
      {
        PrintedMirrors(w, h, c0, t0, s);
      }
    } else if w * h > CURSOR_LIMIT {
      TooManyCells(w, h);
    } else {
      SpoilerSpoils(w, h);
    }
  }

  lemma SpoilerSpoils(w: nat, h: nat)
    requires w > 0 && h > 0 && w * h <= CURSOR_LIMIT && !CursorFits(w, h)
    ensures exists s: seq<Byte> ::
      !Mirrors(w, h, Printed(w, h, BlankScreen(w, h), s), Print(Tape(map[], 0, 0, 0), w, h, s))
  {
    var c0, t0 := BlankScreen(w, h), Tape(map[], 0, 0, 0);
    var a, b := Letters(w * h - 1), [Wrapping(w, h)];
    var c, t := Printed(w, h, c0, a), Print(t0, w, h, a);
    LettersPrint(w, h, w * h - 1);
    if Mirrors(w, h, c, t) {
      PrintedParts(w, h, c0, a, b);
      PrintParts(t0, w, h, a, b);
      LastCellSpoils(w, h, c, t);
      assert b[1..] == [];
      assert !Mirrors(w, h, Printed(w, h, c0, a + b), Print(t0, w, h, a + b));
    }
  }
}
