/** The terminal of src/xelt.c: the global `terminal` with the selection
    `sel`, the escape buffers `csiescseq` and `strescseq` and the two
    cursors tcursor keeps, as one object whose methods change its fields
    in place as the C functions change the globals. Each method is
    specified by the pure screen, line, tab and selection functions of
    Grid, Tabs and Select. */
module Term {
  import opened Utf8
  import opened Types
  import opened Macros
  import opened Grid
  import opened Tabs
  import opened Select
  import opened Escape
  import opened Edit
  import Config

  /** The cursor treset installs: default colours, no attributes, at the
      origin. */
  const ResetCursor: TCursor := TCursor(Glyph(0, {}, Config.DefaultFg, Config.DefaultBg), 0, 0, {})

  /** The selection before anything is selected (selinit). */
  const NoSelection: Selection := Selection(SelIdle, Regular, NoSnap, Point(0, 0), Point(0, 0), Point(-1, 0), Point(0, 0), false)

  /** The slot of tcursor's static array for a screen: 1 on the alternate
      screen. */
  function AltIndex(mode: set<TermFlag>): (i: nat)
    ensures i < 2 && (i == 1 <==> AltScreen in mode)
  {
    if AltScreen in mode then 1 else 0
  }

  /** The mode after tswapscreen: the alternate-screen flag flipped,
      every other flag kept. */
  function Toggled(m: set<TermFlag>): (r: set<TermFlag>)
    ensures AltIndex(r) == 1 - AltIndex(m)
  {
    if AltScreen in m then m - {AltScreen} else m + {AltScreen}
  }

  /** The cursor after tmoveto(x, y): the column clamped to the screen,
      the row to the scrolling region in origin mode and to the screen
      otherwise, a pending wrap cancelled. */
  function MovedTo(c: TCursor, x: int, y: int, col: int, row: int, top: int, bot: int): (r: TCursor)
    requires 1 <= col && 1 <= row && 0 <= top <= bot < row
    ensures 0 <= r.x < col && 0 <= r.y < row && r.attr == c.attr && r.state == c.state - {WrapNext}
    ensures 0 <= x < col ==> r.x == x
    ensures (if Origin in c.state then top <= y <= bot else 0 <= y < row) ==> r.y == y
  {
    var (lo, hi) := if Origin in c.state then (top, bot) else (0, row - 1);
    c.(state := c.state - {WrapNext}, x := Limit(x, 0, col - 1), y := Limit(y, lo, hi))
  }

  /** The blank cell in the colours of cursor c. */
  function BlankOf(c: TCursor): (g: Glyph)
    ensures g.u == ' ' as Rune && g.mode == {}
  {
    BlankGlyph(c.attr.fg, c.attr.bg)
  }

  /** The page and the cursor after tnewline(first): one row down, or at
      the bottom of the scrolling region the region scrolled up one row
      (blanked in the cursor's colours) instead; column 0 when first is
      set. */
  function Fed(p: Page, c: TCursor, first: bool, col: int, row: int, top: int, bot: int): (r: (Page, TCursor))
    requires PageOk(p, col, row) && 0 <= top <= bot < row
    ensures PageOk(r.0, col, row)
    ensures 0 <= r.1.x < col && 0 <= r.1.y < row && r.1.attr == c.attr && WrapNext !in r.1.state
    ensures c.y != bot ==> r.0 == p
    ensures c.y == bot ==> r.0 == ScrollUpPage(p, col, top, bot, top, 1, BlankOf(c)) && r.1.y == bot
    ensures first ==> r.1.x == 0
    ensures !first && 0 <= c.x < col ==> r.1.x == c.x
  {
    var q := if c.y == bot then ScrollUpPage(p, col, top, bot, top, 1, BlankOf(c)) else p;
    (q, MovedTo(c, if first then 0 else c.x, if c.y == bot then bot else c.y + 1, col, row, top, bot))
  }

  /** Swapping the screens twice restores the mode. */
  lemma ToggledTwice(m: set<TermFlag>)
    ensures Toggled(Toggled(m)) == m
  {
  }

  /** xelt_Terminal with its companions. saved holds the two cursors of
      tcursor (main and alternate screen); out is the log of calls the
      core makes into the window and the tty. */
  class Terminal {
    var row: int
    var col: int
    var page: Page
    var alt: Screen
    var cursor: TCursor
    var saved: seq<TCursor>
    var top: int
    var bot: int
    var mode: set<TermFlag>
    var esc: set<EscFlag>
    var trantbl: seq<Charset>
    var charset: int
    var icharset: int
    var numlock: int
    var tabs: seq<bool>
    var out: seq<Effect>
    const csi: CsiEscape
    const str: StrEscape

    /** The buffers agree with the size (a C int), the region lies on the
        screen, the selection too, and the escape state leaves room in
        the CSI buffer: while a CSI sequence is read one more byte fits,
        and right after ESC the buffer is empty. */
    ghost predicate Sound()
      reads this, csi, str
    {
      Dims() && Screens() && Buffers() && Region() && EscOk()
    }

    /** The size is positive and fits a C int. */
    ghost predicate Dims()
      reads this`row, this`col
    {
      1 <= row < 0x8000_0000 && 1 <= col < 0x8000_0000
    }

    /** Both screens have row rows of col cells, there is a dirty flag per
        row and the selection lies on the screen. */
    ghost predicate Screens()
      reads this`row, this`col, this`page, this`alt
    {
      PageOk(page, col, row) && IsScreen(alt, col, row)
    }

    /** One tab stop per column, two saved cursors, four charset slots
        and a charset index among them. */
    ghost predicate Buffers()
      reads this`col, this`tabs, this`saved, this`trantbl, this`charset, this`icharset
    {
      |tabs| == col && |saved| == 2 && |trantbl| == 4
      && 0 <= charset < 4 && 0 <= icharset < 4
    }

    /** The scrolling region lies on the screen. */
    ghost predicate Region()
      reads this`row, this`top, this`bot
    {
      0 <= top <= bot < row
    }

    /** The escape records are well formed, in buffers of their own;
        while a CSI sequence is read one more byte fits, and right after
        ESC the buffer is empty. */
    ghost predicate EscOk()
      reads this`esc, csi, str
    {
      csi.Valid() && str.Valid() && csi.buf != str.buf
      && (EscCsi in esc ==> csi.len < EscBufSize - 1)
      && (EscStart in esc && EscCsi !in esc ==> csi.len == 0)
    }

    /** The invariant every operation keeps: Sound, and the cursor on the
        screen. */
    ghost predicate Valid()
      reads this, csi, str
    {
      Sound() && 0 <= cursor.x < col && 0 <= cursor.y < row
    }

    /** The state treset leaves: the cursor to the origin with the
        default colours and saved for both screens, tab stops every
        TabSpaces columns, the whole screen as scrolling region, only
        auto-wrap on, US ASCII in every charset slot, and both screens
        blank in the default colours. */
    ghost predicate Defaults()
      reads this`row, this`col, this`cursor, this`saved, this`tabs, this`top, this`bot, this`mode
      reads this`trantbl, this`charset, this`page, this`alt
    {
      && Dims()
      && cursor == ResetCursor && saved == [ResetCursor, ResetCursor]
      && tabs == InitialTabs(col) && top == 0 && bot == row - 1 && mode == {ModeWrap}
      && trantbl == [Usa, Usa, Usa, Usa] && charset == 0
      && page.line == BlankScreen(col, row, BlankGlyph(Config.DefaultFg, Config.DefaultBg))
      && alt == BlankScreen(col, row, BlankGlyph(Config.DefaultFg, Config.DefaultBg))
    }

    /** tnew: a terminal of col by row cells (a C int size of at least
        one by one: below that tresize refuses it and treset would clear
        screens that do not exist), the numeric keypad on, then treset.
        The terminal starts zeroed but for the cursor's default colours;
        the screens tresize allocates and clears from it are blank here
        already. The selection starts as selinit leaves it. */
    constructor (c: int, r: int)
      requires 1 <= c < 0x8000_0000 && 1 <= r < 0x8000_0000
      ensures Valid() && Defaults() && Started(c, r)
    {
      csi := new CsiEscape();
      str := new StrEscape();
      var g := BlankGlyph(Config.DefaultFg, Config.DefaultBg);
      var screen := BlankScreen(c, r, g);
      var p := Page(screen, seq(r, _ => true), NoSelection);
      assert PageOk(p, c, r);
      row, col := r, c;
      page, alt, tabs := p, screen, seq(c, _ => false);
      cursor := ResetCursor;
      saved := [TCursor(Glyph(0, {}, 0, 0), 0, 0, {}), TCursor(Glyph(0, {}, 0, 0), 0, 0, {})];
      top, bot := 0, r - 1;
      mode, esc := {}, {};
      trantbl := [Graphic0, Graphic0, Graphic0, Graphic0];
      charset, icharset, numlock := 0, 0, 0;
      out := [];
      new;
      Start();
    }

    /** The end of tnew, once tresize has sized the zeroed terminal: the
        numeric keypad on, then treset. */
    method Start()
      requires Valid() && esc == {} && out == [] && icharset == 0 && page.sel == NoSelection
      modifies this
      ensures Valid() && Defaults() && Started(old(col), old(row))
    {
      numlock := 1;
      Reset();
      assert ClearedIf(NoSelection, SelHit(NoSelection, 0, 0, col - 1, row - 1)) == NoSelection;
    }

    /** What tnew leaves besides the treset state: the size asked for,
        the numeric keypad on, no escape sequence under way, nothing
        written yet, G0 as the charset to set, and nothing selected. */
    ghost predicate Started(c: int, r: int)
      reads this
    {
      col == c && row == r && numlock == 1 && esc == {} && out == [] && icharset == 0
      && page.sel == NoSelection
    }

    /** The blank cell tclearregion writes: a space without attributes in
        the cursor's colours. */
    function CursorBlank(): (g: Glyph)
      reads this`cursor
      ensures g.u == ' ' as Rune && g.mode == {}
    {
      BlankGlyph(cursor.attr.fg, cursor.attr.bg)
    }

    /** tsetdirt: rows y1..y2, each clamped to the screen, are marked
        dirty. */
    method SetDirt(y1: int, y2: int)
      requires Valid()
      modifies this`page
      ensures Valid()
      ensures page == old(page).(dirty := MarkRows(old(page).dirty, Limit(y1, 0, row - 1), Limit(y2, 0, row - 1)))
    {
      var d := Edit.SetDirt(page.dirty, y1, y2);
      page := page.(dirty := d);
    }

    /** tfulldirt: every row dirty. */
    method FullDirt()
      requires Valid()
      modifies this`page
      ensures Valid()
      ensures page.line == old(page).line && page.sel == old(page).sel
      ensures forall i :: 0 <= i < row ==> page.dirty[i]
    {
      SetDirt(0, row - 1);
    }

    /** selclear. */
    method SelClear()
      requires Valid()
      modifies this`page
      ensures Valid()
      ensures page == Unselected(old(page))
    {
      page := Edit.SelClear(page);
    }

    /** tclearregion, blanking in the cursor's colours. */
    method ClearRegion(x1: int, y1: int, x2: int, y2: int)
      requires Valid()
      modifies this`page
      ensures Valid()
      ensures page == Blanked(old(page), col, x1, y1, x2, y2, CursorBlank())
    {
      page := Edit.ClearRegion(page, col, x1, y1, x2, y2, CursorBlank());
    }

    /** tmoveto: the cursor goes to (x, y) clamped to the screen, in
        origin mode to the scroll region; a pending wrap is cancelled. */
    method MoveTo(x: int, y: int)
      requires Sound()
      modifies this`cursor
      ensures Valid()
      ensures cursor.attr == old(cursor).attr && cursor.state == old(cursor).state - {WrapNext}
      ensures 0 <= x < col ==> cursor.x == x
      ensures x < 0 ==> cursor.x == 0
      ensures x >= col ==> cursor.x == col - 1
      ensures Origin in cursor.state ==> top <= cursor.y <= bot
      ensures (if Origin in cursor.state then top <= y <= bot else 0 <= y < row) ==> cursor.y == y
      ensures y < (if Origin in cursor.state then top else 0) ==> cursor.y == (if Origin in cursor.state then top else 0)
      ensures y > (if Origin in cursor.state then bot else row - 1) ==> cursor.y == (if Origin in cursor.state then bot else row - 1)
      ensures cursor == MovedTo(old(cursor), x, y, col, row, top, bot)
    {
      var miny, maxy;
      if Origin in cursor.state {
        miny, maxy := top, bot;
      } else {
        miny, maxy := 0, row - 1;
      }
      cursor := cursor.(state := cursor.state - {WrapNext}, x := Limit(x, 0, col - 1), y := Limit(y, miny, maxy));
    }

    /** tmoveato: in origin mode y counts from the top of the region (the
        sum is a C int). */
    method MoveATo(x: int, y: int)
      requires Valid()
      modifies this`cursor
      ensures Valid()
      ensures cursor.attr == old(cursor).attr && cursor.state == old(cursor).state - {WrapNext}
      ensures 0 <= x < col ==> cursor.x == x
      ensures Origin in cursor.state && 0 <= y <= bot - top ==> cursor.y == top + y
      ensures Origin !in cursor.state && 0 <= y < row ==> cursor.y == y
      ensures cursor == MovedTo(old(cursor), x, Int32(y + (if Origin in old(cursor).state then top else 0)), col, row, top, bot)
    {
      MoveTo(x, Int32(y + (if Origin in cursor.state then top else 0)));
    }

    /** tsetscroll: both bounds clamped to the screen and put in order. */
    method SetScroll(t: int, b: int)
      requires Dims()
      modifies this`top, this`bot
      ensures Region()
      ensures (top, bot) == Span(t, b, row)
    {
      var a := Limit(t, 0, row - 1);
      var c := Limit(b, 0, row - 1);
      if a > c {
        a, c := c, a;
      }
      top, bot := a, c;
    }

    /** tswapscreen: the two screens trade places, the alternate-screen
        mode flips and every row is dirty. */
    method SwapScreen()
      requires Valid()
      modifies this`page, this`alt, this`mode
      ensures Valid()
      ensures page.line == old(alt) && alt == old(page).line && page.sel == old(page).sel
      ensures mode == Toggled(old(mode))
      ensures forall i :: 0 <= i < row ==> page.dirty[i]
    {
      var l := page.line;
      page, alt := page.(line := alt), l;
      mode := Toggled(mode);
      FullDirt();
    }

    /** tcursor(XELT_CURSOR_SAVE): the cursor is kept in the slot of the
        current screen. */
    method CursorSave()
      requires Valid()
      modifies this`saved
      ensures Valid()
      ensures saved == old(saved)[AltIndex(mode) := cursor]
    {
      saved := saved[AltIndex(mode) := cursor];
    }

    /** tcursor(XELT_CURSOR_LOAD): the cursor saved for this screen comes
        back, moved onto the screen as tmoveto clamps it. */
    method CursorLoad()
      requires Valid()
      modifies this`cursor
      ensures Valid()
      ensures var c := saved[AltIndex(mode)];
        cursor.attr == c.attr && cursor.state == c.state - {WrapNext}
        && (0 <= c.x < col ==> cursor.x == c.x)
        && ((if Origin in c.state then top <= c.y <= bot else 0 <= c.y < row) ==> cursor.y == c.y)
      ensures cursor == MovedTo(saved[AltIndex(mode)], saved[AltIndex(mode)].x, saved[AltIndex(mode)].y, col, row, top, bot)
    {
      var c := saved[AltIndex(mode)];
      cursor := c;
      MoveTo(c.x, c.y);
    }
  

    /** selnormalize on the terminal's selection. */
    method SelNormalize()
      requires Valid() && InGrid(page.sel.ob, col, row) && InGrid(page.sel.oe, col, row)
      modifies this`page
      ensures Valid()
      ensures page == old(page).(sel := Normalize(page.line, col, row, old(page).sel))
    {
      var s := Edit.SelNormalize(page.line, col, page.sel);
      page := page.(sel := s);
    }

    /** selscroll over the scrolling region. */
    method SelScroll(orig: int, n: int)
      requires Valid()
      modifies this`page
      ensures Valid()
      ensures page == SelFollowed(old(page), col, top, bot, orig, n)
    {
      page := Edit.SelScroll(page, col, top, bot, orig, n);
    }

    /** tscrollup, blanking in the cursor's colours; Edit.ScrollUpRows,
        ScrollUpDirty and ScrollUpSelection say what it does. */
    method ScrollUp(orig: int, n: int)
      requires Valid() && top <= orig <= bot
      modifies this`page
      ensures Valid()
      ensures page == ScrollUpPage(old(page), old(col), old(top), old(bot), orig, n, old(CursorBlank()))
    {
      var p, c, t, b, g := page, col, top, bot, CursorBlank();
      page := Edit.ScrollUp(p, c, t, b, orig, n, g);
    }

    /** tscrolldown, blanking in the cursor's colours; Edit.ScrollDownRows,
        ScrollDownDirty and ScrollDownSelection say what it does. */
    method ScrollDown(orig: int, n: int)
      requires Valid() && top <= orig <= bot
      modifies this`page
      ensures Valid()
      ensures page == ScrollDownPage(old(page), old(col), old(top), old(bot), orig, n, old(CursorBlank()))
    {
      var p, c, t, b, g := page, col, top, bot, CursorBlank();
      page := Edit.ScrollDown(p, c, t, b, orig, n, g);
    }

    /** tnewline: the cursor goes one row down, or at the bottom of the
        scrolling region the region scrolls up one row instead; with
        firstCol it returns to column 0. */
    method NewLine(firstCol: bool)
      requires Valid()
      modifies this`page, this`cursor
      ensures Valid()
      ensures old(cursor.y) == bot ==>
        page == ScrollUpPage(old(page), col, top, bot, top, 1, old(CursorBlank())) && cursor.y == bot
      ensures old(cursor.y) != bot ==>
        page == old(page)
        && cursor.y == (if Origin in cursor.state then Limit(old(cursor.y) + 1, top, bot) else Limit(old(cursor.y) + 1, 0, row - 1))
      ensures cursor.x == (if firstCol then 0 else old(cursor.x))
      ensures cursor.attr == old(cursor.attr) && cursor.state == old(cursor.state) - {WrapNext}
      ensures (page, cursor) == Fed(old(page), old(cursor), firstCol, col, row, top, bot)
    {
      var y := cursor.y;
      if y == bot {
        ScrollUp(top, 1);
      } else {
        y := y + 1;
      }
      MoveTo(if firstCol then 0 else cursor.x, y);
    }
 
    /** tsetchar at (x, y) with the cursor's attributes; the DEC graphics
        set applies when it is the charset in use. */
    method SetChar(u: Rune, x: int, y: int)
      requires Valid() && 0 <= x < col && 0 <= y < row
      modifies this`page
      ensures Valid()
      ensures page == Written(old(page), col, u, cursor.attr, x, y, trantbl[charset] == Graphic0)
    {
      var p, c, a, gr := page, col, cursor.attr, trantbl[charset] == Graphic0;
      page := Edit.SetChar(p, c, u, a, x, y, gr);
    }

    /** tdeletechar at the cursor, blanking in the cursor's colours;
        Edit.DeleteCharEffect says what it does. */
    method DeleteChar(n: int)
      requires Valid()
      modifies this`page
      ensures Valid()
      ensures page == CharsDeleted(old(page), col, cursor.x, cursor.y, n, CursorBlank())
    {
      var p, c, x, y, g := page, col, cursor.x, cursor.y, CursorBlank();
      page := Edit.DeleteChar(p, c, x, y, n, g);
    }

    /** tinsertblank at the cursor, blanking in the cursor's colours;
        Edit.InsertBlankEffect says what it does. */
    method InsertBlank(n: int)
      requires Valid()
      modifies this`page
      ensures Valid()
      ensures page == BlanksInserted(old(page), col, cursor.x, cursor.y, n, CursorBlank())
    {
      var p, c, x, y, g := page, col, cursor.x, cursor.y, CursorBlank();
      page := Edit.InsertBlank(p, c, x, y, n, g);
    }

    /** tinsertblankline: inside the scrolling region, the rows from the
        cursor's down scroll down n; outside it nothing happens. */
    method InsertBlankLine(n: int)
      requires Valid()
      modifies this`page
      ensures Valid()
      ensures Between(cursor.y, top, bot) ==> page == ScrollDownPage(old(page), col, top, bot, cursor.y, n, CursorBlank())
      ensures !Between(cursor.y, top, bot) ==> page == old(page)
    {
      if Between(cursor.y, top, bot) {
        ScrollDown(cursor.y, n);
      }
    }

    /** tdeleteline: inside the scrolling region, the rows from the
        cursor's down scroll up n; outside it nothing happens. */
    method DeleteLine(n: int)
      requires Valid()
      modifies this`page
      ensures Valid()
      ensures Between(cursor.y, top, bot) ==> page == ScrollUpPage(old(page), col, top, bot, cursor.y, n, CursorBlank())
      ensures !Between(cursor.y, top, bot) ==> page == old(page)
    {
      if Between(cursor.y, top, bot) {
        ScrollUp(cursor.y, n);
      }
    }

    /** tputtab: n tab stops forward, or -n back, from the cursor; the
        column is then clamped to the screen. Nothing else of the cursor
        changes, not even a pending wrap. */
    method PutTab(n: int)
      requires Valid()
      modifies this`cursor
      ensures Valid()
      ensures cursor == old(cursor).(x := Limit(TabTarget(tabs, old(cursor).x, n), 0, col - 1))
    {
      var t, x0 := tabs, cursor.x;
      var x := Hop(t, x0, n);
      cursor := cursor.(x := Limit(x, 0, col - 1));
    }

    /** tdeftran: the final byte of ESC ( ) * + designates the charset of
        the slot icharset; '0' is the DEC graphics set and 'B' US ASCII;
        any other byte changes nothing (the corrected lookup, see
        Grid.TranNulOutOfTable). */
    method DefTran(b: Byte)
      requires Valid()
      modifies this`trantbl
      ensures Valid()
      ensures TranFor(b).Some? ==> trantbl == old(trantbl)[icharset := TranFor(b).value]
      ensures TranFor(b).None? ==> trantbl == old(trantbl)
    {
      var c := TranFor(b);
      if c.Some? {
        trantbl := trantbl[icharset := c.value];
      }
    }

    /** tdectest: ESC # 8 fills the screen with 'E' in the cursor's
        attributes (Edit.Align); any other byte does nothing. */
    method DecTest(b: Byte)
      requires Valid()
      modifies this`page
      ensures Valid()
      ensures b != '8' as Byte ==> page == old(page)
      ensures b == '8' as Byte ==> page.sel == old(page).sel && forall y :: 0 <= y < row ==> page.dirty[y]
      ensures b == '8' as Byte ==> forall y, x :: 0 <= y < row && 0 <= x < col ==>
        AlignedCell(page.line[y][x], cursor.attr, Stored('E' as Rune, trantbl[charset] == Graphic0))
      ensures b == '8' as Byte && Wide !in cursor.attr.mode && WDummy !in cursor.attr.mode && WideOk(old(page).line) ==>
        forall y, x :: 0 <= y < row && 0 <= x < col ==>
          page.line[y][x] == cursor.attr.(u := Stored('E' as Rune, trantbl[charset] == Graphic0))
    {
      if b == '8' as Byte {
        var p, c, a, gr := page, col, cursor.attr, trantbl[charset] == Graphic0;
        page := Align(p, c, a, 'E' as Rune, gr);
      }
    }
 
    /** The start of a pass of treset's loop: the cursor, already the
        reset cursor, to the origin and saved for this screen. */
    method ResetHome()
      requires Valid() && cursor == ResetCursor
      modifies this`saved, this`cursor
      ensures Valid() && cursor == ResetCursor
      ensures saved == old(saved)[AltIndex(mode) := ResetCursor]
    {
      MoveTo(0, 0);
      CursorSave();
    }

    /** The end of a pass of treset's loop: the whole screen blanked in
        the cursor's colours, the screens swapped. */
    method ResetSwap()
      requires Valid()
      modifies this`page, this`alt, this`mode
      ensures Valid()
      ensures mode == Toggled(old(mode))
      ensures page.line == old(alt) && alt == BlankScreen(col, row, CursorBlank())
      ensures forall y :: 0 <= y < row ==> page.dirty[y]
      ensures page.sel == ClearedIf(old(page).sel, SelHit(old(page).sel, 0, 0, col - 1, row - 1))
    {
      var p, c, g := page, col, CursorBlank();
      BlankedWhole(p, c, g);
      ClearRegion(0, 0, col - 1, row - 1);
      SwapScreen();
    }

    /** One pass of treset's loop. */
    method ResetPass()
      requires Valid() && cursor == ResetCursor
      modifies this`saved, this`page, this`alt, this`mode, this`cursor
      ensures Valid() && cursor == ResetCursor
      ensures saved == old(saved)[AltIndex(old(mode)) := ResetCursor]
      ensures mode == Toggled(old(mode))
      ensures page.line == old(alt) && alt == BlankScreen(col, row, CursorBlank())
      ensures forall y :: 0 <= y < row ==> page.dirty[y]
      ensures page.sel == ClearedIf(old(page).sel, SelHit(old(page).sel, 0, 0, col - 1, row - 1))
    {
      ResetHome();
      ResetSwap();
    }

    /** The first part of tresize for a size of at least one by one: the
        k rows above the cursor that would push it off the new screen
        dropped, both screens reallocated, the tab stops resized, the
        size set and the whole screen made the scrolling region. A
        selection not on the new screen is dropped (see ResizedSel). The
        cursor may now be off the screen. */
    method ResizeBuffers(c: int, r: int) returns (mincol: int, minrow: int)
      requires Valid() && 1 <= c < 0x8000_0000 && 1 <= r < 0x8000_0000
      modifies this`row, this`col, this`page, this`alt, this`tabs
      ensures Dims() && Screens() && Buffers() && EscOk()
      ensures mincol == Min(c, old(col)) && minrow == Min(r, old(row))
      ensures col == c && row == r && tabs == ResizeTabs(old(tabs), c)
      ensures page.line == Reshape(old(page).line, old(col), cursor.y, c, r)
      ensures alt == Reshape(old(alt), old(col), cursor.y, c, r)
      ensures page.sel == if SelInBounds(old(page).sel, c, r) then old(page).sel else Cleared(old(page).sel)
    {
      var p, a, t, w, y := page, alt, tabs, col, cursor.y;
      mincol, minrow := Min(c, col), Min(r, row);
      var t' := ResizeStops(t, c);
      page, alt, tabs := Reallocated(p, w, y, c, r), Reshape(a, w, y, c, r), t';
      col, row := c, r;
    }

    /** One pass of tresize's loop: the clears on the shown screen in the
        cursor's colours, the swap, and the cursor saved for the screen
        now shown loaded. */
    method ResizePass(mincol: int, minrow: int)
      requires Valid() && 0 <= mincol <= col && 0 <= minrow <= row
      modifies this`page, this`alt, this`mode, this`cursor
      ensures Valid()
      ensures alt == ResizeCleared(old(page), col, mincol, minrow, old(CursorBlank())).line
      ensures page.line == old(alt)
      ensures page.sel == ResizeCleared(old(page), col, mincol, minrow, old(CursorBlank())).sel
      ensures mode == Toggled(old(mode))
      ensures forall i :: 0 <= i < row ==> page.dirty[i]
      ensures cursor.attr == saved[AltIndex(mode)].attr
    {
      var p, c, g := page, col, CursorBlank();
      var q := Edit.ResizeClear(p, c, mincol, minrow, g);
      page := q;
      SwapScreen();
      CursorLoad();
    }

    /** The loop of tresize: a pass on each screen, each in the colours
        of the cursor in use for it, and the cursor put back. */
    method ResizeLoop(mincol: int, minrow: int)
      requires Valid() && 0 <= mincol <= col && 0 <= minrow <= row
      modifies this`page, this`alt, this`mode, this`cursor
      ensures Valid()
      ensures page.line == Refilled(old(page).line, col, row, mincol, minrow, old(CursorBlank()))
      ensures alt == Refilled(old(alt), col, row, mincol, minrow,
                              BlankGlyph(saved[1 - AltIndex(mode)].attr.fg, saved[1 - AltIndex(mode)].attr.bg))
      ensures page.sel == ClearedIf(old(page).sel, ResizeHit(old(page).sel, col, row, mincol, minrow))
      ensures mode == old(mode) && cursor == old(cursor)
      ensures forall i :: 0 <= i < row ==> page.dirty[i]
    {
      var cur, p, m, c := cursor, page, mode, col;
      var g := CursorBlank();
      ResizePass(mincol, minrow);
      ghost var q, h := page, CursorBlank();
      ResizePass(mincol, minrow);
      ToggledTwice(m);
      cursor := cur;
      ResizeClearedParts(p, c, mincol, minrow, g);
      ResizeClearedParts(q, c, mincol, minrow, h);
      ResizeHitOnce(p.sel, c, |p.line|, mincol, minrow);
    }

    /** tresize: a size below one by one is refused and changes nothing.
        Otherwise the cells of both screens that fit stay where they were,
        k rows higher when the cursor's row would fall off the bottom,
        and every other cell is blank: in the cursor's colours on the
        shown screen, in those of the cursor saved for the other screen
        on the other. Every row is dirty, the tab stops are resized, the
        whole screen is the scrolling region and the cursor is clamped
        onto the screen. */
    method Resize(c: int, r: int)
      requires Valid() && c < 0x8000_0000 && r < 0x8000_0000
      modifies this`row, this`col, this`page, this`alt, this`tabs, this`top, this`bot, this`cursor, this`mode
      ensures Valid()
      ensures c < 1 || r < 1 ==> unchanged(this)
      ensures 1 <= c && 1 <= r ==> col == c && row == r && top == 0 && bot == r - 1 && mode == old(mode)
      ensures 1 <= c && 1 <= r ==> tabs == ResizeTabs(old(tabs), c)
      ensures 1 <= c && 1 <= r ==>
        cursor == old(cursor).(x := Min(old(cursor).x, c - 1), y := Min(old(cursor).y, r - 1),
                               state := old(cursor).state - {WrapNext})
      ensures 1 <= c && 1 <= r ==>
        page.line == Resized(old(page).line, old(col), old(cursor).y, c, r, BlankGlyph(old(cursor).attr.fg, old(cursor).attr.bg))
      ensures 1 <= c && 1 <= r ==>
        alt == Resized(old(alt), old(col), old(cursor).y, c, r,
                       BlankGlyph(saved[1 - AltIndex(mode)].attr.fg, saved[1 - AltIndex(mode)].attr.bg))
      ensures 1 <= c && 1 <= r ==> page.sel == ResizedSel(old(page).sel, c, r, Min(c, old(col)), Min(r, old(row)))
      ensures 1 <= c && 1 <= r ==> forall i :: 0 <= i < r ==> page.dirty[i]
    {
      if c < 1 || r < 1 {
        // the error message on stderr is not modelled
        return;
      }
      var mincol, minrow := ResizeBuffers(c, r);
      ResizeSettle(mincol, minrow);
    }

    /** The rest of tresize once the buffers have their new size: the
        whole screen as scrolling region, the cursor clamped onto the
        screen, and the loop over both screens. */
    method ResizeSettle(mincol: int, minrow: int)
      requires Dims() && Screens() && Buffers() && EscOk()
      requires 0 <= mincol <= col && 0 <= minrow <= row && 0 <= cursor.x && 0 <= cursor.y
      modifies this`top, this`bot, this`cursor, this`page, this`alt, this`mode
      ensures Valid()
      ensures top == 0 && bot == row - 1 && mode == old(mode)
      ensures cursor == old(cursor).(x := Min(old(cursor).x, col - 1), y := Min(old(cursor).y, row - 1),
                                     state := old(cursor).state - {WrapNext})
      ensures page.line == Refilled(old(page).line, col, row, mincol, minrow, old(CursorBlank()))
      ensures alt == Refilled(old(alt), col, row, mincol, minrow,
                              BlankGlyph(saved[1 - AltIndex(mode)].attr.fg, saved[1 - AltIndex(mode)].attr.bg))
      ensures page.sel == ClearedIf(old(page).sel, ResizeHit(old(page).sel, col, row, mincol, minrow))
      ensures forall i :: 0 <= i < row ==> page.dirty[i]
    {
      SetScroll(0, row - 1);
      MoveTo(cursor.x, cursor.y);
      ResizeLoop(mincol, minrow);
    }

    /** The assignments treset makes before its loop over the screens. */
    method ResetFields()
      requires Valid()
      modifies this`tabs, this`top, this`bot, this`mode, this`trantbl, this`charset
      ensures Valid()
      ensures tabs == InitialTabs(col) && top == 0 && bot == row - 1 && mode == {ModeWrap}
      ensures trantbl == [Usa, Usa, Usa, Usa] && charset == 0
    {
      var t := ResetStops(col);
      tabs, top, bot := t, 0, row - 1;
      ResetCharsets();
    }

    /** The flags and the charsets as treset sets them. */
    method ResetCharsets()
      requires Valid()
      modifies this`mode, this`trantbl, this`charset
      ensures Valid()
      ensures mode == {ModeWrap} && trantbl == [Usa, Usa, Usa, Usa] && charset == 0
    {
      mode, trantbl, charset := {ModeWrap}, [Usa, Usa, Usa, Usa], 0;
    }

    /** The loop of treset: two passes, one per screen, from the main
        screen; both screens end up blank in the default colours, the
        reset cursor is saved for both, and the main screen is shown
        again. */
    method ResetScreens()
      requires Valid() && cursor == ResetCursor && mode == {ModeWrap}
      modifies this`saved, this`page, this`alt, this`mode, this`cursor
      ensures Valid()
      ensures cursor == ResetCursor && saved == [ResetCursor, ResetCursor] && mode == {ModeWrap}
      ensures page.line == BlankScreen(col, row, BlankGlyph(Config.DefaultFg, Config.DefaultBg))
      ensures alt == BlankScreen(col, row, BlankGlyph(Config.DefaultFg, Config.DefaultBg))
      ensures forall y :: 0 <= y < row ==> page.dirty[y]
      ensures page.sel == ClearedIf(old(page).sel, SelHit(old(page).sel, 0, 0, col - 1, row - 1))
    {
      ghost var s0 := page.sel;
      ResetPass();
      ResetPass();
      ToggledTwice({ModeWrap});
      ClearedIfTwice(s0, 0, 0, col - 1, row - 1);
    }

    /** treset: the cursor to the origin with the default colours and
        saved for both screens, tab stops every TabSpaces columns, the
        whole screen as scrolling region, only auto-wrap on, US ASCII in
        every charset slot, and both screens blank and dirty. A selection
        touching the screen is dropped. */
    method Reset()
      requires Valid()
      modifies this`cursor, this`tabs, this`top, this`bot, this`mode, this`trantbl, this`charset
      modifies this`saved, this`page, this`alt
      ensures Valid() && Defaults()
      ensures forall y :: 0 <= y < row ==> page.dirty[y]
      ensures page.sel == ClearedIf(old(page).sel, SelHit(old(page).sel, 0, 0, col - 1, row - 1))
    {
      cursor := ResetCursor;
      ResetFields();
      ResetScreens();
    }
  }
}
