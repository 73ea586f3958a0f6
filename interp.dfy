/** The parts of src/xelt.c that carry out what a sequence asks of the
    terminal: csihandle once Dispatch has decoded the final byte,
    tsetmode, tsetattr, strhandle, tcontrolcode, eschandle and tputc.
    Each is a method on the terminal, specified by Dispatch's, Modes' and
    Edit's functions of the state it starts from. */
module Interp {
  import opened Utf8
  import opened Types
  import opened Macros
  import opened Grid
  import opened Edit
  import opened Escape
  import opened Term
  import opened Modes
  import opened Put
  import opened Select
  import D = Dispatch
  import Sgr
  import Config

  /** The page after the tclearregion calls of an erase, in order. */
  function Erased(p: Page, col: int, rects: seq<D.Rect>, g: Glyph): (r: Page)
    requires PageOk(p, col, |p.line|)
    ensures PageOk(r, col, |p.line|)
    decreases |rects|
  {
    if rects == [] then p
    else Erased(Blanked(p, col, rects[0].x1, rects[0].y1, rects[0].x2, rects[0].y2, g), col, rects[1..], g)
  }

  /** An erase blanks exactly the cells its rectangles cover and keeps
      every other cell. */
  lemma {:induction false} ErasedCells(p: Page, col: int, rects: seq<D.Rect>, g: Glyph)
    requires PageOk(p, col, |p.line|)
    ensures var r := Erased(p, col, rects, g);
      forall y, x :: 0 <= y < |p.line| && 0 <= x < col ==>
        r.line[y][x] == if D.Covered(rects, col, |p.line|, x, y) then g else p.line[y][x]
    decreases |rects|
  {
    if rects != [] {
      var c := rects[0];
      var m := Blanked(p, col, c.x1, c.y1, c.x2, c.y2, g);
      BlankedCells(p, col, c.x1, c.y1, c.x2, c.y2, g);
      ErasedCells(m, col, rects[1..], g);
      forall y, x | 0 <= y < |p.line| && 0 <= x < col
        ensures D.Covered(rects, col, |p.line|, x, y) <==>
          D.InRect(c, col, |p.line|, x, y) || D.Covered(rects[1..], col, |p.line|, x, y)
      {
        if D.Covered(rects, col, |p.line|, x, y) {
          var k :| 0 <= k < |rects| && D.InRect(rects[k], col, |p.line|, x, y);
          if k > 0 {
            assert rects[1..][k - 1] == rects[k];
          }
        }
        if D.Covered(rects[1..], col, |p.line|, x, y) {
          var k :| 0 <= k < |rects[1..]| && D.InRect(rects[1..][k], col, |p.line|, x, y);
          assert rects[k + 1] == rects[1..][k];
        }
      }
    }
  }

  /** The tclearregion calls of ED, EL and ECH, after selclear for ED. */
  method Erase(t: Terminal, unselect: bool, rects: seq<D.Rect>)
    requires t.Valid()
    modifies t`page
    ensures t.Valid()
    ensures t.page == Erased(if unselect then Unselected(old(t.page)) else old(t.page), t.col, rects, t.CursorBlank())
  {
    if unselect {
      t.SelClear();
    }
    ghost var p0 := t.page;
    var i := 0;
    while i < |rects|
      invariant 0 <= i <= |rects| && t.Valid()
      invariant Erased(p0, t.col, rects, t.CursorBlank()) == Erased(t.page, t.col, rects[i..], t.CursorBlank())
    {
      assert rects[i..][1..] == rects[i + 1..];
      t.ClearRegion(rects[i].x1, rects[i].y1, rects[i].x2, rects[i].y2);
      i := i + 1;
    }
  }

  /** The fields of the terminal that the actions below read and change,
      apart from the call log, the escape flags and the escape records:
      a snapshot of the state an action starts from. */
  datatype View = View(page: Page, alt: Screen, cursor: TCursor, saved: seq<TCursor>, mode: set<TermFlag>,
                       tabs: seq<bool>, top: int, bot: int, trantbl: seq<Charset>, charset: int, icharset: int)

  ghost function ViewOf(t: Terminal): View
    reads t`page, t`alt, t`cursor, t`saved, t`mode, t`tabs, t`top, t`bot, t`trantbl, t`charset, t`icharset
  {
    View(t.page, t.alt, t.cursor, t.saved, t.mode, t.tabs, t.top, t.bot, t.trantbl, t.charset, t.icharset)
  }

  /** t has the shape Terminal.Valid asks for, the escape records aside. */
  ghost predicate Shaped(t: Terminal)
    reads t`row, t`col, t`page, t`alt, t`tabs, t`saved, t`trantbl, t`charset, t`icharset, t`top, t`bot, t`cursor
  {
    t.Dims() && t.Screens() && t.Buffers() && t.Region() && 0 <= t.cursor.x < t.col && 0 <= t.cursor.y < t.row
  }

  /** v is the state of a valid terminal of t's size. */
  ghost predicate Fits(t: Terminal, v: View)
    reads t`row, t`col
  {
    && PageOk(v.page, t.col, t.row) && IsScreen(v.alt, t.col, t.row)
    && |v.saved| == 2 && |v.tabs| == t.col && |v.trantbl| == 4 && 0 <= v.charset < 4 && 0 <= v.icharset < 4
    && 0 <= v.top <= v.bot < t.row && 0 <= v.cursor.x < t.col && 0 <= v.cursor.y < t.row
  }

  /** The cursor tcursor(XELT_CURSOR_LOAD) brings back on t's screen. */
  ghost function Reloaded(t: Terminal): TCursor
    reads t`saved, t`mode, t`col, t`row, t`top, t`bot
    requires |t.saved| == 2 && 1 <= t.col && 1 <= t.row && 0 <= t.top <= t.bot < t.row
  {
    var c := t.saved[AltIndex(t.mode)];
    MovedTo(c, c.x, c.y, t.col, t.row, t.top, t.bot)
  }

  /** Every row of t's page is dirty. */
  ghost predicate AllDirty(t: Terminal)
    reads t`page, t`row
    requires |t.page.dirty| == t.row
  {
    forall y :: 0 <= y < t.row ==> t.page.dirty[y]
  }

  predicate CursorAction(a: D.Action)
  {
    a.Move? || a.MoveA? || a.Tab? || a.Save? || a.Load?
  }

  predicate EditAction(a: D.Action)
  {
    a.InsertBlanks? || a.ScrollUp? || a.ScrollDown? || a.InsertLines? || a.DeleteLines? || a.DeleteChars? || a.Erase?
  }

  predicate MiscAction(a: D.Action)
  {
    a.Emit? || a.PrintMode? || a.ClearTab? || a.ClearAllTabs? || a.Region?
  }

  /** The cursor and the saved cursors after a cursor action that starts
      from v. */
  ghost predicate CursorActed(t: Terminal, a: D.Action, v: View)
    reads t`row, t`col, t`page, t`alt, t`tabs, t`saved, t`trantbl, t`charset, t`icharset, t`top, t`bot, t`cursor, t`mode
    requires Shaped(t) && Fits(t, v)
  {
    && (a.Move? ==> t.cursor == MovedTo(v.cursor, a.x, a.y, t.col, t.row, t.top, t.bot))
    && (a.MoveA? ==> t.cursor == MovedTo(v.cursor, a.x, Int32(a.y + (if Origin in v.cursor.state then t.top else 0)), t.col, t.row, t.top, t.bot))
    && (a.Tab? ==> t.cursor == v.cursor.(x := Limit(Tabs.TabTarget(t.tabs, v.cursor.x, a.n), 0, t.col - 1)))
    && (a.Save? ==> t.saved == v.saved[AltIndex(t.mode) := t.cursor] && t.cursor == v.cursor)
    && (a.Load? ==> t.cursor == Reloaded(t))
    && (!a.Save? ==> t.saved == v.saved)
  }

  /** The cursor actions of csihandle: CUU, CUD, CUF, CUB, CNL, CPL,
      CHA, VPR, HPR, HPA move with tmoveto; CUP, HVP and VPA with
      tmoveato; CHT and CBT with tputtab; DECSC and DECRC with tcursor. */
  method MoveCursor(t: Terminal, a: D.Action)
    requires t.Valid() && CursorAction(a)
    modifies t`cursor, t`saved
    ensures t.Valid() && CursorDone(t, a, old(ViewOf(t)), old(t.out))
  {
    match a
    case Move(x, y) => t.MoveTo(x, y);
    case MoveA(x, y) => t.MoveATo(x, y);
    case Tab(n) => t.PutTab(n);
    case Save => t.CursorSave();
    case Load => t.CursorLoad();
  }

  /** The page after a screen action that starts from v, the cursor and
      the region being t's. */
  ghost predicate ScreenEdited(t: Terminal, a: D.Action, v: View)
    reads t`row, t`col, t`page, t`alt, t`tabs, t`saved, t`trantbl, t`charset, t`icharset, t`top, t`bot, t`cursor
    requires Shaped(t) && Fits(t, v)
  {
    var p, g := v.page, t.CursorBlank();
    && (a.InsertBlanks? ==> t.page == BlanksInserted(p, t.col, t.cursor.x, t.cursor.y, a.n, g))
    && (a.DeleteChars? ==> t.page == CharsDeleted(p, t.col, t.cursor.x, t.cursor.y, a.n, g))
    && (a.ScrollUp? ==> t.page == ScrollUpPage(p, t.col, t.top, t.bot, t.top, a.n, g))
    && (a.ScrollDown? ==> t.page == ScrollDownPage(p, t.col, t.top, t.bot, t.top, a.n, g))
    && (a.InsertLines? && Between(t.cursor.y, t.top, t.bot) ==> t.page == ScrollDownPage(p, t.col, t.top, t.bot, t.cursor.y, a.n, g))
    && (a.DeleteLines? && Between(t.cursor.y, t.top, t.bot) ==> t.page == ScrollUpPage(p, t.col, t.top, t.bot, t.cursor.y, a.n, g))
    && ((a.InsertLines? || a.DeleteLines?) && !Between(t.cursor.y, t.top, t.bot) ==> t.page == p)
    && (a.Erase? ==> t.page == Erased(if a.unselect then Unselected(p) else p, t.col, a.rects, g))
  }

  /** The screen actions of csihandle: ICH, SU, SD, IL, DL, DCH and the
      erases ED, EL and ECH. */
  method EditScreen(t: Terminal, a: D.Action)
    requires t.Valid() && EditAction(a)
    modifies t`page
    ensures t.Valid() && EditDone(t, a, old(ViewOf(t)), old(t.out))
  {
    match a
    case InsertBlanks(n) => t.InsertBlank(n);
    case ScrollUp(n) => t.ScrollUp(t.top, n);
    case ScrollDown(n) => t.ScrollDown(t.top, n);
    case InsertLines(n) => t.InsertBlankLine(n);
    case DeleteLines(n) => t.DeleteLine(n);
    case DeleteChars(n) => t.DeleteChar(n);
    case Erase(u, rs) => Erase(t, u, rs);
  }

  /** The call log, the modes, the tab stops, the region and the cursor
      after one of Misc's actions that starts from v and the log o0. */
  ghost predicate MiscDone(t: Terminal, a: D.Action, v: View, o0: seq<Effect>)
    reads t`row, t`col, t`page, t`alt, t`tabs, t`saved, t`trantbl, t`charset, t`icharset, t`top, t`bot, t`cursor, t`mode, t`out
    requires Shaped(t) && Fits(t, v)
  {
    && t.out == o0 + (if a.Emit? then [a.e] else [])
    && t.mode == (if a.PrintMode? then ModBit(v.mode, a.on, {Print}) else v.mode)
    && t.tabs == (if a.ClearTab? then v.tabs[t.cursor.x := false] else if a.ClearAllTabs? then seq(t.col, _ => false) else v.tabs)
    && (a.Region? ==> (t.top, t.bot) == Span(a.top, a.bot, t.row)
                      && t.cursor == MovedTo(v.cursor, 0, if Origin in v.cursor.state then t.top else 0, t.col, t.row, t.top, t.bot))
    && (!a.Region? ==> t.top == v.top && t.bot == v.bot && t.cursor == v.cursor)
  }

  /** The remaining actions of csihandle: the calls out (MC 0, 1, 2, DA,
      DSR 6, DECSCUSR), printer mode (MC 4, 5), TBC and DECSTBM. */
  method Misc(t: Terminal, a: D.Action)
    requires t.Valid() && MiscAction(a)
    modifies t`out, t`mode, t`tabs, t`top, t`bot, t`cursor
    ensures t.Valid() && MiscDone(t, a, old(ViewOf(t)), old(t.out))
  {
    match a
    case Emit(e) => t.out := t.out + [e];
    case PrintMode(on) => t.mode := ModBit(t.mode, on, {Print});
    case ClearTab => t.tabs := t.tabs[t.cursor.x := false];
    case ClearAllTabs => t.tabs := seq(t.col, _ => false);
    case Region(tp, bt) =>
      t.SetScroll(tp, bt);
      t.MoveATo(0, 0);
  }

  /** The cursor after DECOM set (on) or reset from c0: the origin flag
      changed, a pending wrap cancelled, and the cursor at the top of
      the scrolling region in origin mode, of the screen otherwise. */
  ghost predicate OriginSet(t: Terminal, on: bool, c0: TCursor)
    reads t`cursor, t`top
  {
    t.cursor == c0.(state := ModBit(c0.state, on, {Origin}) - {WrapNext}, x := 0, y := if on then t.top else 0)
  }

  /** DECOM (DEC 6): origin mode set or reset, then tmoveato(0, 0). */
  method SetOrigin(t: Terminal, on: bool)
    requires t.Valid()
    modifies t`cursor
    ensures t.Valid() && OriginSet(t, on, old(t.cursor))
  {
    t.cursor := t.cursor.(state := ModBit(t.cursor.state, on, {Origin}));
    t.MoveATo(0, 0);
  }

  /** The cursors after tcursor(on ? XELT_CURSOR_SAVE : XELT_CURSOR_LOAD)
      from the cursor c0 and the saved cursors s0. */
  ghost predicate SavedOrLoaded(t: Terminal, on: bool, c0: TCursor, s0: seq<TCursor>)
    reads t`saved, t`mode, t`col, t`row, t`top, t`bot, t`cursor
    requires |s0| == 2 && |t.saved| == 2 && 1 <= t.col && 1 <= t.row && 0 <= t.top <= t.bot < t.row
  {
    && (on ==> t.saved == s0[AltIndex(t.mode) := t.cursor] && t.cursor == c0)
    && (!on ==> t.saved == s0 && t.cursor == Reloaded(t))
  }

  /** tcursor(set ? XELT_CURSOR_SAVE : XELT_CURSOR_LOAD). */
  method SaveOrLoad(t: Terminal, on: bool)
    requires t.Valid()
    modifies t`cursor, t`saved
    ensures t.Valid() && SavedOrLoaded(t, on, old(t.cursor), old(t.saved))
  {
    if on {
      t.CursorSave();
    } else {
      t.CursorLoad();
    }
  }

  /** The screens and the modes after the swap of DEC 47 and 1047 from
      the page p0, the other screen a0 and the modes m0, blanking in g. */
  ghost predicate ScreenSwapped(t: Terminal, on: bool, p0: Page, a0: Screen, m0: set<TermFlag>, g: Glyph)
    reads t`row, t`col, t`page, t`alt, t`tabs, t`saved, t`trantbl, t`charset, t`icharset, t`top, t`bot, t`cursor, t`mode
    requires Shaped(t) && PageOk(p0, t.col, t.row) && IsScreen(a0, t.col, t.row)
  {
    var cleared := Blanked(p0, t.col, 0, 0, t.col - 1, t.row - 1, g);
    && t.mode == ModBit(m0, on, {AltScreen})
    && (AltScreen in m0 && on ==> t.page == cleared && t.page.line == BlankScreen(t.col, t.row, g) && t.alt == a0)
    && (AltScreen in m0 && !on ==>
          t.page.line == a0 && t.page.sel == cleared.sel && t.alt == BlankScreen(t.col, t.row, g) && AllDirty(t))
    && (AltScreen !in m0 && on ==> t.page.line == a0 && t.page.sel == p0.sel && t.alt == p0.line && AllDirty(t))
    && (AltScreen !in m0 && !on ==> t.page == p0 && t.alt == a0)
  }

  /** The swap of DEC 47 and 1047: on the alternate screen it is cleared
      first; the screens are swapped when the request differs from the
      screen in use. */
  method SwapAltScreen(t: Terminal, on: bool)
    requires t.Valid()
    modifies t`page, t`alt, t`mode
    ensures t.Valid() && ScreenSwapped(t, on, old(t.page), old(t.alt), old(t.mode), t.CursorBlank())
  {
    if AltScreen in t.mode {
      SwapFromAlt(t, on);
    } else if on {
      t.SwapScreen();
    }
  }

  /** The swap of DEC 47 and 1047 on the alternate screen: it is cleared,
      and swapped with the main screen when reset. */
  method SwapFromAlt(t: Terminal, on: bool)
    requires t.Valid() && AltScreen in t.mode
    modifies t`page, t`alt, t`mode
    ensures t.Valid() && ScreenSwapped(t, on, old(t.page), old(t.alt), old(t.mode), t.CursorBlank())
  {
    var p, c, g := t.page, t.col, t.CursorBlank();
    BlankedWhole(p, c, g);
    t.ClearRegion(0, 0, t.col - 1, t.row - 1);
    if on {
      assert ModBit(t.mode, on, {AltScreen}) == t.mode;
    } else {
      LeaveAlt(t, p, g);
    }
  }

  /** The swap back to the main screen once the alternate screen, the
      page p before the clear, has been cleared in g. */
  method LeaveAlt(t: Terminal, ghost p: Page, ghost g: Glyph)
    requires t.Valid() && AltScreen in t.mode && PageOk(p, t.col, t.row)
    requires t.page == Blanked(p, t.col, 0, 0, t.col - 1, t.row - 1, g) && t.page.line == BlankScreen(t.col, t.row, g)
    modifies t`page, t`alt, t`mode
    ensures t.Valid() && ScreenSwapped(t, false, p, old(t.alt), old(t.mode), g)
  {
    t.SwapScreen();
    assert t.mode == ModBit(old(t.mode), false, {AltScreen});
  }

  /** The state after DEC 47, 1047 or 1049 from v: 1049 saves the cursor
      in the slot of the screen in use, swaps, and saves it again in the
      slot of the alternate screen when set; when reset it loads the
      cursor of the screen in use, swaps with its colours, and loads the
      cursor of the main screen. */
  ghost predicate AltSwapped(t: Terminal, on: bool, a: int, v: View)
    reads t`row, t`col, t`page, t`alt, t`tabs, t`saved, t`trantbl, t`charset, t`icharset, t`top, t`bot, t`cursor, t`mode
    requires Shaped(t) && Fits(t, v)
  {
    && (a != 1049 ==> t.cursor == v.cursor && t.saved == v.saved
                      && ScreenSwapped(t, on, v.page, v.alt, v.mode, BlankOf(v.cursor)))
    && (a == 1049 && on ==> t.cursor == v.cursor && t.saved == v.saved[AltIndex(v.mode) := v.cursor][1 := v.cursor]
                            && ScreenSwapped(t, on, v.page, v.alt, v.mode, BlankOf(v.cursor)))
    && (a == 1049 && !on ==> t.saved == v.saved && t.cursor == Reloaded(t)
                             && ScreenSwapped(t, on, v.page, v.alt, v.mode, BlankOf(v.saved[AltIndex(v.mode)])))
  }

  /** DEC 47, 1047 and 1049 with the alternate screen allowed. */
  method AltScreenMode(t: Terminal, on: bool, a: int)
    requires t.Valid() && SwapsScreen(true, a)
    modifies t`page, t`alt, t`mode, t`cursor, t`saved
    ensures t.Valid() && AltSwapped(t, on, a, old(ViewOf(t)))
  {
    if a == 1049 {
      SaveOrLoad(t, on);
    }
    SwapAltScreen(t, on);
    if a == 1049 {
      SaveOrLoad(t, on);
    }
  }

  /** The mode numbers that move the cursor or change the screens: DECOM,
      the screen swaps and DEC 1048. */
  predicate Moves(priv: bool, a: int)
  {
    (priv && (a == 6 || a == 1048)) || SwapsScreen(priv, a)
  }

  /** The state after one mode number a of tsetmode from v and the log
      o0: the flags as ModeStep says, the calls ModeOut lists, and for
      the numbers that Moves what DECOM, the swaps and DEC 1048 do; the
      others leave the screens and the cursors alone. */
  ghost predicate ModeActed(t: Terminal, priv: bool, on: bool, a: int, v: View, o0: seq<Effect>)
    reads t`row, t`col, t`page, t`alt, t`tabs, t`saved, t`trantbl, t`charset, t`icharset, t`top, t`bot, t`cursor, t`mode, t`out
    requires Shaped(t) && Fits(t, v)
  {
    && t.mode == ModeStep(priv, on, a, v.mode)
    && t.out == o0 + ModeOut(priv, on, a, v.mode)
    && (priv && a == 6 ==> OriginSet(t, on, v.cursor) && t.page == v.page && t.alt == v.alt && t.saved == v.saved)
    && (SwapsScreen(priv, a) ==> AltSwapped(t, on, a, v))
    && (priv && a == 1048 ==> SavedOrLoaded(t, on, v.cursor, v.saved) && t.page == v.page && t.alt == v.alt)
    && (!Moves(priv, a) ==> t.page == v.page && t.alt == v.alt && t.cursor == v.cursor && t.saved == v.saved)
  }

  /** One mode number of tsetmode. */
  method SetModeOne(t: Terminal, priv: bool, on: bool, a: int)
    requires t.Valid()
    modifies t`page, t`alt, t`mode, t`cursor, t`saved, t`out
    ensures t.Valid() && ModeActed(t, priv, on, a, old(ViewOf(t)), old(t.out))
  {
    if priv && a == 6 {
      OriginModeOne(t, priv, on, a);
    } else if SwapsScreen(priv, a) {
      AltModeOne(t, priv, on, a);
    } else if priv && a == 1048 {
      CursorModeOne(t, priv, on, a);
    } else {
      FlagModeOne(t, priv, on, a);
    }
  }

  /** DECOM as one mode number of tsetmode. */
  method OriginModeOne(t: Terminal, priv: bool, on: bool, a: int)
    requires t.Valid() && priv && a == 6
    modifies t`page, t`alt, t`mode, t`cursor, t`saved, t`out
    ensures t.Valid() && ModeActed(t, priv, on, a, old(ViewOf(t)), old(t.out))
  {
    SetOrigin(t, on);
  }

  /** DEC 47, 1047 and 1049 as one mode number of tsetmode. */
  method AltModeOne(t: Terminal, priv: bool, on: bool, a: int)
    requires t.Valid() && SwapsScreen(priv, a)
    modifies t`page, t`alt, t`mode, t`cursor, t`saved, t`out
    ensures t.Valid() && ModeActed(t, priv, on, a, old(ViewOf(t)), old(t.out))
  {
    AltScreenMode(t, on, a);
  }

  /** DEC 1048 as one mode number of tsetmode. */
  method CursorModeOne(t: Terminal, priv: bool, on: bool, a: int)
    requires t.Valid() && priv && a == 1048
    modifies t`page, t`alt, t`mode, t`cursor, t`saved, t`out
    ensures t.Valid() && ModeActed(t, priv, on, a, old(ViewOf(t)), old(t.out))
  {
    SaveOrLoad(t, on);
  }

  /** A mode number of tsetmode that only changes flags and calls out. */
  method FlagModeOne(t: Terminal, priv: bool, on: bool, a: int)
    requires t.Valid() && !Moves(priv, a)
    modifies t`page, t`alt, t`mode, t`cursor, t`saved, t`out
    ensures t.Valid() && ModeActed(t, priv, on, a, old(ViewOf(t)), old(t.out))
  {
    t.out := t.out + ModeOut(priv, on, a, t.mode);
    t.mode := ModeStep(priv, on, a, t.mode);
  }

  /** The flags and the call log after the mode numbers of rest. */
  ghost function Outcome(priv: bool, on: bool, rest: seq<int>, m: set<TermFlag>, o: seq<Effect>): (set<TermFlag>, seq<Effect>)
  {
    (ModesAfter(priv, on, rest, m), o + ModesOut(priv, on, rest, m))
  }

  lemma OutcomeStep(priv: bool, on: bool, args: seq<int>, i: nat, m: set<TermFlag>, o: seq<Effect>)
    requires i < |args|
    ensures Outcome(priv, on, args[i..], m, o)
      == Outcome(priv, on, args[i + 1..], ModeStep(priv, on, args[i], m), o + ModeOut(priv, on, args[i], m))
  {
    assert args[i..][1..] == args[i + 1..];
    var m', e := ModeStep(priv, on, args[i], m), ModeOut(priv, on, args[i], m);
    assert ModesOut(priv, on, args[i..], m) == e + ModesOut(priv, on, args[i + 1..], m');
    assert o + (e + ModesOut(priv, on, args[i + 1..], m')) == (o + e) + ModesOut(priv, on, args[i + 1..], m');
  }

  /** The state after tsetmode with the mode numbers args from v and the
      log o0: the flags and the calls of the numbers in order; when no
      number Moves, the screens and the cursors are as they were; a
      single number acts as ModeActed says. */
  ghost predicate ModesSet(t: Terminal, priv: bool, on: bool, args: seq<int>, v: View, o0: seq<Effect>)
    reads t`row, t`col, t`page, t`alt, t`tabs, t`saved, t`trantbl, t`charset, t`icharset, t`top, t`bot, t`cursor, t`mode, t`out
    requires Shaped(t) && Fits(t, v)
  {
    && t.mode == ModesAfter(priv, on, args, v.mode)
    && t.out == o0 + ModesOut(priv, on, args, v.mode)
    && ((forall i :: 0 <= i < |args| ==> !Moves(priv, args[i])) ==>
          t.page == v.page && t.alt == v.alt && t.cursor == v.cursor && t.saved == v.saved)
    && (|args| == 1 ==> ModeActed(t, priv, on, args[0], v, o0))
  }

  /** tsetmode: each mode number of args in order. */
  method SetMode(t: Terminal, priv: bool, on: bool, args: seq<int>)
    requires t.Valid()
    modifies t`page, t`alt, t`mode, t`cursor, t`saved, t`out
    ensures t.Valid() && ModesSet(t, priv, on, args, old(ViewOf(t)), old(t.out))
  {
    ghost var v, o0 := ViewOf(t), t.out;
    var i := 0;
    while i < |args|
      invariant 0 <= i <= |args| && t.Valid() && Fits(t, v)
      invariant Outcome(priv, on, args[i..], t.mode, t.out) == Outcome(priv, on, args, v.mode, o0)
      invariant (forall k :: 0 <= k < i ==> !Moves(priv, args[k])) ==>
        t.page == v.page && t.alt == v.alt && t.cursor == v.cursor && t.saved == v.saved
      invariant i == 0 ==> ViewOf(t) == v && t.out == o0
      invariant i == 1 ==> ModeActed(t, priv, on, args[0], v, o0)
    {
      SetModeAt(t, priv, on, args, i, v, o0);
      i := i + 1;
    }
    assert args[i..] == [];
    assert ModesAfter(priv, on, [], t.mode) == t.mode && ModesOut(priv, on, [], t.mode) == [];
  }

  /** One turn of tsetmode's loop, on the mode number args[i], keeping
      what the loop keeps about the state v and the log o0 it started
      from. */
  method SetModeAt(t: Terminal, priv: bool, on: bool, args: seq<int>, i: nat, ghost v: View, ghost o0: seq<Effect>)
    requires i < |args| && t.Valid() && Fits(t, v)
    requires Outcome(priv, on, args[i..], t.mode, t.out) == Outcome(priv, on, args, v.mode, o0)
    requires (forall k :: 0 <= k < i ==> !Moves(priv, args[k])) ==>
      t.page == v.page && t.alt == v.alt && t.cursor == v.cursor && t.saved == v.saved
    requires i == 0 ==> ViewOf(t) == v && t.out == o0
    modifies t`page, t`alt, t`mode, t`cursor, t`saved, t`out
    ensures t.Valid() && Fits(t, v)
    ensures Outcome(priv, on, args[i + 1..], t.mode, t.out) == Outcome(priv, on, args, v.mode, o0)
    ensures (forall k :: 0 <= k < i + 1 ==> !Moves(priv, args[k])) ==>
      t.page == v.page && t.alt == v.alt && t.cursor == v.cursor && t.saved == v.saved
    ensures i == 0 ==> ModeActed(t, priv, on, args[0], v, o0)
  {
    OutcomeStep(priv, on, args, i, t.mode, t.out);
    SetModeOne(t, priv, on, args[i]);
  }

  /** tsetattr on the cursor's attributes with the parsed arguments. */
  method SetAttr(t: Terminal, arg: seq<int>, narg: int)
    requires t.Valid() && 0 <= narg <= |arg| && narg <= EscArgSize
    modifies t`cursor
    ensures t.Valid() && AttrDone(t, arg, narg, old(ViewOf(t)), old(t.out))
  {
    var g := Sgr.SetAttr(t.cursor.attr, arg, narg);
    t.cursor := t.cursor.(attr := g);
  }

  /** The state after the decoded action a from v and the log o0; arg and
      narg are the parsed arguments, the mode numbers of RM and SM and
      the attributes of SGR. Each group of actions changes only its own
      fields; unknown and ignored sequences change nothing. */
  ghost predicate Performed(t: Terminal, a: D.Action, priv: bool, arg: seq<int>, narg: int, v: View, o0: seq<Effect>)
    reads t`row, t`col, t`page, t`alt, t`tabs, t`saved, t`trantbl, t`charset, t`icharset, t`top, t`bot, t`cursor, t`mode, t`out
    requires Shaped(t) && Fits(t, v) && 0 <= narg <= |arg| && narg <= EscArgSize
  {
    && t.trantbl == v.trantbl && t.charset == v.charset && t.icharset == v.icharset
    && (CursorAction(a) ==> CursorDone(t, a, v, o0))
    && (EditAction(a) ==> EditDone(t, a, v, o0))
    && (MiscAction(a) ==> MiscDone(t, a, v, o0) && t.page == v.page && t.alt == v.alt && t.saved == v.saved)
    && (a.Modes? ==> ModesSet(t, priv, a.on, arg[..narg], v, o0) && t.tabs == v.tabs && t.top == v.top && t.bot == v.bot)
    && (a.Attributes? ==> AttrDone(t, arg, narg, v, o0))
    && (a.Unknown? || a.Ignored? ==> ViewOf(t) == v && t.out == o0)
  }

  /** A cursor action: CursorActed, and nothing else changes. */
  ghost predicate CursorDone(t: Terminal, a: D.Action, v: View, o0: seq<Effect>)
    reads t`row, t`col, t`page, t`alt, t`tabs, t`saved, t`trantbl, t`charset, t`icharset, t`top, t`bot, t`cursor, t`mode, t`out
    requires Shaped(t) && Fits(t, v)
  {
    CursorActed(t, a, v) && t.page == v.page && t.alt == v.alt && t.mode == v.mode
    && t.out == o0 && t.tabs == v.tabs && t.top == v.top && t.bot == v.bot
  }

  /** A screen action: ScreenEdited, and nothing else changes. */
  ghost predicate EditDone(t: Terminal, a: D.Action, v: View, o0: seq<Effect>)
    reads t`row, t`col, t`page, t`alt, t`tabs, t`saved, t`trantbl, t`charset, t`icharset, t`top, t`bot, t`cursor, t`mode, t`out
    requires Shaped(t) && Fits(t, v)
  {
    ScreenEdited(t, a, v) && t.alt == v.alt && t.mode == v.mode && t.cursor == v.cursor
    && t.saved == v.saved && t.out == o0 && t.tabs == v.tabs && t.top == v.top && t.bot == v.bot
  }

  /** SGR: the cursor's attributes as Sgr.SgrFrom gives them, and nothing
      else changes. */
  ghost predicate AttrDone(t: Terminal, arg: seq<int>, narg: int, v: View, o0: seq<Effect>)
    reads t`row, t`col, t`page, t`alt, t`tabs, t`saved, t`trantbl, t`charset, t`icharset, t`top, t`bot, t`cursor, t`mode, t`out
    requires Shaped(t) && Fits(t, v) && 0 <= narg <= |arg| && narg <= EscArgSize
  {
    t.cursor == v.cursor.(attr := Sgr.SgrFrom(v.cursor.attr, arg, narg, 0))
    && t.page == v.page && t.alt == v.alt && t.mode == v.mode && t.saved == v.saved
    && t.out == o0 && t.tabs == v.tabs && t.top == v.top && t.bot == v.bot
  }

  /** One decoded action carried out. */
  method Perform(t: Terminal, a: D.Action, priv: bool, arg: seq<int>, narg: int)
    requires t.Valid() && 0 <= narg <= |arg| && narg <= EscArgSize
    modifies t`page, t`alt, t`mode, t`cursor, t`saved, t`out, t`tabs, t`top, t`bot
    ensures t.Valid() && Performed(t, a, priv, arg, narg, old(ViewOf(t)), old(t.out))
  {
    if CursorAction(a) || EditAction(a) {
      PerformOnScreen(t, a, priv, arg, narg);
    } else {
      PerformOther(t, a, priv, arg, narg);
    }
  }

  /** Perform for the cursor and the screen actions. */
  method PerformOnScreen(t: Terminal, a: D.Action, priv: bool, arg: seq<int>, narg: int)
    requires t.Valid() && 0 <= narg <= |arg| && narg <= EscArgSize && (CursorAction(a) || EditAction(a))
    modifies t`page, t`cursor, t`saved
    ensures t.Valid() && Performed(t, a, priv, arg, narg, old(ViewOf(t)), old(t.out))
  {
    if CursorAction(a) {
      MoveCursor(t, a);
    } else {
      EditScreen(t, a);
    }
  }

  /** Perform for the other actions. */
  method PerformOther(t: Terminal, a: D.Action, priv: bool, arg: seq<int>, narg: int)
    requires t.Valid() && 0 <= narg <= |arg| && narg <= EscArgSize && !CursorAction(a) && !EditAction(a)
    modifies t`page, t`alt, t`mode, t`cursor, t`saved, t`out, t`tabs, t`top, t`bot
    ensures t.Valid() && Performed(t, a, priv, arg, narg, old(ViewOf(t)), old(t.out))
  {
    if MiscAction(a) {
      Misc(t, a);
    } else if a.Modes? {
      SetMode(t, priv, a.on, arg[..narg]);
    } else if a.Attributes? {
      SetAttr(t, arg, narg);
    }
  }

  /** The action csihandle decodes from the parsed record c with the
      cursor at cur on a screen of col by row cells. */
  function ActionOf(c: CsiRec, cur: TCursor, col: int, row: int): D.Action
    requires CsiWf(c) && 0 <= cur.x && 0 <= cur.y
  {
    D.CsiAction(c.mode0, c.mode1, c.priv, c.arg[0], c.arg[1], cur.x, cur.y, col, row)
  }

  /** The state after csihandle on the parsed record c from v and o0. */
  ghost predicate Handled(t: Terminal, c: CsiRec, v: View, o0: seq<Effect>)
    reads t`row, t`col, t`page, t`alt, t`tabs, t`saved, t`trantbl, t`charset, t`icharset, t`top, t`bot, t`cursor, t`mode, t`out
    requires Shaped(t) && Fits(t, v) && CsiWf(c)
  {
    Performed(t, ActionOf(c, v.cursor, t.col, t.row), c.priv, c.arg, c.narg, v, o0)
  }

  /** csihandle: the action Dispatch.CsiAction decodes from the parsed
      sequence and the cursor, carried out; RM and SM hand their
      arguments to tsetmode, SGR to tsetattr. */
  method CsiHandle(t: Terminal)
    requires t.Valid()
    modifies t`page, t`alt, t`mode, t`cursor, t`saved, t`out, t`tabs, t`top, t`bot
    ensures t.Valid() && Handled(t, t.csi.Rec(), old(ViewOf(t)), old(t.out))
  {
    var a := D.CsiAction(t.csi.mode0, t.csi.mode1, t.csi.priv, t.csi.arg[0], t.csi.arg[1],
                         t.cursor.x, t.cursor.y, t.col, t.row);
    Perform(t, a, t.csi.priv, t.csi.arg[..], t.csi.narg);
  }

  /** The kind of string tstrsequence records: the C1 introducers DCS,
      APC, PM and OSC become the final byte of their ESC forms. */
  function StrKind(c: Byte): (k: Byte)
    ensures c != 0x90 && c != 0x9f && c != 0x9e && c != 0x9d ==> k == c
  {
    if c == 0x90 then 'P' as Byte
    else if c == 0x9f then '_' as Byte
    else if c == 0x9e then '^' as Byte
    else if c == 0x9d then ']' as Byte
    else c
  }

  /** tstrsequence: an empty string of kind StrKind(c) is started. */
  method StrSequence(t: Terminal, c: Byte)
    requires t.Valid()
    modifies t`esc, t.str, t.str.buf
    ensures t.Valid()
    ensures t.esc == old(t.esc) + {EscStr}
    ensures t.str.Rec() == StrZero().(kind := StrKind(c))
  {
    t.str.Reset();
    t.str.kind := StrKind(c);
    t.esc := t.esc + {EscStr};
  }

  /** strhandle: the string ends, is split into its arguments and makes
      the calls Dispatch.StrEffects lists; ok is what xsetcolorname
      reports. */
  method StrHandle(t: Terminal, ok: bool)
    requires t.Valid()
    modifies t`esc, t`out, t.str, t.str.buf
    ensures t.Valid()
    ensures t.esc == old(t.esc) - {EscStrEnd, EscStr}
    ensures t.str.Rec() == StrParse(old(t.str.Rec()))
    ensures t.out == old(t.out) + D.StrEffects(t.str.Rec(), ok)
  {
    t.esc := t.esc - {EscStrEnd, EscStr};
    t.str.Parse();
    var s := StrRec(t.str.kind, t.str.buf[..], t.str.len, t.str.args);
    t.out := t.out + D.StrEffects(s, ok);
  }

  /** HT, BS, CR and the three line feeds LF, VT, FF. */
  predicate Motion(a: Byte)
  {
    a == 9 || a == 8 || a == 13 || a == 10 || a == 11 || a == 12
  }

  /** ENQ, NUL, XON, XOFF and DEL, which tcontrolcode ignores. */
  predicate Ignored(a: Byte)
  {
    a == 5 || a == 0 || a == 17 || a == 19 || a == 127
  }

  /** The C1 introducers of DCS, OSC, PM and APC. */
  predicate StrIntro(a: Byte)
  {
    a == 0x90 || a == 0x9d || a == 0x9e || a == 0x9f
  }

  /** The codes after which tcontrolcode ends a string sequence: every
      code but the motions, the ignored ones, ESC, SO, SI and the string
      introducers. */
  predicate Interrupts(a: Byte)
  {
    !Motion(a) && !Ignored(a) && a != 27 && a != 14 && a != 15 && !StrIntro(a)
  }

  /** The page and the cursor after the motion a from v: HT to the next
      tab stop, BS one column left, CR to column 0, and LF, VT and FF to
      the next line (tnewline), to its first column in CRLF mode. */
  ghost predicate MotionDone(t: Terminal, a: Byte, v: View)
    reads t`row, t`col, t`page, t`alt, t`tabs, t`saved, t`trantbl, t`charset, t`icharset, t`top, t`bot, t`cursor, t`mode
    requires Shaped(t) && Fits(t, v)
  {
    if a == 9 then t.page == v.page && t.cursor == v.cursor.(x := Limit(Tabs.TabTarget(t.tabs, v.cursor.x, 1), 0, t.col - 1))
    else if a == 8 then t.page == v.page && t.cursor == MovedTo(v.cursor, v.cursor.x - 1, v.cursor.y, t.col, t.row, t.top, t.bot)
    else if a == 13 then t.page == v.page && t.cursor == MovedTo(v.cursor, 0, v.cursor.y, t.col, t.row, t.top, t.bot)
    else (t.page, t.cursor) == Fed(v.page, v.cursor, CrLf in t.mode, t.col, t.row, t.top, t.bot)
  }

  /** The motions of tcontrolcode. */
  method ControlMotion(t: Terminal, a: Byte)
    requires t.Valid() && Motion(a)
    modifies t`cursor, t`page
    ensures t.Valid() && MotionDone(t, a, old(ViewOf(t)))
  {
    if a == 9 {
      t.PutTab(1);
    } else if a == 8 {
      t.MoveTo(t.cursor.x - 1, t.cursor.y);
    } else if a == 13 {
      t.MoveTo(0, t.cursor.y);
    } else {
      t.NewLine(CrLf in t.mode);
    }
  }

  /** The call log and the string record after BEL from the flags e0, the
      log o0 and the record s0: the string whose terminator was seen is
      handled, otherwise the bell rings. */
  ghost predicate BellOut(t: Terminal, ok: bool, e0: set<EscFlag>, o0: seq<Effect>, s0: StrRec)
    reads t`out, t.str, t.str.buf
    requires StrWf(s0)
  {
    if EscStrEnd in e0 then t.out == o0 + D.StrEffects(StrParse(s0), ok) && t.str.Rec() == StrParse(s0)
    else t.out == o0 + [Types.Bell] && t.str.Rec() == s0
  }

  /** BEL: the string sequence whose terminator was seen ends with
      strhandle (as xterm allows); otherwise the bell rings. */
  method RingBell(t: Terminal, ok: bool)
    requires t.Valid()
    modifies t`esc, t`out, t.str, t.str.buf
    ensures t.Valid() && BellOut(t, ok, old(t.esc), old(t.out), old(t.str.Rec()))
    ensures t.esc == if EscStrEnd in old(t.esc) then old(t.esc) - {EscStrEnd, EscStr} else old(t.esc)
  {
    if EscStrEnd in t.esc {
      StrHandle(t, ok);
    } else {
      t.out := t.out + [Types.Bell];
    }
  }

  /** The state after one of Interrupt's codes a from v, the log o0 and
      the CSI record c0: SUB writes '?' at the cursor and, like CAN, drops
      the CSI sequence being read; NEL goes to the start of the next line
      (tnewline); HTS sets a tab stop at the cursor; DECID answers with
      the terminal's identification; the rest change nothing. */
  ghost predicate InterruptDone(t: Terminal, a: Byte, v: View, o0: seq<Effect>, c0: CsiRec)
    reads t`row, t`col, t`page, t`alt, t`tabs, t`saved, t`trantbl, t`charset, t`icharset, t`top, t`bot, t`cursor, t`mode, t`out
    reads t.csi, t.csi.buf, t.csi.arg
    requires Shaped(t) && Fits(t, v)
  {
    && t.out == o0 + (if a == 0x9a then [TtyWrite(Config.VtIden)] else [])
    && t.csi.Rec() == (if a == 26 || a == 24 then CsiZero() else c0)
    && t.tabs == (if a == 0x88 then v.tabs[v.cursor.x := true] else v.tabs)
    && if a == 26 then
         t.cursor == v.cursor
         && t.page == Written(v.page, t.col, '?' as Rune, v.cursor.attr, v.cursor.x, v.cursor.y, t.trantbl[t.charset] == Graphic0)
       else if a == 0x85 then (t.page, t.cursor) == Fed(v.page, v.cursor, true, t.col, t.row, t.top, t.bot)
       else t.page == v.page && t.cursor == v.cursor
  }

  /** The other codes of tcontrolcode that end a string sequence. */
  method Interrupt(t: Terminal, a: Byte)
    requires t.Valid() && Interrupts(a) && a != 7
    modifies t`page, t`cursor, t`tabs, t`out, t.csi, t.csi.buf, t.csi.arg
    ensures t.Valid() && InterruptDone(t, a, old(ViewOf(t)), old(t.out), old(t.csi.Rec()))
  {
    if a == 26 || a == 24 {
      if a == 26 {
        t.SetChar('?' as Rune, t.cursor.x, t.cursor.y);
      }
      t.csi.Reset();
    } else if a == 0x85 {
      t.NewLine(true);
    } else if a == 0x88 {
      t.tabs := t.tabs[t.cursor.x := true];
    } else if a == 0x9a {
      t.out := t.out + [TtyWrite(Config.VtIden)];
    }
  }

  /** The state after one of ControlKeep's codes a from v, the flags e0
      and the records c0 and s0: the motions as MotionDone says; ESC
      starts an escape sequence and drops the CSI sequence being read; SO
      and SI select charset G1 and G0; a string introducer starts a
      string sequence; the ignored codes change nothing. */
  ghost predicate KeptDone(t: Terminal, a: Byte, v: View, e0: set<EscFlag>, c0: CsiRec, s0: StrRec)
    reads t`row, t`col, t`page, t`alt, t`tabs, t`saved, t`trantbl, t`charset, t`icharset, t`top, t`bot, t`cursor, t`mode
    reads t`esc, t.csi, t.csi.buf, t.csi.arg, t.str, t.str.buf
    requires Shaped(t) && Fits(t, v)
  {
    && t.charset == (if a == 14 || a == 15 then 15 - a as int else v.charset)
    && t.csi.Rec() == (if a == 27 then CsiZero() else c0)
    && t.str.Rec() == (if StrIntro(a) then StrZero().(kind := StrKind(a)) else s0)
    && t.esc == (if a == 27 then e0 - {EscCsi, EscAltCharset, EscTest} + {EscStart}
                 else if StrIntro(a) then e0 + {EscStr} else e0)
    && if Motion(a) then MotionDone(t, a, v) else t.page == v.page && t.cursor == v.cursor
  }

  /** The codes of tcontrolcode that leave a string sequence going. */
  method ControlKeep(t: Terminal, a: Byte)
    requires t.Valid() && !Interrupts(a)
    modifies t`page, t`cursor, t`esc, t`charset, t.csi, t.csi.buf, t.csi.arg, t.str, t.str.buf
    ensures t.Valid() && KeptDone(t, a, old(ViewOf(t)), old(t.esc), old(t.csi.Rec()), old(t.str.Rec()))
  {
    if Motion(a) {
      ControlMotion(t, a);
    } else if a == 27 {
      t.csi.Reset();
      t.esc := t.esc - {EscCsi, EscAltCharset, EscTest} + {EscStart};
    } else if a == 14 || a == 15 {
      t.charset := 1 - (a as int - 14);
    } else if StrIntro(a) {
      StrSequence(t, a);
    }
  }

  /** The state after tcontrolcode(a) from v, the log o0, the flags e0
      and the records c0 and s0: the codes of ControlKeep as KeptDone
      says; the others end the string sequence being read, BEL as
      BellOut says and the rest as InterruptDone says. The screens'
      contents other than the page, the modes, the saved cursors, the
      region and the charset table never change. */
  ghost predicate ControlDone(t: Terminal, a: Byte, ok: bool, v: View, o0: seq<Effect>, e0: set<EscFlag>, c0: CsiRec, s0: StrRec)
    reads t`row, t`col, t`page, t`alt, t`tabs, t`saved, t`trantbl, t`charset, t`icharset, t`top, t`bot, t`cursor, t`mode, t`out
    reads t`esc, t.csi, t.csi.buf, t.csi.arg, t.str, t.str.buf
    requires Shaped(t) && Fits(t, v) && StrWf(s0)
  {
    && t.alt == v.alt && t.mode == v.mode && t.saved == v.saved && t.top == v.top && t.bot == v.bot
    && t.trantbl == v.trantbl && t.icharset == v.icharset
    && (!Interrupts(a) ==> KeptDone(t, a, v, e0, c0, s0) && t.out == o0 && t.tabs == v.tabs)
    && (Interrupts(a) ==> t.esc == e0 - {EscStrEnd, EscStr} && t.charset == v.charset)
    && (a == 7 ==> BellOut(t, ok, e0, o0, s0) && t.page == v.page && t.cursor == v.cursor && t.tabs == v.tabs && t.csi.Rec() == c0)
    && (Interrupts(a) && a != 7 ==> InterruptDone(t, a, v, o0, c0) && t.str.Rec() == s0)
  }

  /** tcontrolcode. */
  method ControlCode(t: Terminal, a: Byte, ok: bool)
    requires t.Valid()
    modifies t`page, t`cursor, t`esc, t`charset, t`tabs, t`out, t.csi, t.csi.buf, t.csi.arg, t.str, t.str.buf
    ensures t.Valid()
    ensures ControlDone(t, a, ok, old(ViewOf(t)), old(t.out), old(t.esc), old(t.csi.Rec()), old(t.str.Rec()))
  {
    if !Interrupts(a) {
      ControlKeep(t, a);
    } else {
      ControlEnd(t, a, ok);
    }
  }

  /** The codes of tcontrolcode that end a string sequence. */
  method ControlEnd(t: Terminal, a: Byte, ok: bool)
    requires t.Valid() && Interrupts(a)
    modifies t`page, t`cursor, t`esc, t`tabs, t`out, t.csi, t.csi.buf, t.csi.arg, t.str, t.str.buf
    ensures t.Valid()
    ensures ControlDone(t, a, ok, old(ViewOf(t)), old(t.out), old(t.esc), old(t.csi.Rec()), old(t.str.Rec()))
  {
    if a == 7 {
      BellEnd(t, ok);
    } else {
      InterruptEnd(t, a);
    }
  }

  /** BEL, then the string flags cleared. */
  method BellEnd(t: Terminal, ok: bool)
    requires t.Valid()
    modifies t`esc, t`out, t.str, t.str.buf
    ensures t.Valid()
    ensures ControlDone(t, 7, ok, old(ViewOf(t)), old(t.out), old(t.esc), old(t.csi.Rec()), old(t.str.Rec()))
  {
    RingBell(t, ok);
    t.esc := t.esc - {EscStrEnd, EscStr};
  }

  /** One of Interrupt's codes, then the string flags cleared. */
  method InterruptEnd(t: Terminal, a: Byte)
    requires t.Valid() && Interrupts(a) && a != 7
    modifies t`page, t`cursor, t`esc, t`tabs, t`out, t.csi, t.csi.buf, t.csi.arg
    ensures t.Valid()
    ensures forall ok :: ControlDone(t, a, ok, old(ViewOf(t)), old(t.out), old(t.esc), old(t.csi.Rec()), old(t.str.Rec()))
  {
    Interrupt(t, a);
    t.esc := t.esc - {EscStrEnd, EscStr};
  }

  /** The bytes after ESC that start a longer sequence: CSI, the DEC
      tests, the string sequences and the charset designations. */
  predicate IntroByte(b: Byte)
  {
    b == '[' as Byte || b == '#' as Byte || StrByte(b) || Charset(b)
  }

  /** DCS, APC, PM, OSC and the old title sequence. */
  predicate StrByte(b: Byte)
  {
    b == 'P' as Byte || b == '_' as Byte || b == '^' as Byte || b == ']' as Byte || b == 'k' as Byte
  }

  /** GZD4, G1D4, G2D4 and G3D4: the charset slot that follows is G0..G3. */
  predicate Charset(b: Byte)
  {
    '(' as Byte <= b <= '+' as Byte
  }

  /** IND, NEL and RI. */
  predicate LineByte(b: Byte)
  {
    b == 'D' as Byte || b == 'E' as Byte || b == 'M' as Byte
  }

  /** The escape flags after eschandle(b) from e0: the bytes that start a
      longer sequence add its flag, ST ends the string sequence whose
      terminator was seen, and every other byte leaves them alone. */
  function EscAfter(b: Byte, e0: set<EscFlag>): set<EscFlag>
  {
    if b == '[' as Byte then e0 + {EscCsi}
    else if b == '#' as Byte then e0 + {EscTest}
    else if StrByte(b) then e0 + {EscStr}
    else if Charset(b) then e0 + {EscAltCharset}
    else if b == '\\' as Byte && EscStrEnd in e0 then e0 - {EscStrEnd, EscStr}
    else e0
  }

  /** The state after one of EscIntro's bytes b from v and the string
      record s0: a string sequence starts empty with kind b; a charset
      designation records its slot; nothing else changes. */
  ghost predicate IntroDone(t: Terminal, b: Byte, v: View, o0: seq<Effect>, s0: StrRec)
    reads t`page, t`alt, t`cursor, t`saved, t`mode, t`tabs, t`top, t`bot, t`trantbl, t`charset, t`icharset, t`out
    reads t.str, t.str.buf
  {
    && t.str.Rec() == (if StrByte(b) then StrZero().(kind := b) else s0)
    && ViewOf(t) == v.(icharset := if Charset(b) then b as int - '(' as int else v.icharset)
    && t.out == o0
  }

  /** The cases of eschandle that return 0: the escape sequence goes on. */
  method EscIntro(t: Terminal, b: Byte)
    requires t.Valid() && EscStart in t.esc && EscCsi !in t.esc && IntroByte(b)
    modifies t`esc, t`icharset, t.str, t.str.buf
    ensures t.Valid() && t.esc == EscAfter(b, old(t.esc))
    ensures IntroDone(t, b, old(ViewOf(t)), old(t.out), old(t.str.Rec()))
  {
    if b == '[' as Byte {
      t.esc := t.esc + {EscCsi};
    } else if b == '#' as Byte {
      t.esc := t.esc + {EscTest};
    } else if StrByte(b) {
      StrSequence(t, b);
    } else {
      t.icharset := b as int - '(' as int;
      t.esc := t.esc + {EscAltCharset};
    }
  }

  /** The page and the cursor after IND, NEL or RI from v: IND goes one
      row down, or scrolls the region up at its bottom row; RI goes one
      row up, or scrolls the region down at its top row; NEL goes to the
      start of the next line (tnewline). Nothing else changes. */
  ghost predicate LineDone(t: Terminal, b: Byte, v: View, o0: seq<Effect>)
    reads t`row, t`col, t`page, t`alt, t`tabs, t`saved, t`trantbl, t`charset, t`icharset, t`top, t`bot, t`cursor, t`mode, t`out
    requires Shaped(t) && Fits(t, v)
  {
    && t.alt == v.alt && t.mode == v.mode && t.saved == v.saved && t.out == o0 && t.tabs == v.tabs
    && t.top == v.top && t.bot == v.bot && t.trantbl == v.trantbl && t.charset == v.charset && t.icharset == v.icharset
    && if b == 'D' as Byte then
         if v.cursor.y == t.bot then t.page == ScrollUpPage(v.page, t.col, t.top, t.bot, t.top, 1, BlankOf(v.cursor)) && t.cursor == v.cursor
         else t.page == v.page && t.cursor == MovedTo(v.cursor, v.cursor.x, v.cursor.y + 1, t.col, t.row, t.top, t.bot)
       else if b == 'M' as Byte then
         if v.cursor.y == t.top then t.page == ScrollDownPage(v.page, t.col, t.top, t.bot, t.top, 1, BlankOf(v.cursor)) && t.cursor == v.cursor
         else t.page == v.page && t.cursor == MovedTo(v.cursor, v.cursor.x, v.cursor.y - 1, t.col, t.row, t.top, t.bot)
       else (t.page, t.cursor) == Fed(v.page, v.cursor, true, t.col, t.row, t.top, t.bot)
  }

  /** IND, NEL and RI. */
  method EscLine(t: Terminal, b: Byte)
    requires t.Valid() && LineByte(b)
    modifies t`page, t`cursor
    ensures t.Valid() && LineDone(t, b, old(ViewOf(t)), old(t.out))
  {
    if b == 'D' as Byte {
      if t.cursor.y == t.bot {
        t.ScrollUp(t.top, 1);
      } else {
        t.MoveTo(t.cursor.x, t.cursor.y + 1);
      }
    } else if b == 'E' as Byte {
      t.NewLine(true);
    } else {
      if t.cursor.y == t.top {
        t.ScrollDown(t.top, 1);
      } else {
        t.MoveTo(t.cursor.x, t.cursor.y - 1);
      }
    }
  }

  /** The state after RIS from v and the log o0: the state treset leaves
      (Terminal.Defaults) with every row dirty and a selection touching
      the screen dropped, the window title and the colours reset, the
      charset slot being designated kept. */
  ghost predicate ResetDone(t: Terminal, v: View, o0: seq<Effect>)
    reads t`row, t`col, t`page, t`alt, t`tabs, t`saved, t`trantbl, t`charset, t`icharset, t`top, t`bot, t`cursor, t`mode, t`out
    requires Shaped(t)
  {
    && t.Defaults() && AllDirty(t) && t.icharset == v.icharset
    && t.page.sel == ClearedIf(v.page.sel, SelHit(v.page.sel, 0, 0, t.col - 1, t.row - 1))
    && t.out == o0 + [ResetTitle, LoadColors]
  }

  /** RIS: treset, then the window title and the colours are reset. */
  method FullReset(t: Terminal)
    requires t.Valid()
    modifies t`cursor, t`tabs, t`top, t`bot, t`mode, t`trantbl, t`charset, t`saved, t`page, t`alt, t`out
    ensures t.Valid() && ResetDone(t, old(ViewOf(t)), old(t.out))
  {
    t.Reset();
    t.out := t.out + [ResetTitle, LoadColors];
  }

  /** The state after one of EscOther's bytes b from v, the log o0, the
      flags e0 and the string record s0: LS2 and LS3 select charset G2
      and G3, HTS sets a tab stop at the cursor, DECID answers with the
      terminal's identification, DECPAM and DECPNM set and reset the
      application keypad, DECSC and DECRC save and load the cursor, and
      ST ends the string sequence whose terminator was seen (strhandle);
      every other byte changes nothing. The page, the other screen, the
      region and the charset table never change. */
  ghost predicate OtherDone(t: Terminal, b: Byte, ok: bool, v: View, o0: seq<Effect>, e0: set<EscFlag>, s0: StrRec)
    reads t`row, t`col, t`page, t`alt, t`tabs, t`saved, t`trantbl, t`charset, t`icharset, t`top, t`bot, t`cursor, t`mode, t`out
    reads t.str, t.str.buf
    requires Shaped(t) && Fits(t, v) && StrWf(s0)
  {
    var ends := b == '\\' as Byte && EscStrEnd in e0;
    && t.page == v.page && t.alt == v.alt && t.top == v.top && t.bot == v.bot
    && t.trantbl == v.trantbl && t.icharset == v.icharset
    && t.charset == (if b == 'n' as Byte || b == 'o' as Byte then 2 + (b as int - 'n' as int) else v.charset)
    && t.tabs == (if b == 'H' as Byte then v.tabs[v.cursor.x := true] else v.tabs)
    && t.mode == (if b == '=' as Byte then v.mode + {AppKeypad} else if b == '>' as Byte then v.mode - {AppKeypad} else v.mode)
    && t.saved == (if b == '7' as Byte then v.saved[AltIndex(v.mode) := v.cursor] else v.saved)
    && t.cursor == (if b == '8' as Byte then Reloaded(t) else v.cursor)
    && t.out == (if b == 'Z' as Byte then o0 + [TtyWrite(Config.VtIden)] else if ends then o0 + D.StrEffects(StrParse(s0), ok) else o0)
    && t.str.Rec() == (if ends then StrParse(s0) else s0)
  }

  /** The other cases of eschandle, which return 1. */
  method EscOther(t: Terminal, b: Byte, ok: bool)
    requires t.Valid() && !IntroByte(b) && !LineByte(b) && b != 'c' as Byte
    modifies t`cursor, t`saved, t`mode, t`tabs, t`out, t`charset, t`esc, t.str, t.str.buf
    ensures t.Valid() && t.esc == EscAfter(b, old(t.esc))
    ensures OtherDone(t, b, ok, old(ViewOf(t)), old(t.out), old(t.esc), old(t.str.Rec()))
  {
    if b == '\\' as Byte {
      EscTerminator(t, ok);
    } else {
      EscPlain(t, b);
    }
  }

  /** ST (ESC \): the string sequence whose terminator was seen ends. */
  method EscTerminator(t: Terminal, ok: bool)
    requires t.Valid()
    modifies t`cursor, t`saved, t`mode, t`tabs, t`out, t`charset, t`esc, t.str, t.str.buf
    ensures t.Valid() && t.esc == EscAfter('\\' as Byte, old(t.esc))
    ensures OtherDone(t, '\\' as Byte, ok, old(ViewOf(t)), old(t.out), old(t.esc), old(t.str.Rec()))
  {
    if EscStrEnd in t.esc {
      StrHandle(t, ok);
    }
  }

  /** The cases of EscOther other than ST. */
  method EscPlain(t: Terminal, b: Byte)
    requires t.Valid() && !IntroByte(b) && !LineByte(b) && b != 'c' as Byte && b != '\\' as Byte
    modifies t`cursor, t`saved, t`mode, t`tabs, t`out, t`charset
    ensures t.Valid() && t.esc == EscAfter(b, old(t.esc))
    ensures forall ok :: OtherDone(t, b, ok, old(ViewOf(t)), old(t.out), old(t.esc), old(t.str.Rec()))
  {
    if b == 'n' as Byte || b == 'o' as Byte {
      t.charset := 2 + (b as int - 'n' as int);
    } else if b == 'H' as Byte {
      t.tabs := t.tabs[t.cursor.x := true];
    } else if b == 'Z' as Byte {
      t.out := t.out + [TtyWrite(Config.VtIden)];
    } else if b == '=' as Byte {
      t.mode := t.mode + {AppKeypad};
    } else if b == '>' as Byte {
      t.mode := t.mode - {AppKeypad};
    } else if b == '7' as Byte {
      t.CursorSave();
    } else if b == '8' as Byte {
      t.CursorLoad();
    }
  }

  /** The state after eschandle(b) from v, the log o0, the flags e0 and
      the string record s0, the flags aside (EscAfter): each group of
      bytes as its predicate says. */
  ghost predicate EscDone(t: Terminal, b: Byte, ok: bool, v: View, o0: seq<Effect>, e0: set<EscFlag>, s0: StrRec)
    reads t`row, t`col, t`page, t`alt, t`tabs, t`saved, t`trantbl, t`charset, t`icharset, t`top, t`bot, t`cursor, t`mode, t`out
    reads t.str, t.str.buf
    requires Shaped(t) && Fits(t, v) && StrWf(s0)
  {
    && (IntroByte(b) ==> IntroDone(t, b, v, o0, s0))
    && (LineByte(b) ==> LineDone(t, b, v, o0) && t.str.Rec() == s0)
    && (b == 'c' as Byte ==> ResetDone(t, v, o0) && t.str.Rec() == s0)
    && (!IntroByte(b) && !LineByte(b) && b != 'c' as Byte ==> OtherDone(t, b, ok, v, o0, e0, s0))
  }

  /** eschandle, for the byte after ESC: it reports whether the escape
      sequence is finished, which is so for every byte that does not
      start a longer one. */
  method EscHandle(t: Terminal, b: Byte, ok: bool) returns (done: bool)
    requires t.Valid() && EscStart in t.esc && EscCsi !in t.esc
    modifies t`page, t`alt, t`mode, t`cursor, t`saved, t`out, t`tabs, t`top, t`bot
    modifies t`esc, t`trantbl, t`charset, t`icharset, t.str, t.str.buf
    ensures t.Valid() && (done <==> !IntroByte(b)) && t.esc == EscAfter(b, old(t.esc))
    ensures EscDone(t, b, ok, old(ViewOf(t)), old(t.out), old(t.esc), old(t.str.Rec()))
  {
    done := !IntroByte(b);
    if !done {
      EscIntro(t, b);
    } else if LineByte(b) {
      EscLine(t, b);
    } else if b == 'c' as Byte {
      FullReset(t);
    } else {
      EscOther(t, b, ok);
    }
  }

  /** The page after selclear when the cursor's row y lies between the
      rows of the selection's original corners. */
  function SelDropped(p: Page, y: int, col: int, row: int): (r: Page)
    requires PageOk(p, col, row)
    ensures PageOk(r, col, row) && r.line == p.line
  {
    var s := p.sel;
    if s.ob.x != -1 && Between(y, s.ob.y, s.oe.y) then Unselected(p) else p
  }

  /** The page and the cursor after the pending wrap of tputc: with
      autowrap on and the cursor waiting to wrap, the cell under the
      cursor is marked XELT_ATTR_WRAP and the cursor goes to the start of
      the next line (tnewline). */
  function Wrapped(p: Page, c: TCursor, mode: set<TermFlag>, col: int, row: int, top: int, bot: int): (r: (Page, TCursor))
    requires PageOk(p, col, row) && 0 <= top <= bot < row && 0 <= c.x < col && 0 <= c.y < row
    ensures PageOk(r.0, col, row) && 0 <= r.1.x < col && 0 <= r.1.y < row && r.1.attr == c.attr
  {
    if ModeWrap in mode && WrapNext in c.state then Fed(WrapMarked(p, c.x, c.y), c, true, col, row, top, bot) else (p, c)
  }

  /** The page and the cursor once there is room for a character of
      width w: in insert mode with room to the right the cells from the
      cursor on move w columns right; a character that does not fit
      before the right margin goes to the start of the next line. */
  function Fitted(p: Page, c: TCursor, mode: set<TermFlag>, w: int, col: int, row: int, top: int, bot: int): (r: (Page, TCursor))
    requires PageOk(p, col, row) && 0 <= top <= bot < row && 0 <= c.x < col && 0 <= c.y < row && 0 <= w <= 2
    ensures PageOk(r.0, col, row) && 0 <= r.1.x < col && 0 <= r.1.y < row && r.1.attr == c.attr
  {
    var q := if Insert in mode && c.x + w < col then WithLine(p, c.y, ShiftedRight(p.line[c.y], c.x, w)) else p;
    if c.x + w > col then Fed(q, c, true, col, row, top, bot) else (q, c)
  }

  /** The cursor after a character of width w written at c: w columns
      right when they fit before the right margin, and otherwise on it
      waiting to wrap. */
  function Advanced(c: TCursor, w: int, col: int, row: int, top: int, bot: int): (r: TCursor)
    requires 1 <= col && 1 <= row && 0 <= top <= bot < row
  {
    if c.x + w < col then MovedTo(c, c.x + w, c.y, col, row, top, bot) else c.(state := c.state + {WrapNext})
  }

  /** The page and the cursor where the printable path of tputc writes a
      character of width w, from page p and cursor c. */
  function Prepared(p: Page, c: TCursor, mode: set<TermFlag>, w: int, col: int, row: int, top: int, bot: int): (r: (Page, TCursor))
    requires PageOk(p, col, row) && 0 <= top <= bot < row && 0 <= c.x < col && 0 <= c.y < row && 0 <= w <= 2
    ensures PageOk(r.0, col, row) && 0 <= r.1.x < col && 0 <= r.1.y < row && r.1.attr == c.attr
  {
    var (p1, c1) := Wrapped(SelDropped(p, c.y, col, row), c, mode, col, row, top, bot);
    Fitted(p1, c1, mode, w, col, row, top, bot)
  }

  /** The page and the cursor after the printable path of tputc writes
      the character u of width w, from page p and cursor c; graphic tells
      whether the DEC graphics set is in use. */
  function PrintedOn(p: Page, c: TCursor, mode: set<TermFlag>, u: Rune, w: int, graphic: bool,
                     col: int, row: int, top: int, bot: int): (r: (Page, TCursor))
    requires PageOk(p, col, row) && 0 <= top <= bot < row && 0 <= c.x < col && 0 <= c.y < row && 0 <= w <= 2
    ensures PageOk(r.0, col, row)
  {
    var (q, l) := Prepared(p, c, mode, w, col, row, top, bot);
    (PlacedPage(q, l.x, l.y, l.attr.(u := Stored(u, graphic)), w), Advanced(l, w, col, row, top, bot))
  }

  /** What the printable path promises: the character lands at the cell
      l Prepared gives, in the cursor's attributes, marked wide with a
      bare second half after it when w is 2; l is where the cursor was
      when no wrap is pending and the character fits, and otherwise a
      character that cannot fit lands at the start of a line; the cursor
      ends w columns past it, or on it waiting to wrap when the margin
      is reached, its attributes kept. */
  lemma PrintedOnCells(p: Page, c: TCursor, mode: set<TermFlag>, u: Rune, w: int, graphic: bool,
                       col: int, row: int, top: int, bot: int)
    requires PageOk(p, col, row) && 0 <= top <= bot < row && 0 <= c.x < col && 0 <= c.y < row && 0 <= w <= 2
    ensures var (q, d) := PrintedOn(p, c, mode, u, w, graphic, col, row, top, bot);
      var l := Prepared(p, c, mode, w, col, row, top, bot).1;
      var g := c.attr.(u := Stored(u, graphic));
      && q.line[l.y][l.x] == (if w == 2 then g.(mode := g.mode + {Wide}) else g)
      && (w == 2 && l.x + 1 < col ==> q.line[l.y][l.x + 1].u == 0 && q.line[l.y][l.x + 1].mode == {WDummy})
      && (!(ModeWrap in mode && WrapNext in c.state) && c.x + w <= col ==> l.x == c.x && l.y == c.y)
      && (l.x + w <= col || l.x == 0)
      && d.attr == c.attr
      && (l.x + w < col ==> d.x == l.x + w && WrapNext !in d.state)
      && (l.x + w >= col ==> d.x == l.x && d.y == l.y && WrapNext in d.state)
  {
    var (q0, l) := Prepared(p, c, mode, w, col, row, top, bot);
    PlacedCells(q0.line[l.y], l.x, l.attr.(u := Stored(u, graphic)), w);
  }

  /** selclear when the cursor's row lies between the rows of the
      selection's original corners. */
  method ClearSelOnRow(t: Terminal)
    requires t.Valid()
    modifies t`page
    ensures t.Valid() && t.page == SelDropped(old(t.page), t.cursor.y, t.col, t.row)
  {
    var s := t.page.sel;
    if s.ob.x != -1 && Between(t.cursor.y, s.ob.y, s.oe.y) {
      t.SelClear();
    }
  }

  /** The pending wrap of tputc. */
  method WrapLine(t: Terminal)
    requires t.Valid()
    modifies t`page, t`cursor
    ensures t.Valid() && (t.page, t.cursor) == Wrapped(old(t.page), old(t.cursor), t.mode, t.col, t.row, t.top, t.bot)
  {
    if ModeWrap in t.mode && WrapNext in t.cursor.state {
      var p, x, y := t.page, t.cursor.x, t.cursor.y;
      t.page := WrapMarked(p, x, y);
      t.NewLine(true);
    }
  }

  /** Room for a character of width w. */
  method Fit(t: Terminal, w: int)
    requires t.Valid() && 0 <= w <= 2
    modifies t`page, t`cursor
    ensures t.Valid() && (t.page, t.cursor) == Fitted(old(t.page), old(t.cursor), t.mode, w, t.col, t.row, t.top, t.bot)
  {
    var x, y := t.cursor.x, t.cursor.y;
    if Insert in t.mode && x + w < t.col {
      var p := t.page;
      t.page := WithLine(p, y, ShiftedRight(p.line[y], x, w));
    }
    if x + w > t.col {
      t.NewLine(true);
    }
  }

  /** tsetchar at the cursor, then for a character of width 2 the wide
      marks. */
  method Write(t: Terminal, u: Rune, w: int)
    requires t.Valid()
    modifies t`page
    ensures t.Valid()
    ensures t.page == PlacedPage(old(t.page), t.cursor.x, t.cursor.y, t.cursor.attr.(u := Stored(u, t.trantbl[t.charset] == Graphic0)), w)
  {
    var x, y := t.cursor.x, t.cursor.y;
    t.SetChar(u, x, y);
    if w == 2 {
      var p := t.page;
      t.page := WithLine(p, y, WideMarked(p.line[y], x));
    }
  }

  /** The cursor after a character of width w. */
  method Advance(t: Terminal, w: int)
    requires t.Valid()
    modifies t`cursor
    ensures t.Valid() && t.cursor == Advanced(old(t.cursor), w, t.col, t.row, t.top, t.bot)
  {
    if t.cursor.x + w < t.col {
      t.MoveTo(t.cursor.x + w, t.cursor.y);
    } else {
      t.cursor := t.cursor.(state := t.cursor.state + {WrapNext});
    }
  }

  /** The printable path of tputc for a character of width w, as
      PrintedOn gives it; PrintedOnCells says where it lands. */
  method PrintChar(t: Terminal, u: Rune, w: int)
    requires t.Valid() && 0 <= w <= 2
    modifies t`page, t`cursor
    ensures t.Valid()
    ensures (t.page, t.cursor) == PrintedOn(old(t.page), old(t.cursor), t.mode, u, w, t.trantbl[t.charset] == Graphic0,
                                            t.col, t.row, t.top, t.bot)
  {
    ClearSelOnRow(t);
    WrapLine(t);
    Fit(t, w);
    Write(t, u, w);
    Advance(t, w);
  }

  /** The bytes tputc hands to the printer and to a string sequence:
      utf8encode's, or for a printable character wcwidth rejects (width
      -1) as many bytes of the replacement character U+FFFD and its NUL
      as the character's own encoding has. */
  function Rendered(u: Rune, width: int): (c: seq<Byte>)
    ensures |c| == |Encoded(u)|
    ensures IsControl(u) || width != -1 ==> c == Encoded(u)
  {
    var c := Encoded(u);
    if !IsControl(u) && width == -1 then [0xEF, 0xBF, 0xBD, 0][..|c|] else c
  }

  /** The width tputc prints a character with: a printable character
      wcwidth rejects takes one column. */
  function PrintWidth(u: Rune, width: int): (w: int)
    ensures -1 <= width <= 2 && !IsControl(u) ==> 0 <= w <= 2
    ensures width != -1 ==> w == width
  {
    if !IsControl(u) && width == -1 then 1 else width
  }

  /** BEL, CAN, SUB, ESC and the C1 codes end a string sequence. */
  predicate StrEnds(u: Rune)
  {
    u == 7 || u == 24 || u == 26 || u == 27 || IsControlC1(u)
  }

  /** The state after a byte u of a CSI sequence from v, the log o0, the
      flags e0 and the CSI record c0: it is stored, and a final byte in
      0x40..0x7E, or a full buffer, ends the sequence, which is then
      parsed and handled (Handled); otherwise nothing else changes. */
  ghost predicate CsiByteDone(t: Terminal, u: Rune, v: View, o0: seq<Effect>, e0: set<EscFlag>, c0: CsiRec)
    reads t`row, t`col, t`page, t`alt, t`tabs, t`saved, t`trantbl, t`charset, t`icharset, t`top, t`bot, t`cursor, t`mode, t`out
    reads t`esc, t.csi, t.csi.buf, t.csi.arg
    requires Shaped(t) && Fits(t, v) && CsiWf(c0) && c0.len + 1 < EscBufSize
  {
    var r := CsiPush(c0, ToByte(u));
    if Between(u, 0x40, 0x7e) || r.len >= EscBufSize - 1 then
      t.esc == {} && t.csi.Rec() == CsiParse(r) && Handled(t, CsiParse(r), v, o0)
    else
      t.esc == e0 && t.csi.Rec() == r && ViewOf(t) == v && t.out == o0
  }

  /** A byte of a CSI sequence. */
  method CsiByte(t: Terminal, u: Rune)
    requires t.Valid() && EscCsi in t.esc
    modifies t`page, t`alt, t`mode, t`cursor, t`saved, t`out, t`tabs, t`top, t`bot, t`esc
    modifies t.csi, t.csi.buf, t.csi.arg
    ensures t.Valid() && CsiByteDone(t, u, old(ViewOf(t)), old(t.out), old(t.esc), old(t.csi.Rec()))
  {
    t.csi.Push(ToByte(u));
    if Between(u, 0x40, 0x7e) || t.csi.len >= EscBufSize - 1 {
      CsiEnd(t);
    }
  }

  /** The end of a CSI sequence: it is parsed and handled. */
  method CsiEnd(t: Terminal)
    requires Shaped(t) && t.csi.Valid() && t.str.Valid() && t.csi.buf != t.str.buf
    modifies t`page, t`alt, t`mode, t`cursor, t`saved, t`out, t`tabs, t`top, t`bot, t`esc
    modifies t.csi, t.csi.buf, t.csi.arg
    ensures t.Valid() && t.esc == {} && t.csi.Rec() == CsiParse(old(t.csi.Rec()))
    ensures Handled(t, CsiParse(old(t.csi.Rec())), old(ViewOf(t)), old(t.out))
  {
    t.esc := {};
    t.csi.Parse();
    CsiHandle(t);
  }

  /** The page after tdectest(b) from v: ESC # 8 fills the screen with
      'E' in the cursor's attributes (Edit.Align), keeping the selection
      and marking every row dirty; any other byte does nothing. */
  ghost predicate Tested(t: Terminal, b: Byte, v: View)
    reads t`row, t`col, t`page, t`alt, t`tabs, t`saved, t`trantbl, t`charset, t`icharset, t`top, t`bot, t`cursor
    requires Shaped(t) && Fits(t, v)
  {
    var g := v.cursor.attr.(u := Stored('E' as Rune, v.trantbl[v.charset] == Graphic0));
    if b != '8' as Byte then t.page == v.page
    else
      && t.page.sel == v.page.sel && AllDirty(t)
      && (forall y, x :: 0 <= y < t.row && 0 <= x < t.col ==> AlignedCell(t.page.line[y][x], v.cursor.attr, g.u))
      && (Wide !in g.mode && WDummy !in g.mode && WideOk(v.page.line) ==>
            forall y, x :: 0 <= y < t.row && 0 <= x < t.col ==> t.page.line[y][x] == g)
  }

  /** The state after a character u after ESC that is not a control code,
      from v, the log o0, the flags e0 and the string record s0: the
      designation of ESC ( ) * + (tdeftran into the slot being designated)
      and the test of ESC # (Tested) end the sequence and change nothing
      else; any other byte is eschandle's (EscDone), which ends the
      sequence unless the byte starts a longer one. */
  ghost predicate EscByteDone(t: Terminal, u: Rune, ok: bool, v: View, o0: seq<Effect>, e0: set<EscFlag>, s0: StrRec)
    reads t`row, t`col, t`page, t`alt, t`tabs, t`saved, t`trantbl, t`charset, t`icharset, t`top, t`bot, t`cursor, t`mode, t`out
    reads t`esc, t.str, t.str.buf
    requires Shaped(t) && Fits(t, v) && StrWf(s0)
  {
    var b := ToByte(u);
    if EscAltCharset in e0 then
      && t.esc == {} && t.out == o0 && t.str.Rec() == s0
      && ViewOf(t) == v.(trantbl := if TranFor(b).Some? then v.trantbl[v.icharset := TranFor(b).value] else v.trantbl)
    else if EscTest in e0 then
      t.esc == {} && t.out == o0 && t.str.Rec() == s0 && ViewOf(t) == v.(page := t.page) && Tested(t, b, v)
    else
      EscDone(t, b, ok, v, o0, e0, s0) && t.esc == (if IntroByte(b) then EscAfter(b, e0) else {})
  }

  /** A character after ESC that is not a control code. */
  method EscByte(t: Terminal, u: Rune, ok: bool)
    requires t.Valid() && EscStart in t.esc && EscCsi !in t.esc
    modifies t`page, t`alt, t`mode, t`cursor, t`saved, t`out, t`tabs, t`top, t`bot
    modifies t`esc, t`trantbl, t`charset, t`icharset, t.str, t.str.buf
    ensures t.Valid() && EscByteDone(t, u, ok, old(ViewOf(t)), old(t.out), old(t.esc), old(t.str.Rec()))
  {
    if EscAltCharset in t.esc {
      Designate(t, u, ok);
    } else if EscTest in t.esc {
      DecTestByte(t, u, ok);
    } else {
      EscFinal(t, u, ok);
    }
  }

  /** The final byte of ESC ( ) * +: tdeftran, and the sequence ends. */
  method Designate(t: Terminal, u: Rune, ok: bool)
    requires t.Valid() && EscAltCharset in t.esc
    modifies t`trantbl, t`esc
    ensures t.Valid() && EscByteDone(t, u, ok, old(ViewOf(t)), old(t.out), old(t.esc), old(t.str.Rec()))
  {
    t.DefTran(ToByte(u));
    t.esc := {};
  }

  /** The final byte of ESC #: tdectest, and the sequence ends. */
  method DecTestByte(t: Terminal, u: Rune, ok: bool)
    requires t.Valid() && EscAltCharset !in t.esc && EscTest in t.esc
    modifies t`page, t`esc
    ensures t.Valid() && EscByteDone(t, u, ok, old(ViewOf(t)), old(t.out), old(t.esc), old(t.str.Rec()))
  {
    t.DecTest(ToByte(u));
    t.esc := {};
  }

  /** Any other byte after ESC: eschandle, and the sequence ends unless
      the byte starts a longer one. */
  method EscFinal(t: Terminal, u: Rune, ok: bool)
    requires t.Valid() && EscStart in t.esc && EscCsi !in t.esc && EscAltCharset !in t.esc && EscTest !in t.esc
    modifies t`page, t`alt, t`mode, t`cursor, t`saved, t`out, t`tabs, t`top, t`bot
    modifies t`esc, t`trantbl, t`charset, t`icharset, t.str, t.str.buf
    ensures t.Valid() && EscByteDone(t, u, ok, old(ViewOf(t)), old(t.out), old(t.esc), old(t.str.Rec()))
  {
    var done := EscHandle(t, ToByte(u), ok);
    if done {
      EndEscape(t, u, ok, old(ViewOf(t)), old(t.out), old(t.esc), old(t.str.Rec()));
    }
  }

  /** The end of an escape sequence that eschandle finished: the flags
      are cleared and nothing else changes. */
  method EndEscape(t: Terminal, u: Rune, ok: bool, ghost v: View, ghost o0: seq<Effect>, ghost e0: set<EscFlag>, ghost s0: StrRec)
    requires t.Valid() && Fits(t, v) && StrWf(s0) && !IntroByte(ToByte(u))
    requires EscAltCharset !in e0 && EscTest !in e0 && EscDone(t, ToByte(u), ok, v, o0, e0, s0)
    modifies t`esc
    ensures t.Valid() && EscByteDone(t, u, ok, v, o0, e0, s0)
  {
    t.esc := {};
  }

  /** The start of tputc: the printer gets the character's bytes in
      printer mode; inside a string sequence a character that does not
      end the string is consumed, stored while it fits (an over-long
      string drops the rest silently), and one that ends it turns
      XELT_ESC_START and XELT_ESC_STR into XELT_ESC_STR_END. It reports
      whether the character was consumed. */
  method Prelude(t: Terminal, u: Rune, c: seq<Byte>) returns (consumed: bool)
    requires t.Valid() && |c| <= UtfSize
    modifies t`out, t`esc, t.str, t.str.buf
    ensures t.Valid()
    ensures t.out == old(t.out) + if Print in t.mode then [Printer(c)] else []
    ensures consumed <==> EscStr in old(t.esc) && !StrEnds(u)
    ensures consumed ==> (t.esc == old(t.esc)
      && (old(t.str.len) + |c| < StrBufSize - 1 ==> t.str.Rec() == StrAppend(old(t.str.Rec()), c))
      && (old(t.str.len) + |c| >= StrBufSize - 1 ==> t.str.Rec() == old(t.str.Rec())))
    ensures !consumed ==> (t.str.Rec() == old(t.str.Rec())
      && t.esc == if EscStr in old(t.esc) then old(t.esc) - {EscStart, EscStr} + {EscStrEnd} else old(t.esc))
  {
    if Print in t.mode {
      t.out := t.out + [Printer(c)];
    }
    consumed := false;
    if EscStr in t.esc {
      if StrEnds(u) {
        t.esc := t.esc - {EscStart, EscStr} + {EscStrEnd};
      } else {
        consumed := true;
        if t.str.len + |c| < StrBufSize - 1 {
          t.str.Append(c);
        }
      }
    }
  }

  /** The state after the rest of tputc for u, of width w if printed,
      from v, the log o0, the flags e0 and the records c0 and s0: a
      control code acts at once (ControlDone); a character after ESC
      continues the CSI sequence (CsiByteDone) or the escape sequence
      (EscByteDone); any other character is printed at the cursor
      (PrintedOn), changing nothing else. */
  ghost predicate ActDone(t: Terminal, u: Rune, w: int, ok: bool, v: View, o0: seq<Effect>, e0: set<EscFlag>, c0: CsiRec, s0: StrRec)
    reads t`row, t`col, t`page, t`alt, t`tabs, t`saved, t`trantbl, t`charset, t`icharset, t`top, t`bot, t`cursor, t`mode, t`out
    reads t`esc, t.csi, t.csi.buf, t.csi.arg, t.str, t.str.buf
    requires Shaped(t) && Fits(t, v) && CsiWf(c0) && StrWf(s0)
    requires (EscCsi in e0 ==> c0.len + 1 < EscBufSize) && (!IsControl(u) ==> 0 <= w <= 2)
  {
    if IsControl(u) then ControlDone(t, u as Byte, ok, v, o0, e0, c0, s0)
    else if EscStart in e0 && EscCsi in e0 then CsiByteDone(t, u, v, o0, e0, c0) && t.str.Rec() == s0
    else if EscStart in e0 then EscByteDone(t, u, ok, v, o0, e0, s0) && t.csi.Rec() == c0
    else
      && t.esc == e0 && t.out == o0 && t.csi.Rec() == c0 && t.str.Rec() == s0
      && ViewOf(t) == v.(page := t.page, cursor := t.cursor)
      && (t.page, t.cursor) == PrintedOn(v.page, v.cursor, v.mode, u, w, v.trantbl[v.charset] == Graphic0, t.col, t.row, t.top, t.bot)
  }

  /** The rest of tputc: a control code acts at once, a character after
      ESC continues the escape sequence, and any other character of width
      w is printed at the cursor. */
  method Act(t: Terminal, u: Rune, w: int, ok: bool)
    requires t.Valid() && (!IsControl(u) ==> 0 <= w <= 2)
    modifies t`page, t`alt, t`mode, t`cursor, t`saved, t`out, t`tabs, t`top, t`bot
    modifies t`esc, t`trantbl, t`charset, t`icharset, t.csi, t.csi.buf, t.csi.arg, t.str, t.str.buf
    ensures t.Valid()
    ensures ActDone(t, u, w, ok, old(ViewOf(t)), old(t.out), old(t.esc), old(t.csi.Rec()), old(t.str.Rec()))
  {
    if IsControl(u) {
      ActControl(t, u, w, ok);
    } else if EscStart in t.esc {
      ActEscape(t, u, w, ok);
    } else {
      ActPrint(t, u, w, ok);
    }
  }

  /** A control code acts at once. */
  method ActControl(t: Terminal, u: Rune, w: int, ok: bool)
    requires t.Valid() && IsControl(u)
    modifies t`page, t`alt, t`mode, t`cursor, t`saved, t`out, t`tabs, t`top, t`bot
    modifies t`esc, t`trantbl, t`charset, t`icharset, t.csi, t.csi.buf, t.csi.arg, t.str, t.str.buf
    ensures t.Valid()
    ensures ActDone(t, u, w, ok, old(ViewOf(t)), old(t.out), old(t.esc), old(t.csi.Rec()), old(t.str.Rec()))
  {
    ControlCode(t, u as Byte, ok);
  }

  /** A character after ESC continues the CSI or the escape sequence. */
  method ActEscape(t: Terminal, u: Rune, w: int, ok: bool)
    requires t.Valid() && !IsControl(u) && 0 <= w <= 2 && EscStart in t.esc
    modifies t`page, t`alt, t`mode, t`cursor, t`saved, t`out, t`tabs, t`top, t`bot
    modifies t`esc, t`trantbl, t`charset, t`icharset, t.csi, t.csi.buf, t.csi.arg, t.str, t.str.buf
    ensures t.Valid()
    ensures ActDone(t, u, w, ok, old(ViewOf(t)), old(t.out), old(t.esc), old(t.csi.Rec()), old(t.str.Rec()))
  {
    if EscCsi in t.esc {
      CsiByte(t, u);
    } else {
      EscByte(t, u, ok);
    }
  }

  /** Any other character is printed at the cursor. */
  method ActPrint(t: Terminal, u: Rune, w: int, ok: bool)
    requires t.Valid() && !IsControl(u) && 0 <= w <= 2 && EscStart !in t.esc
    modifies t`page, t`alt, t`mode, t`cursor, t`saved, t`out, t`tabs, t`top, t`bot
    modifies t`esc, t`trantbl, t`charset, t`icharset, t.csi, t.csi.buf, t.csi.arg, t.str, t.str.buf
    ensures t.Valid()
    ensures ActDone(t, u, w, ok, old(ViewOf(t)), old(t.out), old(t.esc), old(t.csi.Rec()), old(t.str.Rec()))
  {
    PrintChar(t, u, w);
  }

  /** tputc for a character u whose wcwidth is width: the printer gets
      its bytes in printer mode; inside a string sequence a character
      that does not end the string is stored while it fits and nothing
      else changes; otherwise the rest of tputc acts (ActDone), a
      character that ends a string sequence having first turned it into
      one whose terminator was seen. */
  method PutC(t: Terminal, u: Rune, width: int, ok: bool)
    requires t.Valid() && -1 <= width <= 2
    modifies t`page, t`alt, t`mode, t`cursor, t`saved, t`out, t`tabs, t`top, t`bot
    modifies t`esc, t`trantbl, t`charset, t`icharset, t.csi, t.csi.buf, t.csi.arg, t.str, t.str.buf
    ensures t.Valid()
    ensures var c := Rendered(u, width);
      var o1 := old(t.out) + if Print in old(t.mode) then [Printer(c)] else [];
      if EscStr in old(t.esc) && !StrEnds(u) then
        && ViewOf(t) == old(ViewOf(t)) && t.out == o1 && t.esc == old(t.esc) && t.csi.Rec() == old(t.csi.Rec())
        && t.str.Rec() == (if old(t.str.len) + |c| < StrBufSize - 1 then StrAppend(old(t.str.Rec()), c) else old(t.str.Rec()))
      else
        ActDone(t, u, PrintWidth(u, width), ok, old(ViewOf(t)), o1,
                if EscStr in old(t.esc) then old(t.esc) - {EscStart, EscStr} + {EscStrEnd} else old(t.esc),
                old(t.csi.Rec()), old(t.str.Rec()))
  {
    var c := Rendered(u, width);
    var consumed := Prelude(t, u, c);
    if !consumed {
      Act(t, u, PrintWidth(u, width), ok);
    }
  }
}
