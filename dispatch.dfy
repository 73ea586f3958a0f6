/** The decisions of the escape-sequence dispatch, as values: what
    csihandle (src/xelt.c:1763-1971) does with a parsed CSI sequence,
    which bits tsetmode (src/xelt.c:1631-1761) sets, and what strhandle
    (src/xelt.c:2003-2052) hands to the window. The terminal methods that
    carry them out are in module Interp. */
module Dispatch {
  import opened Utf8
  import opened Types
  import opened Macros
  import opened CLib
  import opened Escape
  import opened Select
  import opened Grid
  import Config

  /** The corners tclearregion is called with. */
  datatype Rect = Rect(x1: int, y1: int, x2: int, y2: int)

  /** What csihandle does with one parsed sequence, its DEFAULTs applied
      and its cursor arithmetic done on C ints. */
  datatype Action =
    | Unknown                                 // "goto unknown": a dump to stderr only
    | Ignored                                 // a known sequence with nothing to do
    | InsertBlanks(n: int)                    // ICH: tinsertblank
    | Move(x: int, y: int)                    // CUU CUD VPR CUF HPR CUB CNL CPL CHA HPA: tmoveto
    | MoveA(x: int, y: int)                   // CUP HVP VPA: tmoveato
    | Emit(e: Effect)                         // DA, DSR, MC 0-2, DECSCUSR
    | PrintMode(on: bool)                     // MC 4 and 5
    | ClearTab                                // TBC 0
    | ClearAllTabs                            // TBC 3
    | Tab(n: int)                             // CHT, CBT: tputtab
    | Erase(unselect: bool, rects: seq<Rect>) // ED (selclear first), EL, ECH: tclearregion
    | ScrollUp(n: int)                        // SU: tscrollup from the region's top
    | ScrollDown(n: int)                      // SD: tscrolldown from the region's top
    | InsertLines(n: int)                     // IL: tinsertblankline
    | DeleteLines(n: int)                     // DL: tdeleteline
    | DeleteChars(n: int)                     // DCH: tdeletechar
    | Modes(on: bool)                         // SM, RM: tsetmode
    | Attributes                              // SGR: tsetattr
    | Region(top: int, bot: int)              // DECSTBM: tsetscroll, then tmoveato(0, 0)
    | Save                                    // tcursor(XELT_CURSOR_SAVE)
    | Load                                    // tcursor(XELT_CURSOR_LOAD)

  function Ch(c: char): Byte
    requires c < 0x100 as char
  {
    c as Byte
  }

  /** The bytes of the cursor position report "\033[%i;%iR", rows and
      columns counted from 1. */
  function PositionReport(x: nat, y: nat): (s: seq<Byte>)
  {
    [0x1b, Ch('[')] + Decimal(y + 1) + [Ch(';')] + Decimal(x + 1) + [Ch('R')]
  }

  /** csihandle's switch on the final byte m0 (and, after ' ', the
      intermediate byte m1) for a sequence with the first two arguments
      a0 and a1, the cursor at (x, y) and a screen of col by row cells.
      Every sequence with a final byte csihandle has no case for is
      unknown, and so are TBC with a mode other than 0 and 3, DECSTBM
      with '?', and DECSCUSR with a style outside 0..6 or a wrong
      intermediate byte; everything else does something or is ignored
      on purpose. */
  function CsiAction(m0: Byte, m1: Byte, priv: bool, a0: int, a1: int,
                     x: nat, y: nat, col: int, row: int): (r: Action)
    ensures r == Unknown <==>
      !KnownFinal(m0)
      || (m0 == Ch('g') && a0 != 0 && a0 != 3)
      || (m0 == Ch('r') && priv)
      || (m0 == Ch(' ') && !(m1 == Ch('q') && Between(Default(a0, 1), 0, 6)))
  {
    var n := Default(a0, 1);
    if m0 == Ch('@') then InsertBlanks(n)
    else if m0 == Ch('A') then Move(x, Int32(y - n))
    else if m0 == Ch('B') || m0 == Ch('e') then Move(x, Int32(y + n))
    else if m0 == Ch('i') then
      if a0 == 0 then Emit(DumpScreen)
      else if a0 == 1 then Emit(DumpLine(y))
      else if a0 == 2 then Emit(DumpSelection)
      else if a0 == 4 then PrintMode(false)
      else if a0 == 5 then PrintMode(true)
      else Ignored
    else if m0 == Ch('c') then (if a0 == 0 then Emit(TtyWrite(Config.VtIden)) else Ignored)
    else if m0 == Ch('C') || m0 == Ch('a') then Move(Int32(x + n), y)
    else if m0 == Ch('D') then Move(Int32(x - n), y)
    else if m0 == Ch('E') then Move(0, Int32(y + n))
    else if m0 == Ch('F') then Move(0, Int32(y - n))
    else if m0 == Ch('g') then
      if a0 == 0 then ClearTab else if a0 == 3 then ClearAllTabs else Unknown
    else if m0 == Ch('G') || m0 == Ch('`') then Move(Int32(n - 1), y)
    else if m0 == Ch('H') || m0 == Ch('f') then MoveA(Int32(Default(a1, 1) - 1), Int32(n - 1))
    else if m0 == Ch('I') then Tab(n)
    else if m0 == Ch('J') then
      if a0 == 0 then
        Erase(true, [Rect(x, y, col - 1, y)] + if y < row - 1 then [Rect(0, y + 1, col - 1, row - 1)] else [])
      else if a0 == 1 then
        Erase(true, (if y > 1 then [Rect(0, 0, col - 1, y - 1)] else []) + [Rect(0, y, x, y)])
      else if a0 == 2 then Erase(true, [Rect(0, 0, col - 1, row - 1)])
      // Another mode is reported unknown after selclear; clearing the
      // selection and no rectangle leaves the same state.
      else Erase(true, [])
    else if m0 == Ch('K') then
      if a0 == 0 then Erase(false, [Rect(x, y, col - 1, y)])
      else if a0 == 1 then Erase(false, [Rect(0, y, x, y)])
      else if a0 == 2 then Erase(false, [Rect(0, y, col - 1, y)])
      else Ignored
    else if m0 == Ch('S') then ScrollUp(n)
    else if m0 == Ch('T') then ScrollDown(n)
    else if m0 == Ch('L') then InsertLines(n)
    else if m0 == Ch('l') then Modes(false)
    else if m0 == Ch('M') then DeleteLines(n)
    else if m0 == Ch('X') then Erase(false, [Rect(x, y, Int32(x + n - 1), y)])
    else if m0 == Ch('P') then DeleteChars(n)
    else if m0 == Ch('Z') then Tab(Int32(-n))
    else if m0 == Ch('d') then MoveA(x, Int32(n - 1))
    else if m0 == Ch('h') then Modes(true)
    else if m0 == Ch('m') then Attributes
    else if m0 == Ch('n') then (if a0 == 6 then Emit(TtyWrite(PositionReport(x, y))) else Ignored)
    else if m0 == Ch('r') then
      if priv then Unknown else Region(Int32(n - 1), Int32(Default(a1, row) - 1))
    else if m0 == Ch('s') then Save
    else if m0 == Ch('u') then Load
    else if m0 == Ch(' ') then
      if m1 == Ch('q') && Between(n, 0, 6) then Emit(CursorStyle(n)) else Unknown
    else Unknown
  }

  /** The final bytes csihandle has a case for. */
  predicate KnownFinal(m0: Byte)
  {
    CountFinal(m0) || m0 == Ch('i') || m0 == Ch('c') || m0 == Ch('g') || m0 == Ch('J')
    || m0 == Ch('K') || m0 == Ch('l') || m0 == Ch('h') || m0 == Ch('m') || m0 == Ch('n')
    || m0 == Ch('r') || m0 == Ch('s') || m0 == Ch('u') || m0 == Ch(' ')
  }

  /** The final bytes whose first argument is a count that DEFAULT turns
      from 0 into 1. */
  predicate CountFinal(m0: Byte)
  {
    m0 == Ch('@') || m0 == Ch('A') || m0 == Ch('B') || m0 == Ch('e') || m0 == Ch('C')
    || m0 == Ch('a') || m0 == Ch('D') || m0 == Ch('E') || m0 == Ch('F') || m0 == Ch('G')
    || m0 == Ch('`') || m0 == Ch('H') || m0 == Ch('f') || m0 == Ch('I') || m0 == Ch('P')
    || m0 == Ch('S') || m0 == Ch('T') || m0 == Ch('L') || m0 == Ch('M') || m0 == Ch('X')
    || m0 == Ch('Z') || m0 == Ch('d')
  }

  function Pow10(k: nat): (p: nat)
    ensures p >= 1
  {
    if k == 0 then 1 else 10 * Pow10(k - 1)
  }

  /** A value below 10^k, k >= 1, has at most k digits. */
  lemma {:induction false} DecimalBelow(n: nat, k: nat)
    requires 1 <= k && n < Pow10(k)
    ensures |Decimal(n)| <= k
    decreases k
  {
    if n >= 10 {
      DecimalBelow(n / 10, k - 1);
    }
  }

  /** For a cursor on a screen whose size is a C int the report fits
      the 40 bytes snprintf is given, so it is never cut short. */
  lemma PositionReportFits(x: nat, y: nat)
    requires x < 0x7FFF_FFFF && y < 0x7FFF_FFFF
    ensures |PositionReport(x, y)| <= 24 < 40
  {
    assert Pow10(10) == 10000000000 by {
      assert Pow10(5) == 100000;
      assert Pow10(10) == 10 * Pow10(9) == 100 * Pow10(8) == 1000 * Pow10(7) == 10000 * Pow10(6) == 100000 * Pow10(5);
    }
    DecimalBelow(y + 1, 10);
    DecimalBelow(x + 1, 10);
  }
  /** A zero count, which is also what a missing argument reads as,
      acts as a count of one. */
  lemma ZeroCountIsOne(m0: Byte, m1: Byte, priv: bool, a1: int, x: nat, y: nat, col: int, row: int)
    requires CountFinal(m0)
    ensures CsiAction(m0, m1, priv, 0, a1, x, y, col, row) == CsiAction(m0, m1, priv, 1, a1, x, y, col, row)
  {
  }

  /** CUP counts rows and columns from 1, row first; with no arguments
      it homes the cursor. */
  lemma CursorPosition(m1: Byte, priv: bool, a0: int, a1: int, x: nat, y: nat, col: int, row: int)
    requires 0 <= a0 < 0x8000_0000 && 0 <= a1 < 0x8000_0000
    ensures CsiAction(Ch('H'), m1, priv, a0, a1, x, y, col, row)
      == MoveA(if a1 == 0 then 0 else a1 - 1, if a0 == 0 then 0 else a0 - 1)
  {
  }

  /** DECSCUSR picks a cursor style from 1 to 6: style 0, which xterm
      documents as blinking block, reads as 1 through DEFAULT. */
  lemma CursorStyles(m1: Byte, priv: bool, a0: int, a1: int, x: nat, y: nat, col: int, row: int)
    ensures var a := CsiAction(Ch(' '), m1, priv, a0, a1, x, y, col, row);
      (a.Emit? <==> m1 == Ch('q') && 0 <= a0 <= 6)
      && (a.Emit? ==> a.e.CursorStyle? && 1 <= a.e.style <= 6)
      && (a0 == 0 && m1 == Ch('q') ==> a == Emit(CursorStyle(1)))
  {
  }

  /** DECSTBM without arguments makes the whole screen the region. */
  lemma RegionDefault(m1: Byte, a1: int, x: nat, y: nat, col: int, row: int)
    requires 1 <= row < 0x8000_0000
    ensures CsiAction(Ch('r'), m1, false, 0, 0, x, y, col, row) == Region(0, row - 1)
  {
  }

  /** Cell (cx, cy) lies in the rectangle r as tclearregion takes it: put
      in order and clamped to a screen of col by row cells. */
  predicate InRect(r: Rect, col: int, row: int, cx: int, cy: int)
    requires col >= 1 && row >= 1
  {
    var (xa, xb) := Span(r.x1, r.x2, col);
    var (ya, yb) := Span(r.y1, r.y2, row);
    xa <= cx <= xb && ya <= cy <= yb
  }

  /** Cell (cx, cy) is cleared by one of the rectangles. */
  predicate Covered(rs: seq<Rect>, col: int, row: int, cx: int, cy: int)
    requires col >= 1 && row >= 1
  {
    exists k :: 0 <= k < |rs| && InRect(rs[k], col, row, cx, cy)
  }

  /** ED 0 clears from the cursor to the end of the screen, in reading
      order, and drops the selection first. */
  lemma EraseBelow(m1: Byte, priv: bool, a1: int, x: nat, y: nat, col: int, row: int)
    requires x < col && y < row
    ensures var a := CsiAction(Ch('J'), m1, priv, 0, a1, x, y, col, row);
      a.Erase? && a.unselect
      && forall cx, cy :: 0 <= cx < col && 0 <= cy < row ==>
           (Covered(a.rects, col, row, cx, cy) <==> ReadingLe(Point(x, y), Point(cx, cy)))
  {
    var a := CsiAction(Ch('J'), m1, priv, 0, a1, x, y, col, row);
    forall cx, cy | 0 <= cx < col && 0 <= cy < row
      ensures Covered(a.rects, col, row, cx, cy) <==> ReadingLe(Point(x, y), Point(cx, cy))
    {
      if ReadingLe(Point(x, y), Point(cx, cy)) {
        if cy == y {
          assert InRect(a.rects[0], col, row, cx, cy);
        } else {
          assert InRect(a.rects[1], col, row, cx, cy);
        }
      }
    }
  }

  /** ED 1 clears from the start of the screen to the cursor, in reading
      order, except on the second row (see EraseAboveSecondRow). */
  lemma EraseAbove(m1: Byte, priv: bool, a1: int, x: nat, y: nat, col: int, row: int)
    requires x < col && y < row && y != 1
    ensures var a := CsiAction(Ch('J'), m1, priv, 1, a1, x, y, col, row);
      a.Erase? && a.unselect
      && forall cx, cy :: 0 <= cx < col && 0 <= cy < row ==>
           (Covered(a.rects, col, row, cx, cy) <==> ReadingLe(Point(cx, cy), Point(x, y)))
  {
    var a := CsiAction(Ch('J'), m1, priv, 1, a1, x, y, col, row);
    forall cx, cy | 0 <= cx < col && 0 <= cy < row
      ensures Covered(a.rects, col, row, cx, cy) <==> ReadingLe(Point(cx, cy), Point(x, y))
    {
      if ReadingLe(Point(cx, cy), Point(x, y)) {
        if cy == y {
          assert InRect(a.rects[|a.rects| - 1], col, row, cx, cy);
        } else {
          assert InRect(a.rects[0], col, row, cx, cy);
        }
      }
    }
  }

  /** With the cursor on the second row, ED 1 clears only that row up to
      the cursor: the guard `cursor.y > 1` skips the first row, which
      the erase should include. */
  lemma EraseAboveSecondRow(m1: Byte, priv: bool, a1: int, x: nat, col: int, row: int)
    requires x < col && 1 < row
    ensures var a := CsiAction(Ch('J'), m1, priv, 1, a1, x, 1, col, row);
      a == Erase(true, [Rect(0, 1, x, 1)])
      && forall cx :: 0 <= cx < col ==> !Covered(a.rects, col, row, cx, 0)
  {
  }

  /** ED 1 as evidently intended: every row above the cursor's (the
      guard y > 0 rather than y > 1), then its row up to the cursor. */
  function EraseAboveRects(x: int, y: int, col: int): (r: seq<Rect>)
    ensures |r| >= 1 && r[|r| - 1] == Rect(0, y, x, y)
  {
    (if y > 0 then [Rect(0, 0, col - 1, y - 1)] else []) + [Rect(0, y, x, y)]
  }

  /** With the guard y > 0, ED 1 clears exactly the cells up to the
      cursor in reading order on every row, the second included. */
  lemma EraseAboveIntended(x: nat, y: nat, col: int, row: int)
    requires x < col && y < row
    ensures forall cx, cy :: 0 <= cx < col && 0 <= cy < row ==>
      (Covered(EraseAboveRects(x, y, col), col, row, cx, cy) <==> ReadingLe(Point(cx, cy), Point(x, y)))
  {
    var rs := EraseAboveRects(x, y, col);
    forall cx, cy | 0 <= cx < col && 0 <= cy < row
      ensures Covered(rs, col, row, cx, cy) <==> ReadingLe(Point(cx, cy), Point(x, y))
    {
      if ReadingLe(Point(cx, cy), Point(x, y)) {
        if cy == y {
          assert InRect(rs[|rs| - 1], col, row, cx, cy);
        } else {
          assert InRect(rs[0], col, row, cx, cy);
        }
      }
    }
  }

  /** ED 2 clears every cell. */
  lemma EraseAll(m1: Byte, priv: bool, a1: int, x: nat, y: nat, col: int, row: int)
    requires 1 <= col && 1 <= row
    ensures var a := CsiAction(Ch('J'), m1, priv, 2, a1, x, y, col, row);
      a.Erase? && a.unselect
      && forall cx, cy :: 0 <= cx < col && 0 <= cy < row ==> Covered(a.rects, col, row, cx, cy)
  {
    var a := CsiAction(Ch('J'), m1, priv, 2, a1, x, y, col, row);
    forall cx, cy | 0 <= cx < col && 0 <= cy < row
      ensures Covered(a.rects, col, row, cx, cy)
    {
      assert InRect(a.rects[0], col, row, cx, cy);
    }
  }

  /** EL 0, 1 and 2 clear the cursor's row right of, left of and around
      the cursor; no other row, and the selection stays. */
  lemma EraseInLine(m1: Byte, priv: bool, a0: int, a1: int, x: nat, y: nat, col: int, row: int)
    requires x < col && y < row && 0 <= a0 <= 2
    ensures var a := CsiAction(Ch('K'), m1, priv, a0, a1, x, y, col, row);
      a.Erase? && !a.unselect
      && forall cx, cy :: 0 <= cx < col && 0 <= cy < row ==>
           (Covered(a.rects, col, row, cx, cy) <==>
              cy == y && (a0 == 2 || (a0 == 0 && cx >= x) || (a0 == 1 && cx <= x)))
  {
    var a := CsiAction(Ch('K'), m1, priv, a0, a1, x, y, col, row);
    forall cx, cy | 0 <= cx < col && 0 <= cy < row
      ensures Covered(a.rects, col, row, cx, cy) <==>
              cy == y && (a0 == 2 || (a0 == 0 && cx >= x) || (a0 == 1 && cx <= x))
    {
      if cy == y && (a0 == 2 || (a0 == 0 && cx >= x) || (a0 == 1 && cx <= x)) {
        assert InRect(a.rects[0], col, row, cx, cy);
      }
    }
  }

  /** ECH n clears n cells from the cursor on, as far as the row goes. */
  lemma EraseChars(m1: Byte, priv: bool, a0: int, a1: int, x: nat, y: nat, col: int, row: int)
    requires x < col < 0x8000_0000 && y < row && 0 <= a0 && x + a0 <= 0x8000_0000
    ensures var a := CsiAction(Ch('X'), m1, priv, a0, a1, x, y, col, row);
      var n := if a0 == 0 then 1 else a0;
      a.Erase? && !a.unselect
      && forall cx, cy :: 0 <= cx < col && 0 <= cy < row ==>
           (Covered(a.rects, col, row, cx, cy) <==> cy == y && x <= cx < x + n)
  {
    var a := CsiAction(Ch('X'), m1, priv, a0, a1, x, y, col, row);
    var n := if a0 == 0 then 1 else a0;
    forall cx, cy | 0 <= cx < col && 0 <= cy < row
      ensures Covered(a.rects, col, row, cx, cy) <==> cy == y && x <= cx < x + n
    {
      assert a.rects == [Rect(x, y, x + n - 1, y)];
      assert Covered(a.rects, col, row, cx, cy) <==> InRect(a.rects[0], col, row, cx, cy);
    }
  }

  /** strtol reads back what Decimal prints, when a non-digit follows. */
  lemma DecimalReads(s: seq<Byte>, i: nat, n: nat, d: seq<Byte>)
    requires n < 0x8000_0000 && d == Decimal(n)
    requires i + |d| < |s| && s[i..i + |d|] == d && !IsDigit(s[i + |d|])
    ensures StrToL(s, i) == (n, i + |d|)
  {
    assert s[i] == d[0];
    DigitsEndAt(s, i, d);
    DigitsValueAt(s, i, d);
    DecimalValue(n);
    StrToLDigits(s, i);
  }

  /** Where the pieces of a report "d1;d2R" lie in s. */
  lemma ReportPieces(s: seq<Byte>, d1: seq<Byte>, d2: seq<Byte>, len: nat)
    requires len == |d1| + |d2| + 2 && len <= |s|
    requires s[..len] == d1 + [Ch(';')] + d2 + [Ch('R')]
    ensures s[..|d1|] == d1 && s[|d1|] == Ch(';')
    ensures s[|d1| + 1..len - 1] == d2 && s[len - 1] == Ch('R')
  {
    var t := d1 + [Ch(';')] + d2 + [Ch('R')];
    assert s[len - 1] == t[len - 1];
    assert s[|d1|] == t[|d1|];
    assert s[..|d1|] == t[..|d1|];
    forall k | 0 <= k < |d2|
      ensures s[|d1| + 1 + k] == d2[k]
    {
      assert s[|d1| + 1 + k] == t[|d1| + 1 + k];
    }
    assert s[|d1| + 1..len - 1] == d2;
  }

  /** Two fields separated by ';' and followed by a final byte. */
  lemma CsiScanTwo(s: seq<Byte>, len: nat, v1: int, e1: nat, v2: int, e2: nat)
    requires len < |s| && s[len] == 0 && 0 < len
    requires StrToL(s, 0) == (v1, e1) && e1 < len && s[e1] == Ch(';')
    requires StrToL(s, e1 + 1) == (v2, e2) && e1 + 1 < len && e2 < len && s[e2] != Ch(';')
    ensures CsiScan(s, len, 0, []) == ([CsiArg(v1), CsiArg(v2)], e2)
  {
    CsiScanStep(s, len, 0, [], v1, e1);
    assert [] + [CsiArg(v1)] == [CsiArg(v1)];
    CsiScanStep(s, len, e1 + 1, [CsiArg(v1)], v2, e2);
    assert [CsiArg(v1)] + [CsiArg(v2)] == [CsiArg(v1), CsiArg(v2)];
  }

  /** Two decimal fields "a;bR" followed by a NUL scan as the fields a
      and b, stopping at the final byte. */
  lemma {:induction false} DecimalPairScans(s: seq<Byte>, a: nat, b: nat, d1: seq<Byte>, d2: seq<Byte>, len: nat)
    requires a < 0x8000_0000 && b < 0x8000_0000 && d1 == Decimal(a) && d2 == Decimal(b)
    requires len == |d1| + |d2| + 2 && len < |s| && s[len] == 0
    requires s[..len] == d1 + [Ch(';')] + d2 + [Ch('R')]
    ensures CsiScan(s, len, 0, []) == ([a, b], len - 1) && s[len - 1] == Ch('R')
  {
    ReportPieces(s, d1, d2, len);
    DecimalReads(s, 0, a, d1);
    DecimalReads(s, |d1| + 1, b, d2);
    CsiScanTwo(s, len, a, |d1|, b, len - 1);
  }

  /** The cursor position report is itself a CSI parameter string: read
      back as csiparse reads one, it gives the row and the column counted
      from 1, and stops at the final byte 'R'. */
  lemma {:induction false} PositionReportParses(x: nat, y: nat, s: seq<Byte>)
    requires x < 0x7FFF_FFFF && y < 0x7FFF_FFFF
    requires var r := PositionReport(x, y); |r| < |s| && s[..|r| - 2] == r[2..] && s[|r| - 2] == 0
    ensures var len := |PositionReport(x, y)| - 2;
      CsiScan(s, len, 0, []) == ([y + 1, x + 1], len - 1) && s[len - 1] == Ch('R')
  {
    var d1, d2 := Decimal(y + 1), Decimal(x + 1);
    var len := |d1| + |d2| + 2;
    ReportParts(x, y, d1, d2);
    DecimalPairScans(s, y + 1, x + 1, d1, d2, len);
  }

  /** The report is ESC [ followed by the row, ';', the column and 'R'. */
  lemma ReportParts(x: nat, y: nat, d1: seq<Byte>, d2: seq<Byte>)
    requires d1 == Decimal(y + 1) && d2 == Decimal(x + 1)
    ensures var r := PositionReport(x, y);
      |r| == |d1| + |d2| + 4 && r[2..] == d1 + [Ch(';')] + d2 + [Ch('R')]
  {
    var t := d1 + [Ch(';')] + d2 + [Ch('R')];
    assert PositionReport(x, y) == [0x1b, Ch('[')] + t;
  }

  /** strhandle after strparse: the calls a parsed STR sequence makes.
      The first argument, read with atoi, selects the OSC command: 0, 1
      and 2 set the title to the second argument when there is one; 4
      sets the colour numbered by the second argument to the third, if
      there are three; 104 resets the colour it numbers, -1 (all) when
      there is no second argument. The colour calls ask for a redraw
      when xsetcolorname accepts the colour, which is the parameter ok.
      The old ESC k sets the title to the first argument, NULL when
      there is none; DCS, APC and PM make no call. So only OSC and the
      old title sequence make calls, at most two, and a redraw only
      after a colour change the window accepted. */
  function StrEffects(s: StrRec, ok: bool): (r: seq<Effect>)
    requires StrWf(s)
    ensures |r| <= 2
    ensures r != [] ==> s.kind == Ch(']') || s.kind == Ch('k')
    ensures Redraw in r ==> s.kind == Ch(']') && ok && r[0].SetColorName?
  {
    var narg := |s.args|;
    var par := if narg > 0 then AToI(s.buf, s.args[0]) else 0;
    if s.kind == Ch(']') then
      if par == 0 || par == 1 || par == 2 then
        if narg > 1 then [SetTitle(StrArg(s, 1))] else []
      else if (par == 4 && narg >= 3) || par == 104 then
        var p := if par == 4 then StrArg(s, 2) else None;
        var j := if narg > 1 then AToI(s.buf, s.args[1]) else -1;
        [SetColorName(j, p)] + if ok then [Redraw] else []
      else []
    else if s.kind == Ch('k') then [SetTitle(StrArg(s, 0))]
    else []
  }

  /** A title byte: neither the separator nor the terminator. */
  predicate TitleByte(b: Byte)
  {
    b != Ch(';') && b != 0
  }

  /** OSC 0, 1 or 2 followed by a title sets the window title to exactly
      that title, once strparse has split the buffer. */
  lemma OscTitle(s: StrRec, title: seq<Byte>, ok: bool)
    requires StrWf(s) && s.kind == Ch(']') && s.len == |title| + 2
    requires s.buf[0] == Ch('0') || s.buf[0] == Ch('1') || s.buf[0] == Ch('2')
    requires s.buf[1] == Ch(';') && s.buf[2..s.len] == title
    requires forall k :: 0 <= k < |title| ==> TitleByte(title[k])
    ensures StrEffects(StrParse(s), ok) == [SetTitle(Some(title))]
  {
    var len := s.len;
    var b := s.buf[len := 0];
    forall k | 2 <= k < len
      ensures b[k] != Ch(';') && b[k] != 0
    {
      assert b[k] == title[k - 2];
    }
    StrScanStep(b, len, 0, [], 1);
    var b1 := b[1 := 0];
    StrScanStep(b1, len, 2, [0], len);
    assert StrParse(s) == s.(buf := b1, args := [0, 2]);
    var n := b[0] - 0x30;
    assert Decimal(n) == [b[0]];
    assert b1[0..1] == [b[0]];
    DecimalReads(b1, 0, n, [b[0]]);
    CStrUpTo(b1, 2, len);
    assert b1[2..len] == title;
  }

  /** ESC k sets the title to its whole text when it has no ';', and to
      NULL when it is empty. */
  lemma OldTitle(s: StrRec, title: seq<Byte>, ok: bool)
    requires StrWf(s) && s.kind == Ch('k') && s.len == |title| && s.buf[..s.len] == title
    requires forall k :: 0 <= k < |title| ==> TitleByte(title[k])
    ensures StrEffects(StrParse(s), ok) == [SetTitle(if title == [] then None else Some(title))]
  {
    var len := s.len;
    var b := s.buf[len := 0];
    if title != [] {
      forall k | 0 <= k < len
        ensures b[k] != Ch(';') && b[k] != 0
      {
        assert b[k] == title[k];
      }
      StrScanStep(b, len, 0, [], len);
      assert StrParse(s) == s.(buf := b, args := [0]);
      CStrUpTo(b, 0, len);
      assert b[0..len] == title;
    }
  }
}
