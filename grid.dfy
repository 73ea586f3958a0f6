/** The screen as values: a screen is a sequence of rows, a row a sequence
    of glyphs (terminal.line and terminal.alt in src/xelt.c). These are the
    cell-level facts the terminal operations are specified with: filling a
    rectangle, marking dirty rows, the row exchanges of the scroll loops,
    the length of a line, and the VT100 graphics table. */
module Grid {
  import opened Utf8
  import opened Types
  import opened Macros
  import CLib

  type Line = seq<Glyph>
  type Screen = seq<Line>

  /** row rows of col cells each. */
  predicate IsScreen(s: Screen, col: int, row: int)
  {
    |s| == row && forall y :: 0 <= y < |s| ==> |s[y]| == col
  }

  /** The row with the cells x1..x2 replaced by g. */
  function FillLine(r: Line, x1: int, x2: int, g: Glyph): (r': Line)
    ensures |r'| == |r|
    ensures forall x :: 0 <= x < |r| ==> r'[x] == if x1 <= x <= x2 then g else r[x]
  {
    seq(|r|, x requires 0 <= x < |r| => if x1 <= x <= x2 then g else r[x])
  }

  /** The screen with the cells of the rectangle x1..x2 by y1..y2 replaced
      by g and every other cell kept. */
  function FillRect(s: Screen, x1: int, y1: int, x2: int, y2: int, g: Glyph): (r: Screen)
    ensures |r| == |s|
    ensures forall y :: 0 <= y < |s| ==> r[y] == if y1 <= y <= y2 then FillLine(s[y], x1, x2, g) else s[y]
  {
    seq(|s|, y requires 0 <= y < |s| => if y1 <= y <= y2 then FillLine(s[y], x1, x2, g) else s[y])
  }

  /** A row of n copies of g. */
  function Blank(n: nat, g: Glyph): (r: Line)
    ensures |r| == n && forall x :: 0 <= x < n ==> r[x] == g
  {
    seq(n, _ => g)
  }

  /** Filling whole rows y1..y2 leaves them blank and the others as they
      were. */
  lemma FilledRows(s: Screen, col: nat, y1: int, y2: int, g: Glyph, r: Screen)
    requires IsScreen(s, col, |s|) && r == FillRect(s, 0, y1, col - 1, y2, g)
    ensures forall y :: 0 <= y < |s| && y1 <= y <= y2 ==> r[y] == Blank(col, g)
    ensures forall y :: 0 <= y < |s| && !(y1 <= y <= y2) ==> r[y] == s[y]
  {
    forall y | 0 <= y < |s| && y1 <= y <= y2
      ensures r[y] == Blank(col, g)
    {
      assert FillLine(s[y], 0, col - 1, g) == Blank(col, g);
    }
  }

  /** The rows after tscrollup of orig..bot by k >= 1: the rows outside
      stay, the others move up by k, and k blank rows enter at the
      bottom. */
  lemma ScrolledUp(s: Screen, col: nat, orig: int, bot: int, k: nat, g: Glyph, r: Screen)
    requires IsScreen(s, col, |s|) && 0 <= orig && bot < |s| && 1 <= k <= bot - orig + 1
    requires r == SwapUp(FillRect(s, 0, orig, col - 1, orig + k - 1, g), orig, bot, k)
    ensures && (forall y :: 0 <= y < |s| && !(orig <= y <= bot) ==> r[y] == s[y])
      && (forall y :: orig <= y <= bot - k ==> r[y] == s[y + k])
      && (forall y :: bot - k < y <= bot ==> r[y] == Blank(col, g))
  {
    var f := FillRect(s, 0, orig, col - 1, orig + k - 1, g);
    FilledRows(s, col, orig, orig + k - 1, g, f);
    SwapUpMoves(f, orig, bot, k);
    SwapUpFills(f, orig, bot, k, Blank(col, g));
  }

  /** The rows after tscrolldown of orig..bot by k >= 1: the rows outside
      stay, the others move down by k, and k blank rows enter at the
      top. */
  lemma ScrolledDown(s: Screen, col: nat, orig: int, bot: int, k: nat, g: Glyph, r: Screen)
    requires IsScreen(s, col, |s|) && 0 <= orig && bot < |s| && 1 <= k <= bot - orig + 1
    requires r == SwapDown(FillRect(s, 0, bot - k + 1, col - 1, bot, g), bot, orig + k, k)
    ensures && (forall y :: 0 <= y < |s| && !(orig <= y <= bot) ==> r[y] == s[y])
      && (forall y :: orig + k <= y <= bot ==> r[y] == s[y - k])
      && (forall y :: orig <= y < orig + k ==> r[y] == Blank(col, g))
  {
    var f := FillRect(s, 0, bot - k + 1, col - 1, bot, g);
    FilledRows(s, col, bot - k + 1, bot, g, f);
    SwapDownMoves(f, orig + k, bot, k);
    SwapDownFills(f, orig + k, bot, k, Blank(col, g));
  }

  /** The dirty flags with rows a..b set. */
  function MarkRows(d: seq<bool>, a: int, b: int): (r: seq<bool>)
    ensures |r| == |d|
    ensures forall i :: 0 <= i < |d| ==> r[i] == (d[i] || a <= i <= b)
  {
    seq(|d|, i requires 0 <= i < |d| => d[i] || a <= i <= b)
  }

  /** Exchange of the row pointers i and j. */
  function SwapRows(s: Screen, i: int, j: int): (r: Screen)
    requires 0 <= i < |s| && 0 <= j < |s|
  {
    s[i := s[j]][j := s[i]]
  }

  /** The loop of tscrollup: for i = i..bot-k, exchange rows i and i+k. */
  function SwapUp(s: Screen, i: int, bot: int, k: nat): (r: Screen)
    requires 0 <= i && bot < |s|
    ensures |r| == |s|
    decreases bot - i + 1
  {
    if i > bot - k then s else SwapUp(SwapRows(s, i, i + k), i + 1, bot, k)
  }

  /** The loop of tscrolldown: for i = i down to lo, exchange rows i and
      i-k (lo is orig+k). */
  function SwapDown(s: Screen, i: int, lo: int, k: nat): (r: Screen)
    requires i < |s| && 0 <= lo - k
    ensures |r| == |s|
    decreases i - lo + 1
  {
    if i < lo then s else SwapDown(SwapRows(s, i, i - k), i - 1, lo, k)
  }

  /** Exchanging rows keeps every row col cells long. */
  lemma {:induction false} SwapUpShape(s: Screen, i: int, bot: int, k: nat, col: int)
    requires 0 <= i && bot < |s| && IsScreen(s, col, |s|)
    ensures IsScreen(SwapUp(s, i, bot, k), col, |s|)
    decreases bot - i + 1
  {
    if i <= bot - k {
      SwapUpShape(SwapRows(s, i, i + k), i + 1, bot, k, col);
    }
  }

  lemma {:induction false} SwapDownShape(s: Screen, i: int, lo: int, k: nat, col: int)
    requires i < |s| && 0 <= lo - k && IsScreen(s, col, |s|)
    ensures IsScreen(SwapDown(s, i, lo, k), col, |s|)
    decreases i - lo + 1
  {
    if lo <= i {
      SwapDownShape(SwapRows(s, i, i - k), i - 1, lo, k, col);
    }
  }

  /** The exchanges of tscrollup shift rows i+k..bot up by k; rows
      outside i..bot do not move. */
  lemma {:induction false} SwapUpMoves(s: Screen, i: int, bot: int, k: nat)
    requires 0 <= i && bot < |s|
    ensures var r := SwapUp(s, i, bot, k);
      && (forall y :: 0 <= y < |s| && !(i <= y <= bot) ==> r[y] == s[y])
      && (forall y :: i <= y <= bot - k ==> r[y] == s[y + k])
    decreases bot - i + 1
  {
    if i <= bot - k {
      var s' := SwapRows(s, i, i + k);
      var r := SwapUp(s', i + 1, bot, k);
      SwapUpMoves(s', i + 1, bot, k);
      assert r[i] == s'[i];
      forall y | 0 <= y < |s| && !(i <= y <= bot)
        ensures r[y] == s[y]
      {
        assert r[y] == s'[y];
      }
    }
  }

  /** The k rows the exchanges of tscrollup push out land, in some order,
      at the bottom of the region: when they all equal b, so do the bottom
      rows. */
  lemma {:induction false} SwapUpFills(s: Screen, i: int, bot: int, k: nat, b: Line)
    requires 0 <= i && bot < |s|
    requires forall y :: i <= y < i + k && y <= bot ==> s[y] == b
    ensures forall y :: i <= y <= bot && bot - k < y ==> SwapUp(s, i, bot, k)[y] == b
    decreases bot - i + 1
  {
    if i <= bot - k {
      var s' := SwapRows(s, i, i + k);
      SwapUpFills(s', i + 1, bot, k, b);
    }
  }

  /** The exchanges of tscrolldown shift rows orig..i-k down by k; rows
      outside orig..i do not move. */
  lemma {:induction false} SwapDownMoves(s: Screen, lo: int, i: int, k: nat)
    requires 0 <= lo - k && i < |s| && lo - 1 <= i
    ensures var r := SwapDown(s, i, lo, k);
      && (forall y :: 0 <= y < |s| && !(lo - k <= y <= i) ==> r[y] == s[y])
      && (forall y :: lo <= y <= i ==> r[y] == s[y - k])
    decreases i - lo + 1
  {
    if lo <= i {
      var s' := SwapRows(s, i, i - k);
      var r := SwapDown(s', i - 1, lo, k);
      SwapDownMoves(s', lo, i - 1, k);
      assert r[i] == s'[i];
      forall y | 0 <= y < |s| && !(lo - k <= y <= i)
        ensures r[y] == s[y]
      {
        assert r[y] == s'[y];
      }
    }
  }

  /** The k rows the exchanges of tscrolldown push out land at the top of
      the region: when they all equal b, so do the top rows. */
  lemma {:induction false} SwapDownFills(s: Screen, lo: int, i: int, k: nat, b: Line)
    requires 0 <= lo - k && i < |s| && lo - 1 <= i
    requires forall y :: i - k < y <= i && lo - k <= y ==> s[y] == b
    ensures forall y :: lo - k <= y < lo && y <= i ==> SwapDown(s, i, lo, k)[y] == b
    decreases i - lo + 1
  {
    if lo <= i {
      var s' := SwapRows(s, i, i - k);
      SwapDownFills(s', lo, i - 1, k, b);
    }
  }

  /** The trailing run of spaces of r[..i] removed. */
  function TrimSpaces(r: Line, i: nat): (n: nat)
    requires i <= |r|
    ensures n <= i
  {
    if i > 0 && r[i - 1].u == ' ' as Rune then TrimSpaces(r, i - 1) else i
  }

  /** What TrimSpaces removes are spaces, and it stops after a cell that
      is not one. */
  lemma {:induction false} TrimmedSpaces(r: Line, i: nat)
    requires i <= |r|
    ensures var n := TrimSpaces(r, i);
      (forall x :: n <= x < i ==> r[x].u == ' ' as Rune) && (n == 0 || r[n - 1].u != ' ' as Rune)
    decreases i
  {
    if i > 0 && r[i - 1].u == ' ' as Rune {
      TrimmedSpaces(r, i - 1);
    }
  }

  /** tlinelen: a line whose last cell carries the wrap mark counts in
      full; otherwise its trailing spaces do not count. */
  function LineLen(r: Line): (n: nat)
    requires |r| >= 1
    ensures n <= |r|
    ensures Wrap in r[|r| - 1].mode ==> n == |r|
  {
    if Wrap in r[|r| - 1].mode then |r| else TrimSpaces(r, |r|)
  }

  /** Without the wrap mark, the cells past tlinelen are spaces and the
      last one it counts is not. */
  lemma LineLenTrailing(r: Line)
    requires |r| >= 1 && Wrap !in r[|r| - 1].mode
    ensures var n := LineLen(r);
      (forall x :: n <= x < |r| ==> r[x].u == ' ' as Rune) && (n == 0 || r[n - 1].u != ' ' as Rune)
  {
    TrimmedSpaces(r, |r|);
  }

  /** The DEC Special Graphics table of tsetchar for 0x41..0x7e (taken
      from rxvt); 0 marks a code the table leaves untranslated. */
  const Vt100Table: seq<Rune> := [
    0x2191, 0x2193, 0x2192, 0x2190, 0x2588, 0x259a, 0x2603,          // A - G
    0, 0, 0, 0, 0, 0, 0, 0,                                          // H - O
    0, 0, 0, 0, 0, 0, 0, 0,                                          // P - W
    0, 0, 0, 0, 0, 0, 0, 0x20,                                       // X - _
    0x25c6, 0x2592, 0x2409, 0x240c, 0x240d, 0x240a, 0xb0, 0xb1,      // ` - g
    0x2424, 0x240b, 0x2518, 0x2510, 0x250c, 0x2514, 0x253c, 0x23ba,  // h - o
    0x23bb, 0x2500, 0x23bc, 0x23bd, 0x251c, 0x2524, 0x2534, 0x252c,  // p - w
    0x2502, 0x2264, 0x2265, 0x3c0, 0x2260, 0xa3, 0xb7                // x - ~
  ]

  /** The code tsetchar stores for u under the graphics charset. */
  function Vt100(u: Rune): (v: Rune)
    ensures !(0x41 <= u <= 0x7e) ==> v == u
    ensures 0x41 <= u <= 0x7e && Vt100Table[u - 0x41] == 0 ==> v == u
  {
    if 0x41 <= u <= 0x7e && Vt100Table[u - 0x41] != 0 then Vt100Table[u - 0x41] else u
  }

  /** The bounds a..b in order and clamped to 0..n-1, as tclearregion
      and tsetdirt take them. */
  function Span(a: int, b: int, n: int): (r: (int, int))
    requires n >= 1
    ensures 0 <= r.0 <= r.1 < n
    ensures a <= b && 0 <= a && b < n ==> r == (a, b)
  {
    (Limit(Min(a, b), 0, n - 1), Limit(Max(a, b), 0, n - 1))
  }

  /** The rows after tscrollup of orig..bot by k: rows orig..orig+k-1
      (put in order and clamped, as tclearregion does) filled with g, then
      the exchanges of the loop. For k >= 1 the rows outside the region
      stay, the region moves up by k and k rows of g enter at its bottom;
      for k = 0 see ScrollUpByZero. */
  function ScrollLinesUp(s: Screen, col: nat, orig: int, bot: int, k: nat, g: Glyph): (r: Screen)
    requires IsScreen(s, col, |s|) && 0 <= orig <= bot < |s| && k <= bot - orig + 1
    ensures IsScreen(r, col, |s|)
    ensures k >= 1 ==>
      && (forall y :: 0 <= y < |s| && !(orig <= y <= bot) ==> r[y] == s[y])
      && (forall y :: orig <= y <= bot - k ==> r[y] == s[y + k])
      && (forall y :: bot - k < y <= bot ==> r[y] == Blank(col, g))
  {
    var (ya, yb) := Span(orig, orig + k - 1, |s|);
    var f := FillRect(s, 0, ya, col - 1, yb, g);
    FilledRows(s, col, ya, yb, g, f);
    SwapUpShape(f, orig, bot, k, col);
    var u := SwapUp(f, orig, bot, k);
    if k >= 1 then ScrolledUp(s, col, orig, bot, k, g, u); u else u
  }

  /** The rows after tscrolldown of orig..bot by k: rows bot-k+1..bot
      filled with g, then the exchanges of the loop. For k >= 1 the rows
      outside the region stay, the region moves down by k and k rows of g
      enter at its top. */
  function ScrollLinesDown(s: Screen, col: nat, orig: int, bot: int, k: nat, g: Glyph): (r: Screen)
    requires IsScreen(s, col, |s|) && 0 <= orig <= bot < |s| && k <= bot - orig + 1
    ensures IsScreen(r, col, |s|)
    ensures k >= 1 ==>
      && (forall y :: 0 <= y < |s| && !(orig <= y <= bot) ==> r[y] == s[y])
      && (forall y :: orig + k <= y <= bot ==> r[y] == s[y - k])
      && (forall y :: orig <= y < orig + k ==> r[y] == Blank(col, g))
  {
    var (ya, yb) := Span(bot - k + 1, bot, |s|);
    var f := FillRect(s, 0, ya, col - 1, yb, g);
    FilledRows(s, col, ya, yb, g, f);
    SwapDownShape(f, bot, orig + k, k, col);
    var u := SwapDown(f, bot, orig + k, k);
    if k >= 1 then ScrolledDown(s, col, orig, bot, k, g, u); u else u
  }

  /** A count of zero clears rows orig..orig-1, which tclearregion puts in
      order: rows orig-1 and orig are blanked, the first of them outside
      the region when orig is its top. */
  lemma ScrollUpByZero(s: Screen, col: nat, orig: int, bot: int, g: Glyph)
    requires IsScreen(s, col, |s|) && 1 <= orig <= bot < |s|
    ensures ScrollLinesUp(s, col, orig, bot, 0, g)[orig - 1] == Blank(col, g)
    ensures ScrollLinesUp(s, col, orig, bot, 0, g)[orig] == Blank(col, g)
  {
    var f := FillRect(s, 0, orig - 1, col - 1, orig, g);
    assert Span(orig, orig - 1, |s|) == (orig - 1, orig);
    FilledRows(s, col, orig - 1, orig, g, f);
    SwapUpMoves(f, orig, bot, 0);
    assert ScrollLinesUp(s, col, orig, bot, 0, g) == SwapUp(f, orig, bot, 0);
    assert SwapUp(f, orig, bot, 0)[orig - 1] == f[orig - 1];
  }

  /** Marking rows c..e after rows a..b, where the two runs touch or
      overlap and the second reaches at least as far, marks a..e. */
  lemma MarkRowsJoin(d: seq<bool>, a: int, b: int, c: int, e: int)
    requires a <= c <= b + 1 && b <= e
    ensures MarkRows(MarkRows(d, a, b), c, e) == MarkRows(d, a, e)
  {
    assert forall i :: 0 <= i < |d| ==> MarkRows(MarkRows(d, a, b), c, e)[i] == MarkRows(d, a, e)[i];
  }

  /** Marking two runs of rows gives the same flags in either order. */
  lemma MarkRowsCommute(d: seq<bool>, a: int, b: int, c: int, e: int)
    ensures MarkRows(MarkRows(d, a, b), c, e) == MarkRows(MarkRows(d, c, e), a, b)
  {
    assert forall i :: 0 <= i < |d| ==> MarkRows(MarkRows(d, a, b), c, e)[i] == MarkRows(MarkRows(d, c, e), a, b)[i];
  }

  /** Filling a rectangle one row high changes that row only. */
  lemma FillOneRow(s: Screen, x1: int, y: int, x2: int, g: Glyph)
    requires 0 <= y < |s|
    ensures FillRect(s, x1, y, x2, y, g) == s[y := FillLine(s[y], x1, x2, g)]
  {
  }

  /** The row after tdeletechar of k cells at x: the cells after them move
      left, and the last k cells (the cells from col-1 to col-k put in
      order, which for k = 0 is the last cell alone) become g. */
  function DeleteCells(l: Line, x: int, k: int, g: Glyph): (r: Line)
    requires 0 <= x && 0 <= k && x + k <= |l| && |l| >= 1
    ensures |r| == |l|
  {
    var (a, b) := Span(|l| - k, |l| - 1, |l|);
    FillLine(l[..x] + l[x + k..] + l[|l| - k..], a, b, g)
  }

  /** Cell by cell: the cells before x stay, those after the deleted ones
      move left by k, and the last k cells (for k = 0 the last cell) are
      g. */
  lemma DeleteCellsMoves(l: Line, x: int, k: int, g: Glyph)
    requires 0 <= x && 0 <= k && x + k <= |l| && |l| >= 1
    ensures var r := DeleteCells(l, x, k, g);
      && (forall i :: 0 <= i < x && i < |l| - 1 ==> r[i] == l[i])
      && (forall i :: x <= i < |l| - k && i < |l| - 1 ==> r[i] == l[i + k])
      && (k >= 1 && x < |l| - k ==> r[|l| - k - 1] == l[|l| - 1])
      && (forall i :: |l| - k <= i < |l| ==> r[i] == g)
      && (k == 0 ==> r == l[|l| - 1 := g])
  {
  }

  /** The cells tdeletechar's tclearregion blanks (Span orders and clamps
      them) hold g. */
  lemma DeleteCellsTail(l: Line, x: int, k: int, g: Glyph)
    requires 0 <= x && 0 <= k && x + k <= |l| && |l| >= 1
    ensures forall c :: Span(|l| - k, |l| - 1, |l|).0 <= c <= Span(|l| - k, |l| - 1, |l|).1 ==> DeleteCells(l, x, k, g)[c] == g
  {
    var (a, b) := Span(|l| - k, |l| - 1, |l|);
    assert k == 0 ==> (a, b) == (|l| - 1, |l| - 1);
    assert k > 0 ==> (a, b) == (|l| - k, |l| - 1);
  }

  /** DeleteCells is the memmove of tdeletechar followed by the fill. */
  lemma MovedLeft(l: Line, x: int, k: int, g: Glyph)
    requires 0 <= x && 0 <= k && x + k <= |l| && |l| >= 1
    ensures var (a, b) := Span(|l| - k, |l| - 1, |l|);
      DeleteCells(l, x, k, g) == FillLine(l[..x] + l[x + k..] + l[|l| - k..], a, b, g)
  {
  }

  /** The row after tinsertblank of k cells at x: the cells from x move
      right by k, those pushed past the end are lost, and cells x..x+k-1
      become g (for k = 0, cells x-1 and x, as tclearregion orders the
      bounds). */
  function InsertCells(l: Line, x: int, k: int, g: Glyph): (r: Line)
    requires 0 <= x && 0 <= k && x + k <= |l| && x < |l|
    ensures |r| == |l|
  {
    var (a, b) := Span(x, x + k - 1, |l|);
    FillLine(l[..x + k] + l[x..|l| - k], a, b, g)
  }

  /** Cell by cell: the cells before x stay (before x - 1 when k = 0),
      those from x move right by k, and cells x..x+k-1 are g. */
  lemma InsertCellsMoves(l: Line, x: int, k: int, g: Glyph)
    requires 0 <= x && 0 <= k && x + k <= |l| && x < |l|
    ensures var r := InsertCells(l, x, k, g);
      && (forall i :: 0 <= i < x - 1 ==> r[i] == l[i])
      && (k >= 1 ==> forall i :: 0 <= i < x ==> r[i] == l[i])
      && (forall i :: x + k <= i < |l| && (k >= 1 || i > x) ==> r[i] == l[i - k])
      && (forall i :: x <= i < x + k ==> r[i] == g)
  {
  }

  /** The cells tinsertblank's tclearregion blanks (Span orders and
      clamps them) hold g. */
  lemma InsertCellsHead(l: Line, x: int, k: int, g: Glyph)
    requires 0 <= x && 0 <= k && x + k <= |l| && x < |l|
    ensures forall c :: Span(x, x + k - 1, |l|).0 <= c <= Span(x, x + k - 1, |l|).1 ==> InsertCells(l, x, k, g)[c] == g
  {
    var (a, b) := Span(x, x + k - 1, |l|);
    assert k == 0 ==> (a, b) == (Max(x - 1, 0), x);
    assert k > 0 ==> (a, b) == (x, x + k - 1);
  }

  /** InsertCells is the memmove of tinsertblank followed by the fill. */
  lemma MovedRight(l: Line, x: int, k: int, g: Glyph)
    requires 0 <= x && 0 <= k && x + k <= |l| && x < |l|
    ensures var (a, b) := Span(x, x + k - 1, |l|);
      InsertCells(l, x, k, g) == FillLine(l[..x + k] + l[x..|l| - k], a, b, g)
  {
  }

  /** The row after tsetchar's care for wide characters at x: overwriting
      the first half of a wide character blanks its second half;
      overwriting the second half blanks the first, which exists only
      when x > 0 (the corrected code). */
  function ClearPartner(l: Line, x: int): (r: Line)
    requires 0 <= x < |l|
    ensures |r| == |l| && r[x] == l[x]
    ensures forall i :: 0 <= i < |l| && i != x - 1 && i != x + 1 ==> r[i] == l[i]
    ensures Wide in l[x].mode && x + 1 < |l| ==>
      r[x + 1] == l[x + 1].(u := ' ' as Rune, mode := l[x + 1].mode - {WDummy})
    ensures Wide in l[x].mode ==> x == 0 || r[x - 1] == l[x - 1]
    ensures Wide !in l[x].mode ==> x + 1 >= |l| || r[x + 1] == l[x + 1]
    ensures Wide !in l[x].mode && WDummy in l[x].mode && x > 0 ==>
      r[x - 1] == l[x - 1].(u := ' ' as Rune, mode := l[x - 1].mode - {Wide})
    ensures !(Wide !in l[x].mode && WDummy in l[x].mode) ==> x == 0 || r[x - 1] == l[x - 1]
  {
    if Wide in l[x].mode then
      if x + 1 < |l| then l[x + 1 := l[x + 1].(u := ' ' as Rune, mode := l[x + 1].mode - {WDummy})] else l
    else if WDummy in l[x].mode && x > 0 then
      l[x - 1 := l[x - 1].(u := ' ' as Rune, mode := l[x - 1].mode - {Wide})]
    else l
  }

  /** The neighbour tsetchar as written overwrites besides x: for the
      second half of a wide character it is x-1 whatever x is. */
  function PartnerAsWritten(l: Line, x: int): (i: Option<int>)
    requires 0 <= x < |l|
    ensures i.Some? ==> i.value == x + 1 || i.value == x - 1
    ensures i.Some? && i.value == x + 1 ==> Wide in l[x].mode && x + 1 < |l|
    ensures i.None? ==> ClearPartner(l, x) == l
  {
    if Wide in l[x].mode then (if x + 1 < |l| then Some(x + 1) else None)
    else if WDummy in l[x].mode then Some(x - 1)
    else None
  }

  /** As written, writing over a wide character's second half in column 0
      stores a blank at index -1, before the start of the row; the
      corrected row keeps every cell but x. */
  lemma PartnerBeforeRow(l: Line)
    requires |l| >= 1 && WDummy in l[0].mode && Wide !in l[0].mode
    ensures PartnerAsWritten(l, 0) == Some(-1)
    ensures ClearPartner(l, 0) == l
  {
  }

  /** The charset tdeftran designates for the final byte b: '0' the DEC
      graphics set, 'B' US ASCII, anything else none (the corrected
      code). */
  function TranFor(b: Byte): (c: Option<Charset>)
    ensures c.Some? <==> b == '0' as Byte || b == 'B' as Byte
  {
    if b == '0' as Byte then Some(Graphic0)
    else if b == 'B' as Byte then Some(Usa)
    else None
  }

  /** The index tdeftran as written looks up in its table of charsets: the
      position of b in the string "0B", found by strchr, whose
      terminating NUL matches b = 0 at index 2, past the two entries of
      the table. */
  function TranIndexAsWritten(b: Byte): (i: Option<int>)
    ensures i.Some? <==> b == '0' as Byte || b == 'B' as Byte || b == 0
    ensures i.Some? && i.value < 2 ==> TranFor(b).Some?
  {
    var cs: seq<Byte> := ['0' as Byte, 'B' as Byte];
    var p := CLib.CStrChr(cs, b, 0);
    assert cs[0] == '0' as Byte && cs[1] == 'B' as Byte;
    if p == -1 then None else Some(p)
  }

  /** ESC ( followed by a character whose low byte is NUL (such as U+0100)
      makes tdeftran as written read entry 2 of a two-entry table. */
  lemma TranNulOutOfTable()
    ensures TranIndexAsWritten(0) == Some(2)
    ensures TranIndexAsWritten(ToByte(0x100)) == Some(2)
    ensures TranFor(ToByte(0x100)).None?
  {
  }

  /** The content of memory realloc and malloc hand out, which tresize
      clears before it is read; the model fixes it to one glyph. */
  const Fresh: Glyph := Glyph(0, {}, 0, 0)

  /** The rows tresize frees at the top so that the cursor's row y
      stays on a screen of row rows. */
  function Dropped(y: int, row: int): (k: nat)
    ensures y - k < row
    ensures k > 0 ==> y - k == row - 1
  {
    Max(0, y - row + 1)
  }

  /** A screen of width w after tresize's reallocations to col by row
      with the cursor on row y: the rows below the Dropped ones that fit
      move up with their first Min(col, w) cells (see ReshapeKeeps),
      everything else is fresh memory. */
  function Reshape(s: Screen, w: nat, y: nat, col: nat, row: nat): (r: Screen)
    requires IsScreen(s, w, |s|) && y < |s|
    ensures IsScreen(r, col, row)
  {
    var k, mincol, minrow := Dropped(y, row), Min(col, w), Min(row, |s|);
    var r := seq(row, i requires 0 <= i < row =>
      if i < minrow then ReshapeRow(s[i + k], col, mincol) else Blank(col, Fresh));
    assert forall i :: 0 <= i < row ==> |r[i]| == col by {
      forall i | 0 <= i < row ensures |r[i]| == col {
        if i < minrow {
          assert r[i] == ReshapeRow(s[i + k], col, mincol);
        } else {
          assert r[i] == Blank(col, Fresh);
        }
      }
    }
    r
  }

  /** The reallocated screen keeps the cells of the rows and columns that
      fit, Dropped rows higher. */
  lemma ReshapeKeeps(s: Screen, w: nat, y: nat, col: nat, row: nat)
    requires IsScreen(s, w, |s|) && y < |s|
    ensures var r, k := Reshape(s, w, y, col, row), Dropped(y, row);
      forall i, x :: 0 <= i < Min(row, |s|) && 0 <= x < Min(col, w) ==> r[i][x] == s[i + k][x]
  {
    var r, k := Reshape(s, w, y, col, row), Dropped(y, row);
    forall i, x | 0 <= i < Min(row, |s|) && 0 <= x < Min(col, w) ensures r[i][x] == s[i + k][x] {
      assert r[i] == ReshapeRow(s[i + k], col, Min(col, w));
    }
  }

  /** A row reallocated to col cells: the first mincol kept. */
  function ReshapeRow(l: Line, col: nat, mincol: nat): (r: Line)
    requires mincol <= |l| && mincol <= col
    ensures |r| == col && forall x :: 0 <= x < mincol ==> r[x] == l[x]
  {
    l[..mincol] + Blank(col - mincol, Fresh)
  }

  /** A screen of row rows, every cell g. */
  function BlankScreen(col: nat, row: nat, g: Glyph): (r: Screen)
    ensures IsScreen(r, col, row)
    ensures forall y, x :: 0 <= y < row && 0 <= x < col ==> r[y][x] == g
  {
    seq(row, _ => Blank(col, g))
  }

  /** Filling every cell of a screen gives the blank screen. */
  lemma FilledScreen(s: Screen, col: nat, row: nat, g: Glyph)
    requires IsScreen(s, col, row)
    ensures FillRect(s, 0, 0, col - 1, row - 1, g) == BlankScreen(col, row, g)
  {
    var r := FillRect(s, 0, 0, col - 1, row - 1, g);
    FilledRows(s, col, 0, row - 1, g, r);
  }

  /** The two clears of one pass of tresize's loop: the cells right of
      the kept columns in the kept rows, then the rows below the kept
      ones, each only when it is not empty. */
  function Refilled(s: Screen, col: nat, row: nat, mincol: nat, minrow: nat, g: Glyph): (r: Screen)
    requires IsScreen(s, col, row) && mincol <= col && minrow <= row
    ensures IsScreen(r, col, row)
  {
    var a := if mincol < col && 0 < minrow then FillRect(s, mincol, 0, col - 1, minrow - 1, g) else s;
    if 0 < col && minrow < row then FillRect(a, 0, minrow, col - 1, row - 1, g) else a
  }

  /** After the clears only the cells of the kept rows and columns are
      left; every other cell is g. */
  lemma RefilledCells(s: Screen, col: nat, row: nat, mincol: nat, minrow: nat, g: Glyph)
    requires IsScreen(s, col, row) && mincol <= col && minrow <= row
    ensures var r := Refilled(s, col, row, mincol, minrow, g);
      forall y, x :: 0 <= y < row && 0 <= x < col ==>
        r[y][x] == if y < minrow && x < mincol then s[y][x] else g
  {
  }

  /** A screen of width w after tresize to col by row with the cursor on
      row y, and its two clears with g (see ResizedCells). */
  function Resized(s: Screen, w: nat, y: nat, col: nat, row: nat, g: Glyph): (r: Screen)
    requires IsScreen(s, w, |s|) && y < |s|
    ensures IsScreen(r, col, row)
  {
    Refilled(Reshape(s, w, y, col, row), col, row, Min(col, w), Min(row, |s|), g)
  }

  /** The cells of the rows and columns that fit are where they were,
      Dropped rows lower down, and every other cell is g. */
  lemma ResizedCells(s: Screen, w: nat, y: nat, col: nat, row: nat, g: Glyph)
    requires IsScreen(s, w, |s|) && y < |s|
    ensures var r, k := Resized(s, w, y, col, row, g), Dropped(y, row);
      forall i, x :: 0 <= i < row && 0 <= x < col ==>
        r[i][x] == if i < |s| && x < w then s[i + k][x] else g
  {
    ReshapeKeeps(s, w, y, col, row);
    RefilledCells(Reshape(s, w, y, col, row), col, row, Min(col, w), Min(row, |s|), g);
  }
}
