/** The functions of src/xelt.c that change the screen, its dirty flags
    and the selection, written over those values. A Page holds the three;
    each method takes the page it reads and returns the page it leaves,
    running the loops of the C code, and is specified by a function of the
    same name's effect (Unselected, Blanked, SelFollowed, RowsUp,
    RowsDown). What those functions mean is proved in the lemmas after
    them. The terminal's methods hand these methods its fields. */
module Edit {
  import opened Utf8
  import opened Types
  import opened Macros
  import opened Grid
  import opened Select
  import Config

  /** The rows of the screen, one dirty flag per row, and the selection
      over them. */
  datatype Page = Page(line: Screen, dirty: seq<bool>, sel: Selection)

  /** row rows of col cells, a flag per row, the selection on them. */
  predicate PageOk(p: Page, col: int, row: int)
  {
    col >= 1 && row >= 1 && IsScreen(p.line, col, row) && |p.dirty| == row
    && SelInBounds(p.sel, col, row)
  }

  /** The dirty flags after selclear when hit: the rows of s, clamped to
      the screen, are marked. */
  function MarkSel(d: seq<bool>, hit: bool, s: Selection, row: int): (r: seq<bool>)
    ensures |r| == |d|
    ensures forall i :: 0 <= i < |d| ==> r[i] == (d[i] || (hit && SelRows(s, row).0 <= i <= SelRows(s, row).1))
  {
    if hit then MarkRows(d, SelRows(s, row).0, SelRows(s, row).1) else d
  }

  /** tsetdirt: rows y1..y2, each clamped to the screen, are marked
      dirty. */
  method SetDirt(d: seq<bool>, y1: int, y2: int) returns (r: seq<bool>)
    requires |d| >= 1
    ensures r == MarkRows(d, Limit(y1, 0, |d| - 1), Limit(y2, 0, |d| - 1))
  {
    var a := Limit(y1, 0, |d| - 1);
    var b := Limit(y2, 0, |d| - 1);
    r := d;
    var i := a;
    while i <= b
      invariant a <= i <= Max(a, b + 1)
      invariant |r| == |d|
      invariant forall j :: 0 <= j < |d| ==> r[j] == (d[j] || a <= j < i)
    {
      r := r[i := true];
      i := i + 1;
    }
    assert forall j :: 0 <= j < |d| ==> r[j] == MarkRows(d, a, b)[j];
  }

  /** The page after selclear: with a selection, it is dropped and the
      rows it covered are dirty. */
  function Unselected(p: Page): (r: Page)
    requires |p.dirty| >= 1
  {
    Page(p.line, MarkSel(p.dirty, p.sel.ob.x != -1, p.sel, |p.dirty|), ClearedIf(p.sel, true))
  }

  /** selclear drops the selection, which keeps nb and ne and selects the
      same cells, marks exactly its rows, and changes nothing without a
      selection. */
  lemma UnselectedDrops(p: Page)
    requires |p.dirty| >= 1
    ensures var r := Unselected(p);
      && r.line == p.line && r.sel.ob.x == -1
      && (p.sel.ob.x == -1 ==> r == p)
      && (p.sel.ob.x != -1 ==> r.sel.mode == SelIdle && r.sel.nb == p.sel.nb && r.sel.ne == p.sel.ne)
      && (p.sel.mode != SelEmpty ==> forall x, y :: Selected(r.sel, x, y) == Selected(p.sel, x, y))
      && forall i :: 0 <= i < |p.dirty| ==>
           r.dirty[i] == (p.dirty[i] || (p.sel.ob.x != -1 && Limit(p.sel.nb.y, 0, |p.dirty| - 1) <= i <= Limit(p.sel.ne.y, 0, |p.dirty| - 1)))
  {
    if p.sel.ob.x != -1 {
      var c := Cleared(p.sel);
      assert Unselected(p).sel == c;
    }
  }

  /** selclear. */
  method SelClear(p: Page) returns (r: Page)
    requires |p.dirty| >= 1
    ensures r == Unselected(p)
  {
    if p.sel.ob.x == -1 {
      return p;
    }
    var s := Cleared(p.sel);
    var d := SetDirt(p.dirty, s.nb.y, s.ne.y);
    r := Page(p.line, d, s);
  }

  /** The inner loop of tclearregion on row y: cells xa..xb become g, and
      the selection is cleared at the first selected one. */
  method ClearRowCells(r: Line, d: seq<bool>, s: Selection, y: int, xa: int, xb: int, g: Glyph)
    returns (r': Line, d': seq<bool>, s': Selection)
    requires 0 <= xa <= xb < |r| && |d| >= 1
    ensures r' == FillLine(r, xa, xb, g)
    ensures var hit := s.ob.x != -1 && RowHit(s, xa, xb, y);
      s' == ClearedIf(s, hit) && d' == MarkSel(d, hit, s, |d|)
  {
    r', d', s' := r, d, s;
    ghost var hit := false;
    var x := xa;
    while x <= xb
      invariant xa <= x <= xb + 1 && |r'| == |r|
      invariant forall i :: 0 <= i < |r| ==> r'[i] == if xa <= i < x then g else r[i]
      invariant hit == (s.ob.x != -1 && RowHit(s, xa, x - 1, y))
      invariant s' == ClearedIf(s, hit)
      invariant d' == MarkSel(d, hit, s, |d|)
    {
      RowHitStep(s, xa, x, y);
      if Selected(s', x, y) {
        var q := SelClear(Page([], d', s'));
        s', d' := q.sel, q.dirty;
      }
      r' := r'[x := g];
      hit := hit || (s.ob.x != -1 && Selected(s, x, y));
      x := x + 1;
    }
    assert forall i :: 0 <= i < |r| ==> r'[i] == FillLine(r, xa, xb, g)[i];
  }

  /** The page after tclearregion: the rectangle x1..x2 by y1..y2, put
      in order and clamped to the screen, filled with g and its rows
      dirty; a selection touching it dropped, its rows dirty too. */
  function Blanked(p: Page, col: int, x1: int, y1: int, x2: int, y2: int, g: Glyph): (r: Page)
    requires PageOk(p, col, |p.line|)
    ensures PageOk(r, col, |p.line|)
  {
    var (xa, xb) := Span(x1, x2, col);
    var (ya, yb) := Span(y1, y2, |p.line|);
    var hit := p.sel.ob.x != -1 && SelHit(p.sel, xa, ya, xb, yb);
    Page(FillRect(p.line, xa, ya, xb, yb, g), MarkSel(MarkRows(p.dirty, ya, yb), hit, p.sel, |p.line|), ClearedIf(p.sel, hit))
  }

  /** tclearregion changes exactly the cells of the rectangle; its rows
      become dirty and, when a selected cell lies in it, so do the
      selection's rows and the selection is dropped; otherwise the
      selection stays. */
  lemma BlankedCells(p: Page, col: int, x1: int, y1: int, x2: int, y2: int, g: Glyph)
    requires PageOk(p, col, |p.line|)
    ensures var r := Blanked(p, col, x1, y1, x2, y2, g);
      var (xa, xb) := Span(x1, x2, col); var (ya, yb) := Span(y1, y2, |p.line|);
      var hit := exists x, y :: xa <= x <= xb && ya <= y <= yb && Selected(p.sel, x, y);
      && (forall y, x :: 0 <= y < |p.line| && 0 <= x < col ==>
            r.line[y][x] == if ya <= y <= yb && xa <= x <= xb then g else p.line[y][x])
      && (forall i :: 0 <= i < |p.line| ==>
            r.dirty[i] == (p.dirty[i] || ya <= i <= yb || (hit && p.sel.ob.x != -1 && SelRows(p.sel, |p.line|).0 <= i <= SelRows(p.sel, |p.line|).1)))
      && (hit && p.sel.ob.x != -1 ==> r.sel == Cleared(p.sel))
      && (!hit ==> r.sel == p.sel)
  {
    var (xa, xb) := Span(x1, x2, col);
    var (ya, yb) := Span(y1, y2, |p.line|);
    var hit := exists x, y :: xa <= x <= xb && ya <= y <= yb && Selected(p.sel, x, y);
    if hit {
      var x, y :| xa <= x <= xb && ya <= y <= yb && Selected(p.sel, x, y);
      assert RowHit(p.sel, xa, xb, y);
      assert SelHit(p.sel, xa, ya, xb, yb);
    }
  }

  /** tclearregion of the whole screen leaves every cell g and drops a
      selection touching the screen. */
  lemma BlankedWhole(p: Page, col: int, g: Glyph)
    requires PageOk(p, col, |p.line|)
    ensures var r := Blanked(p, col, 0, 0, col - 1, |p.line| - 1, g);
      && r.line == BlankScreen(col, |p.line|, g)
      && r.sel == ClearedIf(p.sel, SelHit(p.sel, 0, 0, col - 1, |p.line| - 1))
  {
    FilledScreen(p.line, col, |p.line|, g);
  }

  /** Dropping the selection touching a rectangle twice drops it once. */
  lemma ClearedIfTwice(s: Selection, xa: int, ya: int, xb: int, yb: int)
    ensures var c := ClearedIf(s, SelHit(s, xa, ya, xb, yb));
      ClearedIf(c, SelHit(c, xa, ya, xb, yb)) == c
  {
  }

  /** Some cell that one pass of tresize's loop clears is selected: one
      right of the kept columns in the kept rows, or one below the kept
      rows. */
  predicate ResizeHit(s: Selection, col: int, row: int, mincol: int, minrow: int)
  {
    (mincol < col && 0 < minrow && SelHit(s, mincol, 0, col - 1, minrow - 1))
    || (0 < col && minrow < row && SelHit(s, 0, minrow, col - 1, row - 1))
  }

  /** The two clears of one pass of tresize's loop: the cells right of
      the kept columns in the kept rows, then the rows below the kept
      ones, each only when it is not empty. */
  function ResizeCleared(p: Page, col: int, mincol: int, minrow: int, g: Glyph): (r: Page)
    requires PageOk(p, col, |p.line|) && 0 <= mincol <= col && 0 <= minrow <= |p.line|
    ensures PageOk(r, col, |p.line|)
  {
    var a := if mincol < col && 0 < minrow then Blanked(p, col, mincol, 0, col - 1, minrow - 1, g) else p;
    if 0 < col && minrow < |p.line| then Blanked(a, col, 0, minrow, col - 1, |p.line| - 1, g) else a
  }

  /** One pass of tresize's clears leaves the kept cells and fills every
      other cell with g, and drops a selection one of the filled cells
      belongs to. */
  lemma ResizeClearedParts(p: Page, col: int, mincol: int, minrow: int, g: Glyph)
    requires PageOk(p, col, |p.line|) && 0 <= mincol <= col && 0 <= minrow <= |p.line|
    ensures var r := ResizeCleared(p, col, mincol, minrow, g);
      && r.line == Refilled(p.line, col, |p.line|, mincol, minrow, g)
      && r.sel == ClearedIf(p.sel, ResizeHit(p.sel, col, |p.line|, mincol, minrow))
  {
    var row := |p.line|;
    if mincol < col && 0 < minrow {
      assert Span(mincol, col - 1, col) == (mincol, col - 1);
      assert Span(0, minrow - 1, row) == (0, minrow - 1);
    }
    if minrow < row {
      assert Span(0, col - 1, col) == (0, col - 1);
      assert Span(minrow, row - 1, row) == (minrow, row - 1);
    }
  }

  /** The clears of one pass of tresize's loop, by tclearregion. */
  method ResizeClear(p: Page, col: int, mincol: int, minrow: int, g: Glyph) returns (r: Page)
    requires PageOk(p, col, |p.line|) && 0 <= mincol <= col && 0 <= minrow <= |p.line|
    ensures r == ResizeCleared(p, col, mincol, minrow, g)
  {
    r := p;
    if mincol < col && 0 < minrow {
      r := ClearRegion(r, col, mincol, 0, col - 1, minrow - 1, g);
    }
    if 0 < col && minrow < |p.line| {
      r := ClearRegion(r, col, 0, minrow, col - 1, |p.line| - 1, g);
    }
  }

  /** The page after tresize's reallocations of a screen of width w to
      col by row with the cursor on row y (see Reshape). realloc keeps the
      first dirty flags; the new ones are fresh memory, false here. A
      selection not on the new screen is dropped, as corrected (see
      ResizedSel). */
  function Reallocated(p: Page, w: nat, y: nat, col: nat, row: nat): (r: Page)
    requires PageOk(p, w, |p.line|) && y < |p.line| && 1 <= col && 1 <= row
    ensures PageOk(r, col, row)
  {
    Page(Reshape(p.line, w, y, col, row), KeptFlags(p.dirty, row), if SelInBounds(p.sel, col, row) then p.sel else Cleared(p.sel))
  }

  /** Flags reallocated to n entries: the first ones kept, the new ones
      fresh memory, false here. */
  function KeptFlags(d: seq<bool>, n: nat): (r: seq<bool>)
    ensures |r| == n && forall i :: 0 <= i < Min(n, |d|) ==> r[i] == d[i]
  {
    seq(n, i requires 0 <= i < n => i < |d| && d[i])
  }

  /** A second pass over the same selection drops nothing more. */
  lemma ResizeHitOnce(s: Selection, col: int, row: int, mincol: int, minrow: int)
    ensures var c := ClearedIf(s, ResizeHit(s, col, row, mincol, minrow));
      ClearedIf(c, ResizeHit(c, col, row, mincol, minrow)) == c
  {
  }

  /** The selection tresize leaves, as written: it is not moved with the
      rows dropped at the top and not checked against the new size, so
      only the clears can drop it. */
  function ResizedSelAsWritten(s: Selection, col: int, row: int, mincol: int, minrow: int): (r: Selection)
    ensures !ResizeHit(s, col, row, mincol, minrow) ==> r == s
  {
    ClearedIf(s, ResizeHit(s, col, row, mincol, minrow))
  }

  /** Shrinking a two-row screen to one row keeps a selection on the
      second row: tresize as written leaves selection points outside the
      new screen, which getsel and selsnap then index. */
  lemma ResizeKeepsSelectionOffScreen()
    ensures var s := Selection(SelReady, Regular, NoSnap, Point(0, 1), Point(0, 1), Point(0, 1), Point(0, 1), false);
      && SelInBounds(s, 1, 2)
      && !SelInBounds(ResizedSelAsWritten(s, 1, 1, 1, 1), 1, 1)
      && ResizedSel(s, 1, 1, 1, 1).ob.x == -1
  {
  }

  /** The selection after tresize as corrected (see
      ResizeKeepsSelectionOffScreen): one not on the new screen is
      dropped first, then the clears drop one they touch. The result
      always lies on the new screen. */
  function ResizedSel(s: Selection, col: int, row: int, mincol: int, minrow: int): (r: Selection)
    ensures SelInBounds(r, col, row)
    ensures SelInBounds(s, col, row) ==> r == ResizedSelAsWritten(s, col, row, mincol, minrow)
    ensures !SelInBounds(s, col, row) ==> r.ob.x == -1
  {
    var k := if SelInBounds(s, col, row) then s else Cleared(s);
    ClearedIf(k, ResizeHit(k, col, row, mincol, minrow))
  }

  /** tclearregion. */
  method ClearRegion(p: Page, col: int, x1: int, y1: int, x2: int, y2: int, g: Glyph) returns (r: Page)
    requires PageOk(p, col, |p.line|)
    ensures r == Blanked(p, col, x1, y1, x2, y2, g)
  {
    var (xa, xb) := Span(x1, x2, col);
    var (ya, yb) := Span(y1, y2, |p.line|);
    var (l, d, s) := (p.line, p.dirty, p.sel);
    ghost var (ra, rb) := SelRows(s, |l|);
    ghost var hit := false;
    var y := ya;
    while y <= yb
      invariant ya <= y <= yb + 1
      invariant |l| == |p.line| && |d| == |p.line|
      invariant forall j :: 0 <= j < |l| ==> l[j] == if ya <= j < y then FillLine(p.line[j], xa, xb, g) else p.line[j]
      invariant hit == (p.sel.ob.x != -1 && SelHit(p.sel, xa, ya, xb, y - 1))
      invariant s == ClearedIf(p.sel, hit)
      invariant forall i :: 0 <= i < |l| ==> d[i] == (p.dirty[i] || ya <= i < y || (hit && ra <= i <= rb))
    {
      l, d, s, hit := ClearRegionRow(p, col, xa, xb, ya, y, g, l, d, s, hit);
      y := y + 1;
    }
    assert forall j :: 0 <= j < |l| ==> l[j] == FillRect(p.line, xa, ya, xb, yb, g)[j];
    assert l == FillRect(p.line, xa, ya, xb, yb, g);
    assert forall i :: 0 <= i < |l| ==> d[i] == MarkSel(MarkRows(p.dirty, ya, yb), hit, p.sel, |l|)[i];
    assert d == MarkSel(MarkRows(p.dirty, ya, yb), hit, p.sel, |l|);
    r := Page(l, d, s);
  }

  /** One turn of tclearregion's loop over the rows, on row y: the rows
      ya..y-1 of p already cleared (l), dirty (d) and checked against the
      selection (hit, s) become the rows ya..y. */
  method ClearRegionRow(p: Page, col: int, xa: int, xb: int, ya: int, y: int, g: Glyph,
                        l: Screen, d: seq<bool>, s: Selection, ghost hit: bool)
    returns (l': Screen, d': seq<bool>, s': Selection, ghost hit': bool)
    requires PageOk(p, col, |p.line|) && 0 <= xa <= xb < col && 0 <= ya <= y < |p.line|
    requires |l| == |p.line| && |d| == |p.line|
    requires forall j :: 0 <= j < |l| ==> l[j] == if ya <= j < y then FillLine(p.line[j], xa, xb, g) else p.line[j]
    requires hit == (p.sel.ob.x != -1 && SelHit(p.sel, xa, ya, xb, y - 1)) && s == ClearedIf(p.sel, hit)
    requires var (ra, rb) := SelRows(p.sel, |p.line|);
      forall i :: 0 <= i < |l| ==> d[i] == (p.dirty[i] || ya <= i < y || (hit && ra <= i <= rb))
    ensures |l'| == |p.line| && |d'| == |p.line|
    ensures forall j :: 0 <= j < |l'| ==> l'[j] == if ya <= j < y + 1 then FillLine(p.line[j], xa, xb, g) else p.line[j]
    ensures hit' == (p.sel.ob.x != -1 && SelHit(p.sel, xa, ya, xb, y)) && s' == ClearedIf(p.sel, hit')
    ensures var (ra, rb) := SelRows(p.sel, |p.line|);
      forall i :: 0 <= i < |l'| ==> d'[i] == (p.dirty[i] || ya <= i < y + 1 || (hit' && ra <= i <= rb))
  {
    SelHitStep(p.sel, xa, ya, xb, y);
    var cells;
    cells, d', s' := ClearRowCells(l[y], d[y := true], s, y, xa, xb, g);
    l' := l[y := cells];
    hit' := hit || (p.sel.ob.x != -1 && RowHit(p.sel, xa, xb, y));
  }

  /** tlinelen on a row: its length without trailing spaces, in full when
      its last cell carries the wrap mark. */
  method LineLength(r: Line) returns (n: int)
    requires |r| >= 1
    ensures n == LineLen(r)
  {
    n := |r|;
    if Wrap in r[n - 1].mode {
      return;
    }
    while n > 0 && r[n - 1].u == ' ' as Rune
      invariant 0 <= n <= |r|
      invariant TrimSpaces(r, n) == TrimSpaces(r, |r|)
    {
      n := n - 1;
    }
  }

  /** The XELT_SELSNAP_WORD loop of selsnap on the screen l. */
  method SnapWordIn(l: Screen, col: int, x: int, y: int, dir: int) returns (p: Point)
    requires IsScreen(l, col, |l|) && col >= 1 && 0 <= x < col && 0 <= y < |l| && (dir == 1 || dir == -1)
    ensures p == WordSnap(l, col, |l|, x, y, dir)
  {
    var row := |l|;
    p := Point(x, y);
    var prevdelim := StrChr(Config.WordDelimiters, l[y][x].u);
    DelimitersDecoded(l[y][x].u);
    while true
      invariant 0 <= p.x < col && 0 <= p.y < row
      invariant prevdelim != -1 <==> IsDelim(l[p.y][p.x].u)
      invariant WordSnap(l, col, row, p.x, p.y, dir) == WordSnap(l, col, row, x, y, dir)
      decreases if dir > 0 then row - p.y else p.y, if dir > 0 then col - p.x else p.x
    {
      var (newx, newy, stop) := SnapStep(l, col, row, p.x, p.y, dir);
      if stop {
        break;
      }
      var len := LineLength(l[newy]);
      if newx >= len {
        break;
      }
      var g := l[newy][newx];
      var delim := StrChr(Config.WordDelimiters, g.u);
      DelimitersDecoded(g.u);
      if WDummy !in g.mode && ((delim != -1) != (prevdelim != -1) || (delim != -1 && g.u != l[p.y][p.x].u)) {
        break;
      }
      p := Point(newx, newy);
      prevdelim := delim;
    }
  }

  /** The XELT_SELSNAP_LINE loops of selsnap on the screen l. */
  method SnapLineIn(l: Screen, col: int, x: int, y: int, dir: int) returns (p: Point)
    requires IsScreen(l, col, |l|) && col >= 1 && 0 <= x < col && 0 <= y < |l| && (dir == 1 || dir == -1)
    ensures p == SnapEnd(l, col, |l|, SnapLine, Point(x, y), dir)
  {
    if dir < 0 {
      p := Point(0, y);
      while p.y > 0
        invariant 0 <= p.y <= y && p.x == 0
        invariant LineStart(l, col, p.y) == LineStart(l, col, y)
      {
        if Wrap !in l[p.y - 1][col - 1].mode {
          break;
        }
        p := p.(y := p.y - 1);
      }
    } else {
      p := Point(col - 1, y);
      while p.y < |l| - 1
        invariant y <= p.y < |l| && p.x == col - 1
        invariant LineEnd(l, col, p.y) == LineEnd(l, col, y)
      {
        if Wrap !in l[p.y][col - 1].mode {
          break;
        }
        p := p.(y := p.y + 1);
      }
    }
  }

  /** selsnap: the end (x, y) moved in direction dir as the snap kind
      says: over the rest of a word, or to the start or end of a run of
      wrapped rows. */
  method SelSnap(l: Screen, col: int, snap: Snap, x: int, y: int, dir: int) returns (p: Point)
    requires IsScreen(l, col, |l|) && col >= 1 && 0 <= x < col && 0 <= y < |l| && (dir == 1 || dir == -1)
    ensures p == SnapEnd(l, col, |l|, snap, Point(x, y), dir)
  {
    match snap {
      case NoSnap => p := Point(x, y);
      case SnapWord => p := SnapWordIn(l, col, x, y, dir);
      case SnapLine => p := SnapLineIn(l, col, x, y, dir);
    }
  }

  /** selnormalize on the record s over the screen l: the ends in order,
      snapped, and for a regular selection stretched over the line
      ends. */
  method SelNormalize(l: Screen, col: int, s: Selection) returns (r: Selection)
    requires IsScreen(l, col, |l|) && col >= 1 && InGrid(s.ob, col, |l|) && InGrid(s.oe, col, |l|)
    ensures r == Normalize(l, col, |l|, s)
  {
    var bx, ex;
    if s.kind == Regular && s.ob.y != s.oe.y {
      bx := if s.ob.y < s.oe.y then s.ob.x else s.oe.x;
      ex := if s.ob.y < s.oe.y then s.oe.x else s.ob.x;
    } else {
      bx := Min(s.ob.x, s.oe.x);
      ex := Max(s.ob.x, s.oe.x);
    }
    var b := SelSnap(l, col, s.snap, bx, Min(s.ob.y, s.oe.y), -1);
    var e := SelSnap(l, col, s.snap, ex, Max(s.ob.y, s.oe.y), 1);
    if s.kind == Regular {
      var i := LineLength(l[b.y]);
      if i < b.x {
        b := b.(x := i);
      }
      var j := LineLength(l[e.y]);
      if j <= e.x {
        e := e.(x := col - 1);
      }
    }
    r := s.(nb := b, ne := e);
  }

  /** The page after selscroll once rows orig..bot moved by n: the
      selection follows them (SelScrolled), and when that drops it its
      rows are dirty. */
  function SelFollowed(p: Page, col: int, top: int, bot: int, orig: int, n: int): (r: Page)
    requires PageOk(p, col, |p.line|) && 0 <= top <= bot < |p.line|
    ensures PageOk(r, col, |p.line|) && r.line == p.line
  {
    var s := SelScrolled(p.sel, p.line, col, |p.line|, top, bot, orig, n);
    Page(p.line, MarkSel(p.dirty, p.sel.ob.x != -1 && s.ob.x == -1, p.sel, |p.line|), s)
  }

  /** selscroll. */
  method SelScroll(p: Page, col: int, top: int, bot: int, orig: int, n: int) returns (r: Page)
    requires PageOk(p, col, |p.line|) && 0 <= top <= bot < |p.line|
    ensures r == SelFollowed(p, col, top, bot, orig, n)
  {
    var s := p.sel;
    if s.ob.x == -1 || !(Between(s.ob.y, orig, bot) || Between(s.oe.y, orig, bot)) {
      return p;
    }
    var ob := s.ob.(y := s.ob.y + n);
    if ob.y > bot {
      assert SelScrolled(s, p.line, col, |p.line|, top, bot, orig, n) == Cleared(s.(ob := ob));
      r := SelClear(p.(sel := s.(ob := ob)));
      return;
    }
    var oe := s.oe.(y := s.oe.y + n);
    if oe.y < top {
      assert SelScrolled(s, p.line, col, |p.line|, top, bot, orig, n) == Cleared(s.(ob := ob, oe := oe));
      r := SelClear(p.(sel := s.(ob := ob, oe := oe)));
      return;
    }
    SelScrolledKept(s, p.line, col, |p.line|, top, bot, orig, n);
    var c := SelClamp(s.(ob := ob, oe := oe), top, bot, col - 1);
    var t := SelNormalize(p.line, col, c);
    r := p.(sel := t);
  }

  /** The exchange loop of tscrollup: rows i and i+k swap places for
      i = orig..bot-k. */
  method ExchangeUp(l: Screen, orig: int, bot: int, k: nat) returns (l': Screen)
    requires 0 <= orig && bot < |l|
    ensures l' == SwapUp(l, orig, bot, k)
  {
    l' := l;
    var i := orig;
    while i <= bot - k
      invariant orig <= i && |l'| == |l|
      invariant SwapUp(l', i, bot, k) == SwapUp(l, orig, bot, k)
      decreases bot - i
    {
      var temp := l'[i];
      l' := l'[i := l'[i + k]][i + k := temp];
      i := i + 1;
    }
  }

  /** The exchange loop of tscrolldown: rows i and i-k swap places for
      i = bot down to orig+k. */
  method ExchangeDown(l: Screen, orig: int, bot: int, k: nat) returns (l': Screen)
    requires 0 <= orig && bot < |l|
    ensures l' == SwapDown(l, bot, orig + k, k)
  {
    l' := l;
    var i := bot;
    while i >= orig + k
      invariant i <= bot && |l'| == |l|
      invariant SwapDown(l', i, orig + k, k) == SwapDown(l, bot, orig + k, k)
      decreases i
    {
      var temp := l'[i];
      l' := l'[i := l'[i - k]][i - k := temp];
      i := i - 1;
    }
  }

  /** The first part of tscrollup over rows orig..bot by k (k already
      limited to the region's size): tclearregion on rows orig..orig+k-1,
      then tsetdirt on rows orig+k..bot. */
  function ClearedUp(p: Page, col: int, orig: int, bot: int, k: nat, g: Glyph): (r: Page)
    requires PageOk(p, col, |p.line|) && 0 <= orig <= bot < |p.line| && k <= bot - orig + 1
    ensures PageOk(r, col, |p.line|)
  {
    var c := Blanked(p, col, 0, orig, col - 1, orig + k - 1, g);
    Page(c.line, MarkRows(c.dirty, Limit(orig + k, 0, |c.dirty| - 1), Limit(bot, 0, |c.dirty| - 1)), c.sel)
  }

  method ClearUp(p: Page, col: int, orig: int, bot: int, k: nat, g: Glyph) returns (r: Page)
    requires PageOk(p, col, |p.line|) && 0 <= orig <= bot < |p.line| && k <= bot - orig + 1
    ensures r == ClearedUp(p, col, orig, bot, k, g)
  {
    var c := ClearRegion(p, col, 0, orig, col - 1, orig + k - 1, g);
    var d := SetDirt(c.dirty, orig + k, bot);
    r := Page(c.line, d, c.sel);
  }

  /** tscrollup before its selscroll: the cleared page with the exchanges
      applied. */
  function RowsUp(p: Page, col: int, orig: int, bot: int, k: nat, g: Glyph): (r: Page)
    requires PageOk(p, col, |p.line|) && 0 <= orig <= bot < |p.line| && k <= bot - orig + 1
    ensures PageOk(r, col, |p.line|)
  {
    var c := ClearedUp(p, col, orig, bot, k, g);
    SwapUpShape(c.line, orig, bot, k, col);
    Page(SwapUp(c.line, orig, bot, k), c.dirty, c.sel)
  }

  method ShiftRowsUp(p: Page, col: int, orig: int, bot: int, k: nat, g: Glyph) returns (r: Page)
    requires PageOk(p, col, |p.line|) && 0 <= orig <= bot < |p.line| && k <= bot - orig + 1
    ensures |r.line| == |p.line| && PageOk(r, col, |p.line|)
    ensures r == RowsUp(p, col, orig, bot, k, g)
  {
    var c := ClearUp(p, col, orig, bot, k, g);
    SwapUpShape(c.line, orig, bot, k, col);
    var l := ExchangeUp(c.line, orig, bot, k);
    r := Page(l, c.dirty, c.sel);
  }

  /** The shift tscrollup hands to selscroll: k rows up. */
  function Upward(k: int): (d: int)
    ensures d + k == 0
  {
    -k
  }

  /** The page after tscrollup of rows orig..bot by n. */
  function ScrollUpPage(p: Page, col: int, top: int, bot: int, orig: int, n: int, g: Glyph): (r: Page)
    requires PageOk(p, col, |p.line|) && 0 <= top <= orig <= bot < |p.line|
    ensures PageOk(r, col, |p.line|)
  {
    var k := Limit(n, 0, bot - orig + 1);
    SelFollowed(RowsUp(p, col, orig, bot, k, g), col, top, bot, orig, Upward(k))
  }

  /** The two steps of tscrollup make up ScrollUpPage. */
  lemma ScrollUpComposed(p: Page, col: int, top: int, bot: int, orig: int, n: int, g: Glyph, k: int, m: Page, r: Page)
    requires PageOk(p, col, |p.line|) && 0 <= top <= orig <= bot < |p.line|
    requires k == Limit(n, 0, bot - orig + 1)
    requires PageOk(m, col, |m.line|) && |m.line| == |p.line|
    requires m == RowsUp(p, col, orig, bot, k, g)
    requires r == SelFollowed(m, col, top, bot, orig, Upward(k))
    ensures r == ScrollUpPage(p, col, top, bot, orig, n, g)
  {
  }

  /** tscrollup. */
  method ScrollUp(p: Page, col: int, top: int, bot: int, orig: int, n: int, g: Glyph) returns (r: Page)
    requires PageOk(p, col, |p.line|) && 0 <= top <= orig <= bot < |p.line|
    ensures r == ScrollUpPage(p, col, top, bot, orig, n, g)
  {
    var k := Limit(n, 0, bot - orig + 1);
    var m := ShiftRowsUp(p, col, orig, bot, k, g);
    r := SelScroll(m, col, top, bot, orig, Upward(k));
    ScrollUpComposed(p, col, top, bot, orig, n, g, k, m, r);
  }

  /** The first part of tscrolldown over rows orig..bot by k: tsetdirt on
      rows orig..bot-k, then tclearregion on rows bot-k+1..bot. */
  function ClearedDown(p: Page, col: int, orig: int, bot: int, k: nat, g: Glyph): (r: Page)
    requires PageOk(p, col, |p.line|) && 0 <= orig <= bot < |p.line| && k <= bot - orig + 1
    ensures PageOk(r, col, |p.line|)
  {
    var d := MarkRows(p.dirty, Limit(orig, 0, |p.dirty| - 1), Limit(bot - k, 0, |p.dirty| - 1));
    Blanked(Page(p.line, d, p.sel), col, 0, bot - k + 1, col - 1, bot, g)
  }

  method ClearDown(p: Page, col: int, orig: int, bot: int, k: nat, g: Glyph) returns (r: Page)
    requires PageOk(p, col, |p.line|) && 0 <= orig <= bot < |p.line| && k <= bot - orig + 1
    ensures r == ClearedDown(p, col, orig, bot, k, g)
  {
    var d := SetDirt(p.dirty, orig, bot - k);
    r := ClearRegion(Page(p.line, d, p.sel), col, 0, bot - k + 1, col - 1, bot, g);
  }

  /** tscrolldown before its selscroll: the cleared page with the
      exchanges applied. */
  function RowsDown(p: Page, col: int, orig: int, bot: int, k: nat, g: Glyph): (r: Page)
    requires PageOk(p, col, |p.line|) && 0 <= orig <= bot < |p.line| && k <= bot - orig + 1
    ensures PageOk(r, col, |p.line|)
  {
    var c := ClearedDown(p, col, orig, bot, k, g);
    SwapDownShape(c.line, bot, orig + k, k, col);
    Page(SwapDown(c.line, bot, orig + k, k), c.dirty, c.sel)
  }

  method ShiftRowsDown(p: Page, col: int, orig: int, bot: int, k: nat, g: Glyph) returns (r: Page)
    requires PageOk(p, col, |p.line|) && 0 <= orig <= bot < |p.line| && k <= bot - orig + 1
    ensures |r.line| == |p.line| && PageOk(r, col, |p.line|)
    ensures r == RowsDown(p, col, orig, bot, k, g)
  {
    var c := ClearDown(p, col, orig, bot, k, g);
    SwapDownShape(c.line, bot, orig + k, k, col);
    var l := ExchangeDown(c.line, orig, bot, k);
    r := Page(l, c.dirty, c.sel);
  }

  /** The page after tscrolldown of rows orig..bot by n. */
  function ScrollDownPage(p: Page, col: int, top: int, bot: int, orig: int, n: int, g: Glyph): (r: Page)
    requires PageOk(p, col, |p.line|) && 0 <= top <= orig <= bot < |p.line|
    ensures PageOk(r, col, |p.line|)
  {
    var k := Limit(n, 0, bot - orig + 1);
    SelFollowed(RowsDown(p, col, orig, bot, k, g), col, top, bot, orig, k)
  }

  /** The two steps of tscrolldown make up ScrollDownPage. */
  lemma ScrollDownComposed(p: Page, col: int, top: int, bot: int, orig: int, n: int, g: Glyph, k: int, m: Page, r: Page)
    requires PageOk(p, col, |p.line|) && 0 <= top <= orig <= bot < |p.line|
    requires k == Limit(n, 0, bot - orig + 1)
    requires PageOk(m, col, |m.line|) && |m.line| == |p.line|
    requires m == RowsDown(p, col, orig, bot, k, g)
    requires r == SelFollowed(m, col, top, bot, orig, k)
    ensures r == ScrollDownPage(p, col, top, bot, orig, n, g)
  {
  }

  /** tscrolldown. */
  method ScrollDown(p: Page, col: int, top: int, bot: int, orig: int, n: int, g: Glyph) returns (r: Page)
    requires PageOk(p, col, |p.line|) && 0 <= top <= orig <= bot < |p.line|
    ensures r == ScrollDownPage(p, col, top, bot, orig, n, g)
  {
    var k := Limit(n, 0, bot - orig + 1);
    var m := ShiftRowsDown(p, col, orig, bot, k, g);
    r := SelScroll(m, col, top, bot, orig, k);
    ScrollDownComposed(p, col, top, bot, orig, n, g, k, m, r);
  }

  /** tscrollup by n >= 1 moves the rows as ScrollLinesUp says: the
      region up by k, k rows of g in at its bottom, the rest kept. */
  lemma ScrollUpRows(p: Page, col: int, top: int, bot: int, orig: int, n: int, g: Glyph)
    requires PageOk(p, col, |p.line|) && 0 <= top <= orig <= bot < |p.line| && n >= 1
    ensures var k := Limit(n, 0, bot - orig + 1);
      ScrollUpPage(p, col, top, bot, orig, n, g).line == ScrollLinesUp(p.line, col, orig, bot, k, g)
  {
    var k := Limit(n, 0, bot - orig + 1);
    assert Span(0, col - 1, col) == (0, col - 1);
  }

  /** selscroll marks the rows of the selection exactly when it drops
      it, and keeps a dropped selection dropped. */
  lemma SelFollowedMarks(p: Page, col: int, top: int, bot: int, orig: int, n: int)
    requires PageOk(p, col, |p.line|) && 0 <= top <= bot < |p.line|
    ensures var r := SelFollowed(p, col, top, bot, orig, n);
      var (sa, sb) := SelRows(p.sel, |p.line|);
      && (p.sel.ob.x == -1 ==> r.sel == p.sel)
      && forall i :: 0 <= i < |p.line| ==>
           r.dirty[i] == (p.dirty[i] || (p.sel.ob.x != -1 && r.sel.ob.x == -1 && sa <= i <= sb))
  {
  }

  /** Before its selscroll, tscrollup by k >= 1 has marked rows
      orig..bot, and the rows of the selection when clearing dropped it. */
  lemma RowsUpDirty(p: Page, col: int, orig: int, bot: int, k: nat, g: Glyph)
    requires PageOk(p, col, |p.line|) && 0 <= orig <= bot < |p.line| && 1 <= k <= bot - orig + 1
    ensures var m := RowsUp(p, col, orig, bot, k, g);
      var (sa, sb) := SelRows(p.sel, |p.line|);
      && (m.sel == p.sel || m.sel == Cleared(p.sel))
      && forall i :: 0 <= i < |p.line| ==>
           m.dirty[i] == (p.dirty[i] || orig <= i <= bot || (p.sel.ob.x != -1 && m.sel.ob.x == -1 && sa <= i <= sb))
  {
    BlankedCells(p, col, 0, orig, col - 1, orig + k - 1, g);
  }

  /** tscrollup by n >= 1 leaves every row of the region dirty and marks a
      row outside it only as a row of a selection the scroll dropped. */
  lemma ScrollUpDirty(p: Page, col: int, top: int, bot: int, orig: int, n: int, g: Glyph)
    requires PageOk(p, col, |p.line|) && 0 <= top <= orig <= bot < |p.line| && n >= 1
    ensures var r := ScrollUpPage(p, col, top, bot, orig, n, g);
      var (sa, sb) := SelRows(p.sel, |p.line|);
      && (forall i :: orig <= i <= bot ==> r.dirty[i])
      && (forall i :: 0 <= i < |p.line| && !(orig <= i <= bot) ==>
            r.dirty[i] == (p.dirty[i] || (p.sel.ob.x != -1 && r.sel.ob.x == -1 && sa <= i <= sb)))
  {
    var k := Limit(n, 0, bot - orig + 1);
    RowsUpDirty(p, col, orig, bot, k, g);
    SelFollowedMarks(RowsUp(p, col, orig, bot, k, g), col, top, bot, orig, Upward(k));
  }

  /** The selection after tscrollup by n >= 1: dropped when a selected
      cell lies in the k rows cleared at the top of the region, otherwise
      moved by -k as selscroll moves it over the new rows. */
  lemma ScrollUpSelection(p: Page, col: int, top: int, bot: int, orig: int, n: int, g: Glyph)
    requires PageOk(p, col, |p.line|) && 0 <= top <= orig <= bot < |p.line| && n >= 1
    ensures var k := Limit(n, 0, bot - orig + 1);
      var r := ScrollUpPage(p, col, top, bot, orig, n, g);
      var hit := exists x, y :: 0 <= x < col && orig <= y < orig + k && Selected(p.sel, x, y);
      && (hit && p.sel.ob.x != -1 ==> r.sel == Cleared(p.sel))
      && (!hit ==> r.sel == SelScrolled(p.sel, r.line, col, |p.line|, top, bot, orig, Upward(k)))
  {
    var k := Limit(n, 0, bot - orig + 1);
    BlankedCells(p, col, 0, orig, col - 1, orig + k - 1, g);
    var m := RowsUp(p, col, orig, bot, k, g);
    assert m.sel == Blanked(p, col, 0, orig, col - 1, orig + k - 1, g).sel;
    assert ScrollUpPage(p, col, top, bot, orig, n, g) == SelFollowed(m, col, top, bot, orig, Upward(k));
  }

  /** The input that reaches selscroll's clamp of the end to column col:
      a regular selection whose first selected row lies below the rows
      tscrollup clears, and whose end the upward shift leaves below bot.
      tscrollup keeps it, and the code's clamp puts its end at (col, bot),
      off the screen (see Select.SelScrollPastLastColumn). */
  lemma ScrollUpReachesClamp(p: Page, col: int, top: int, bot: int, orig: int, n: int, g: Glyph)
    requires PageOk(p, col, |p.line|) && 0 <= top <= orig <= bot < |p.line|
    requires 1 <= n <= bot - orig + 1
    requires p.sel.ob.x != -1 && p.sel.kind == Regular && orig + n <= p.sel.nb.y
    requires Between(p.sel.ob.y, orig, bot) || Between(p.sel.oe.y, orig, bot)
    requires p.sel.ob.y - n <= bot < p.sel.oe.y - n
    ensures var r := ScrollUpPage(p, col, top, bot, orig, n, g);
      && r.sel.ob.x != -1
      && r.sel == SelScrolled(p.sel, r.line, col, |p.line|, top, bot, orig, Upward(n))
    ensures SelClampAsWritten(p.sel, col, top, bot, Upward(n)).oe == Point(col, bot)
  {
    var r := ScrollUpPage(p, col, top, bot, orig, n, g);
    ScrollUpSelection(p, col, top, bot, orig, n, g);
    assert !exists x, y :: 0 <= x < col && orig <= y < orig + n && Selected(p.sel, x, y);
    SelScrolledCases(p.sel, r.line, col, |p.line|, top, bot, orig, Upward(n));
  }

  /** tscrolldown by n >= 1 moves the rows as ScrollLinesDown says: the
      region down by k, k rows of g in at its top, the rest kept. */
  lemma ScrollDownRows(p: Page, col: int, top: int, bot: int, orig: int, n: int, g: Glyph)
    requires PageOk(p, col, |p.line|) && 0 <= top <= orig <= bot < |p.line| && n >= 1
    ensures var k := Limit(n, 0, bot - orig + 1);
      ScrollDownPage(p, col, top, bot, orig, n, g).line == ScrollLinesDown(p.line, col, orig, bot, k, g)
  {
    var k := Limit(n, 0, bot - orig + 1);
    assert Span(0, col - 1, col) == (0, col - 1);
  }

  /** Before its selscroll, tscrolldown by k >= 1 has marked rows
      orig..bot, and the rows of the selection when clearing dropped it. */
  lemma RowsDownDirty(p: Page, col: int, orig: int, bot: int, k: nat, g: Glyph)
    requires PageOk(p, col, |p.line|) && 0 <= orig <= bot < |p.line| && 1 <= k <= bot - orig + 1
    ensures var m := RowsDown(p, col, orig, bot, k, g);
      var (sa, sb) := SelRows(p.sel, |p.line|);
      && (m.sel == p.sel || m.sel == Cleared(p.sel))
      && forall i :: 0 <= i < |p.line| ==>
           m.dirty[i] == (p.dirty[i] || orig <= i <= bot || (p.sel.ob.x != -1 && m.sel.ob.x == -1 && sa <= i <= sb))
  {
    var q := Page(p.line, MarkRows(p.dirty, Limit(orig, 0, |p.dirty| - 1), Limit(bot - k, 0, |p.dirty| - 1)), p.sel);
    BlankedCells(q, col, 0, bot - k + 1, col - 1, bot, g);
  }

  /** tscrolldown by n >= 1 leaves every row of the region dirty and marks
      a row outside it only as a row of a selection the scroll dropped. */
  lemma ScrollDownDirty(p: Page, col: int, top: int, bot: int, orig: int, n: int, g: Glyph)
    requires PageOk(p, col, |p.line|) && 0 <= top <= orig <= bot < |p.line| && n >= 1
    ensures var r := ScrollDownPage(p, col, top, bot, orig, n, g);
      var (sa, sb) := SelRows(p.sel, |p.line|);
      && (forall i :: orig <= i <= bot ==> r.dirty[i])
      && (forall i :: 0 <= i < |p.line| && !(orig <= i <= bot) ==>
            r.dirty[i] == (p.dirty[i] || (p.sel.ob.x != -1 && r.sel.ob.x == -1 && sa <= i <= sb)))
  {
    var k := Limit(n, 0, bot - orig + 1);
    RowsDownDirty(p, col, orig, bot, k, g);
    SelFollowedMarks(RowsDown(p, col, orig, bot, k, g), col, top, bot, orig, k);
  }

  /** The selection after tscrolldown by n >= 1: dropped when a selected
      cell lies in the k rows cleared at the bottom of the region,
      otherwise moved by k as selscroll moves it over the new rows. */
  lemma ScrollDownSelection(p: Page, col: int, top: int, bot: int, orig: int, n: int, g: Glyph)
    requires PageOk(p, col, |p.line|) && 0 <= top <= orig <= bot < |p.line| && n >= 1
    ensures var k := Limit(n, 0, bot - orig + 1);
      var r := ScrollDownPage(p, col, top, bot, orig, n, g);
      var hit := exists x, y :: 0 <= x < col && bot - k < y <= bot && Selected(p.sel, x, y);
      && (hit && p.sel.ob.x != -1 ==> r.sel == Cleared(p.sel))
      && (!hit ==> r.sel == SelScrolled(p.sel, r.line, col, |p.line|, top, bot, orig, k))
  {
    var k := Limit(n, 0, bot - orig + 1);
    RowsDownSelection(p, col, orig, bot, k, g);
    var m := RowsDown(p, col, orig, bot, k, g);
    assert ScrollDownPage(p, col, top, bot, orig, n, g) == SelFollowed(m, col, top, bot, orig, k);
  }

  /** Before its selscroll, tscrolldown by k >= 1 has dropped the
      selection exactly when a selected cell lies in the k rows cleared
      at the bottom of the region. */
  lemma RowsDownSelection(p: Page, col: int, orig: int, bot: int, k: nat, g: Glyph)
    requires PageOk(p, col, |p.line|) && 0 <= orig <= bot < |p.line| && 1 <= k <= bot - orig + 1
    ensures var m := RowsDown(p, col, orig, bot, k, g);
      var hit := exists x, y :: 0 <= x < col && bot - k < y <= bot && Selected(p.sel, x, y);
      && (hit && p.sel.ob.x != -1 ==> m.sel == Cleared(p.sel))
      && (!hit ==> m.sel == p.sel)
  {
    var q := Page(p.line, MarkRows(p.dirty, Limit(orig, 0, |p.dirty| - 1), Limit(bot - k, 0, |p.dirty| - 1)), p.sel);
    assert Span(0, col - 1, col) == (0, col - 1);
    assert Span(bot - k + 1, bot, |q.line|) == (bot - k + 1, bot);
    BlankedCells(q, col, 0, bot - k + 1, col - 1, bot, g);
    assert RowsDown(p, col, orig, bot, k, g).sel == Blanked(q, col, 0, bot - k + 1, col - 1, bot, g).sel;
  }

  /** Blanking cells of row y that are already filled with the same
      glyph leaves the same page as blanking them in the row before. */
  lemma BlankedRowAgain(p: Page, col: int, y: int, l: Line, x1: int, x2: int, g: Glyph)
    requires PageOk(p, col, |p.line|) && 0 <= y < |p.line| && |l| == col
    ensures var (xa, xb) := Span(x1, x2, col);
      Blanked(p.(line := p.line[y := FillLine(l, xa, xb, g)]), col, x1, y, x2, y, g)
      == Blanked(p.(line := p.line[y := l]), col, x1, y, x2, y, g)
  {
    var (xa, xb) := Span(x1, x2, col);
    var l1 := p.line[y := FillLine(l, xa, xb, g)];
    var l2 := p.line[y := l];
    assert Span(y, y, |p.line|) == (y, y);
    FillOneRow(l1, xa, y, xb, g);
    FillOneRow(l2, xa, y, xb, g);
    assert FillLine(FillLine(l, xa, xb, g), xa, xb, g) == FillLine(l, xa, xb, g);
  }

  /** Replacing row y by a row of col cells keeps the page well formed. */
  lemma RowReplaced(p: Page, col: int, y: int, l: Line)
    requires PageOk(p, col, |p.line|) && 0 <= y < |p.line| && |l| == col
    ensures PageOk(p.(line := p.line[y := l]), col, |p.line|)
  {
  }

  /** The page after tdeletechar on row y from column x: n is clamped to
      the cells from x to the end of the row, the row becomes
      Grid.DeleteCells of it, and the dirty flags and the selection are as
      tclearregion of the last k cells leaves them (DeleteCharEffect). */
  function CharsDeleted(p: Page, col: int, x: int, y: int, n: int, g: Glyph): (r: Page)
    requires PageOk(p, col, |p.line|) && 0 <= x < col && 0 <= y < |p.line|
    ensures PageOk(r, col, |p.line|)
  {
    var k := Limit(n, 0, col - x);
    var d := DeleteCells(p.line[y], x, k, g);
    RowReplaced(p, col, y, d);
    Blanked(p.(line := p.line[y := d]), col, col - k, y, col - 1, y, g)
  }

  /** The page m holding the row tdeletechar's memmove leaves, blanked as
      tclearregion blanks it, is CharsDeleted: the page with
      Grid.DeleteCells of the row, blanked alike. */
  lemma MovedLeftBlanked(p: Page, col: int, x: int, y: int, k: int, g: Glyph, m: Page)
    requires PageOk(p, col, |p.line|) && 0 <= x < col && 0 <= y < |p.line| && 0 <= k <= col - x
    requires m == p.(line := p.line[y := p.line[y][..x] + p.line[y][x + k..] + p.line[y][col - k..]])
    ensures PageOk(m, col, |p.line|)
    ensures Blanked(m, col, col - k, y, col - 1, y, g)
      == Blanked(p.(line := p.line[y := DeleteCells(p.line[y], x, k, g)]), col, col - k, y, col - 1, y, g)
  {
    var l := p.line[y];
    assert |l| == col;
    var moved := l[..x] + l[x + k..] + l[col - k..];
    assert m == p.(line := p.line[y := moved]);
    RowReplaced(p, col, y, moved);
    var (a, b) := Span(col - k, col - 1, col);
    assert DeleteCells(l, x, k, g) == FillLine(moved, a, b, g);
    BlankedRowAgain(p, col, y, moved, col - k, col - 1, g);
  }

  /** tdeletechar: the cells after the deleted ones move left over them
      (the memmove) and tclearregion blanks the last k cells of the
      row. */
  method DeleteChar(p: Page, col: int, x: int, y: int, n: int, g: Glyph) returns (r: Page)
    requires PageOk(p, col, |p.line|) && 0 <= x < col && 0 <= y < |p.line|
    ensures r == CharsDeleted(p, col, x, y, n, g)
  {
    var k := Limit(n, 0, col - x);
    var l := p.line[y];
    var m := p.(line := p.line[y := l[..x] + l[x + k..] + l[col - k..]]);
    MovedLeftBlanked(p, col, x, y, k, g, m);
    CharsDeletedUnfold(p, col, x, y, n, k, g);
    r := ClearRegion(m, col, col - k, y, col - 1, y, g);
  }

  lemma CharsDeletedUnfold(p: Page, col: int, x: int, y: int, n: int, k: int, g: Glyph)
    requires PageOk(p, col, |p.line|) && 0 <= x < col && 0 <= y < |p.line| && k == Limit(n, 0, col - x)
    ensures CharsDeleted(p, col, x, y, n, g)
      == Blanked(p.(line := p.line[y := DeleteCells(p.line[y], x, k, g)]), col, col - k, y, col - 1, y, g)
  {
  }

  /** The page m holding the row tinsertblank's memmove leaves, blanked
      as tclearregion blanks it, is the page with Grid.InsertCells of the
      row. */
  lemma MovedRightBlanked(p: Page, col: int, x: int, y: int, k: int, g: Glyph, m: Page)
    requires PageOk(p, col, |p.line|) && 0 <= x < col && 0 <= y < |p.line| && 0 <= k <= col - x
    requires m == p.(line := p.line[y := p.line[y][..x + k] + p.line[y][x..col - k]])
    ensures PageOk(m, col, |p.line|)
    ensures Blanked(m, col, x, y, x + k - 1, y, g)
      == Blanked(p.(line := p.line[y := InsertCells(p.line[y], x, k, g)]), col, x, y, x + k - 1, y, g)
  {
    var l := p.line[y];
    var moved := l[..x + k] + l[x..col - k];
    RowReplaced(p, col, y, moved);
    MovedRight(l, x, k, g);
    BlankedRowAgain(p, col, y, moved, x, x + k - 1, g);
  }

  /** The page after tinsertblank on row y at column x: n is clamped to
      the cells from x to the end of the row, the row becomes
      Grid.InsertCells of it, and the dirty flags and the selection are
      as tclearregion of cells x..x+k-1 leaves them
      (InsertBlankEffect). */
  function BlanksInserted(p: Page, col: int, x: int, y: int, n: int, g: Glyph): (r: Page)
    requires PageOk(p, col, |p.line|) && 0 <= x < col && 0 <= y < |p.line|
    ensures PageOk(r, col, |p.line|)
  {
    var k := Limit(n, 0, col - x);
    var d := InsertCells(p.line[y], x, k, g);
    RowReplaced(p, col, y, d);
    Blanked(p.(line := p.line[y := d]), col, x, y, x + k - 1, y, g)
  }

  /** tinsertblank: the cells from x move right by k (the memmove; those
      pushed past the end are lost) and tclearregion blanks cells
      x..x+k-1. */
  method InsertBlank(p: Page, col: int, x: int, y: int, n: int, g: Glyph) returns (r: Page)
    requires PageOk(p, col, |p.line|) && 0 <= x < col && 0 <= y < |p.line|
    ensures r == BlanksInserted(p, col, x, y, n, g)
  {
    var k := Limit(n, 0, col - x);
    var l := p.line[y];
    var m := p.(line := p.line[y := l[..x + k] + l[x..col - k]]);
    MovedRightBlanked(p, col, x, y, k, g, m);
    r := ClearRegion(m, col, x, y, x + k - 1, y, g);
    assert BlanksInserted(p, col, x, y, n, g) == Blanked(p.(line := p.line[y := InsertCells(l, x, k, g)]), col, x, y, x + k - 1, y, g);
  }

  /** tclearregion on cells of row y that already hold g leaves the
      screen as it was, marks row y dirty and drops the selection exactly
      when one of those cells is selected. */
  lemma BlankedOnBlankRow(p: Page, col: int, x1: int, x2: int, y: int, g: Glyph)
    requires PageOk(p, col, |p.line|) && 0 <= y < |p.line|
    requires forall x :: Span(x1, x2, col).0 <= x <= Span(x1, x2, col).1 ==> p.line[y][x] == g
    ensures var r := Blanked(p, col, x1, y, x2, y, g);
      var hit := RowHit(p.sel, Span(x1, x2, col).0, Span(x1, x2, col).1, y);
      && r.line == p.line && r.dirty[y]
      && (hit && p.sel.ob.x != -1 ==> r.sel == Cleared(p.sel))
      && (!hit ==> r.sel == p.sel && forall i :: 0 <= i < |p.line| && i != y ==> r.dirty[i] == p.dirty[i])
  {
    var (xa, xb) := Span(x1, x2, col);
    assert Span(y, y, |p.line|) == (y, y);
    FillOneRow(p.line, xa, y, xb, g);
    assert FillLine(p.line[y], xa, xb, g) == p.line[y];
    var hit := RowHit(p.sel, xa, xb, y);
    var hit2 := SelHit(p.sel, xa, y, xb, y);
    assert hit2 ==> hit;
    assert hit ==> hit2 by {
      if hit {
        assert y <= y <= y && RowHit(p.sel, xa, xb, y);
      }
    }
  }

  /** What tdeletechar does, cell by cell: row y as Grid.DeleteCells
      describes it, the other rows unchanged, row y dirty, and the
      selection dropped exactly when one of the cleared cells at the end
      of the row is selected. */
  lemma DeleteCharEffect(p: Page, col: int, x: int, y: int, n: int, g: Glyph)
    requires PageOk(p, col, |p.line|) && 0 <= x < col && 0 <= y < |p.line|
    ensures var k := Limit(n, 0, col - x);
      var q := p.(line := p.line[y := DeleteCells(p.line[y], x, k, g)]);
      var r := CharsDeleted(p, col, x, y, n, g);
      var hit := RowHit(p.sel, Span(col - k, col - 1, col).0, Span(col - k, col - 1, col).1, y);
      && r.line == q.line && r.dirty[y]
      && (hit && p.sel.ob.x != -1 ==> r.sel == Cleared(p.sel))
      && (!hit ==> r.sel == p.sel && forall i :: 0 <= i < |p.line| && i != y ==> r.dirty[i] == p.dirty[i])
  {
    var k := Limit(n, 0, col - x);
    var d := DeleteCells(p.line[y], x, k, g);
    var q := p.(line := p.line[y := d]);
    assert |p.line[y]| == col;
    DeleteCellsTail(p.line[y], x, k, g);
    RowReplaced(p, col, y, d);
    BlankedOnBlankRow(q, col, col - k, col - 1, y, g);
  }

  /** What tinsertblank does, cell by cell: row y as Grid.InsertCells
      describes it, the other rows unchanged, row y dirty, and the
      selection dropped exactly when one of the blanked cells is
      selected. */
  lemma InsertBlankEffect(p: Page, col: int, x: int, y: int, n: int, g: Glyph)
    requires PageOk(p, col, |p.line|) && 0 <= x < col && 0 <= y < |p.line|
    ensures var k := Limit(n, 0, col - x);
      var q := p.(line := p.line[y := InsertCells(p.line[y], x, k, g)]);
      var r := BlanksInserted(p, col, x, y, n, g);
      var hit := RowHit(p.sel, Span(x, x + k - 1, col).0, Span(x, x + k - 1, col).1, y);
      && r.line == q.line && r.dirty[y]
      && (hit && p.sel.ob.x != -1 ==> r.sel == Cleared(p.sel))
      && (!hit ==> r.sel == p.sel && forall i :: 0 <= i < |p.line| && i != y ==> r.dirty[i] == p.dirty[i])
  {
    var k := Limit(n, 0, col - x);
    var d := InsertCells(p.line[y], x, k, g);
    var q := p.(line := p.line[y := d]);
    assert |p.line[y]| == col;
    InsertCellsHead(p.line[y], x, k, g);
    RowReplaced(p, col, y, d);
    BlankedOnBlankRow(q, col, x, x + k - 1, y, g);
    assert BlanksInserted(p, col, x, y, n, g) == Blanked(q, col, x, y, x + k - 1, y, g);
  }

  /** The page after tsetchar at (x, y): with the DEC graphics set in use
      (graphic) a code with an entry in the VT100 table is replaced by it;
      writing over either half of a wide character blanks its other half
      (Grid.ClearPartner); the cell becomes attr holding the code and its
      row becomes dirty. No other row changes and the selection is not
      touched. */
  function Written(p: Page, col: int, u: Rune, attr: Glyph, x: int, y: int, graphic: bool): (r: Page)
    requires PageOk(p, col, |p.line|) && 0 <= x < col && 0 <= y < |p.line|
    ensures PageOk(r, col, |p.line|) && r.sel == p.sel
    ensures r.line[y][x] == attr.(u := Stored(u, graphic)) && r.dirty[y]
    ensures forall j :: 0 <= j < |p.line| && j != y ==> r.line[j] == p.line[j] && r.dirty[j] == p.dirty[j]
  {
    Page(p.line[y := ClearPartner(p.line[y], x)[x := attr.(u := Stored(u, graphic))]], p.dirty[y := true], p.sel)
  }

  /** The code tsetchar stores for u: its VT100 graphic under the DEC
      graphics set. */
  function Stored(u: Rune, graphic: bool): (v: Rune)
    ensures !graphic ==> v == u
  {
    if graphic then Vt100(u) else u
  }

  /** tsetchar. */
  method SetChar(p: Page, col: int, u: Rune, attr: Glyph, x: int, y: int, graphic: bool) returns (r: Page)
    requires PageOk(p, col, |p.line|) && 0 <= x < col && 0 <= y < |p.line|
    ensures r == Written(p, col, u, attr, x, y, graphic)
  {
    var v := u;
    if graphic && Between(u, 0x41, 0x7e) && Vt100Table[u - 0x41] != 0 {
      v := Vt100Table[u - 0x41];
    }
    var l := p.line[y];
    if Wide in l[x].mode {
      if x + 1 < col {
        l := l[x + 1 := l[x + 1].(u := ' ' as Rune, mode := l[x + 1].mode - {WDummy})];
      }
    } else if WDummy in l[x].mode && x > 0 {
      l := l[x - 1 := l[x - 1].(u := ' ' as Rune, mode := l[x - 1].mode - {Wide})];
    }
    r := Page(p.line[y := l[x := attr.(u := v)]], p.dirty[y := true], p.sel);
  }

  /** Cells of row l in columns x' < x after the alignment test's writes
      of columns 0..x-1: attr holding v, or a write blanked afterwards by
      tsetchar's care for a wide character's first half. */
  predicate AlignedCell(c: Glyph, attr: Glyph, v: Rune)
  {
    c == attr.(u := v) || c == attr.(u := ' ' as Rune, mode := attr.mode - {Wide})
  }

  /** A row whose columns before x have been written by the alignment
      test. tidy says in addition that every written cell holds v and
      that a cell not yet written carrying a wide character's second half
      without its first has the first half, unwritten, before it. */
  predicate AlignedRow(l: Line, x: int, attr: Glyph, v: Rune, tidy: bool)
  {
    && (forall i :: 0 <= i < x && i < |l| ==> AlignedCell(l[i], attr, v))
    && (tidy ==> forall i :: 0 <= i < x && i < |l| ==> l[i] == attr.(u := v))
    && (tidy ==> forall i :: 0 <= x <= i < |l| && WDummy in l[i].mode && Wide !in l[i].mode ==> x < i && Wide in l[i - 1].mode)
  }

  /** Every row of a screen is consistent about wide characters: a
      second half without a first half follows a first half. */
  predicate WideOk(s: Screen)
  {
    forall y, i :: 0 <= y < |s| && 0 <= i < |s[y]| && WDummy in s[y][i].mode && Wide !in s[y][i].mode ==>
      0 < i && Wide in s[y][i - 1].mode
  }

  /** One write of the alignment test keeps its row aligned up to the
      next column. */
  lemma AlignStep(l: Line, x: int, attr: Glyph, v: Rune, tidy: bool)
    requires 0 <= x < |l| && AlignedRow(l, x, attr, v, tidy)
    requires tidy ==> Wide !in attr.mode && WDummy !in attr.mode
    ensures AlignedRow(ClearPartner(l, x)[x := attr.(u := v)], x + 1, attr, v, tidy)
  {
    var m := ClearPartner(l, x)[x := attr.(u := v)];
    forall i | 0 <= i < x + 1 && i < |l|
      ensures AlignedCell(m[i], attr, v)
    {
      if i < x && i == x - 1 && Wide !in l[x].mode && WDummy in l[x].mode && x > 0 {
        assert m[i] == l[i].(u := ' ' as Rune, mode := l[i].mode - {Wide});
      }
    }
  }

  /** The alignment test on one column: every row gets attr holding v in
      column x. */
  method AlignColumn(p: Page, col: int, attr: Glyph, u: Rune, graphic: bool, x: int, ghost tidy: bool) returns (r: Page)
    requires PageOk(p, col, |p.line|) && 0 <= x < col
    requires tidy ==> Wide !in attr.mode && WDummy !in attr.mode
    requires forall y :: 0 <= y < |p.line| ==> AlignedRow(p.line[y], x, attr, Stored(u, graphic), tidy)
    ensures PageOk(r, col, |p.line|) && r.sel == p.sel
    ensures forall y :: 0 <= y < |p.line| ==> AlignedRow(r.line[y], x + 1, attr, Stored(u, graphic), tidy) && r.dirty[y]
  {
    ghost var v := Stored(u, graphic);
    r := p;
    var y := 0;
    while y < |p.line|
      invariant 0 <= y <= |p.line| && PageOk(r, col, |p.line|) && r.sel == p.sel
      invariant forall j :: 0 <= j < y ==> AlignedRow(r.line[j], x + 1, attr, v, tidy) && r.dirty[j]
      invariant forall j :: y <= j < |p.line| ==> r.line[j] == p.line[j]
    {
      AlignStep(r.line[y], x, attr, v, tidy);
      r := SetChar(r, col, u, attr, x, y, graphic);
      y := y + 1;
    }
  }

  /** tdectest('8'), the DEC screen alignment test: every cell, column by
      column, is written with attr holding u (translated under the DEC
      graphics set) and every row is dirty. A write over the second half
      of a wide character blanks the cell before it, which may already
      have been written; on a screen whose wide characters are whole and
      with attributes that mark no wide character, every cell ends up
      holding the code. */
  method Align(p: Page, col: int, attr: Glyph, u: Rune, graphic: bool) returns (r: Page)
    requires PageOk(p, col, |p.line|)
    ensures PageOk(r, col, |p.line|) && r.sel == p.sel
    ensures forall y :: 0 <= y < |p.line| ==> r.dirty[y]
    ensures forall y, x :: 0 <= y < |p.line| && 0 <= x < col ==> AlignedCell(r.line[y][x], attr, Stored(u, graphic))
    ensures Wide !in attr.mode && WDummy !in attr.mode && WideOk(p.line) ==>
      forall y, x :: 0 <= y < |p.line| && 0 <= x < col ==> r.line[y][x] == attr.(u := Stored(u, graphic))
  {
    ghost var v := Stored(u, graphic);
    ghost var tidy := Wide !in attr.mode && WDummy !in attr.mode && WideOk(p.line);
    r := p;
    var x := 0;
    while x < col
      invariant 0 <= x <= col && PageOk(r, col, |p.line|) && r.sel == p.sel
      invariant x > 0 ==> forall y :: 0 <= y < |p.line| ==> r.dirty[y]
      invariant forall y :: 0 <= y < |p.line| ==> AlignedRow(r.line[y], x, attr, v, tidy)
    {
      r := AlignColumn(r, col, attr, u, graphic, x, tidy);
      x := x + 1;
    }
  }
}
