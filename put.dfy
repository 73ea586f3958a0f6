/** The cell updates of the printable path of tputc in src/xelt.c, on
    values: the wrap mark left on the last cell of a row, the insert-mode
    shift, and the marks of a character two columns wide. */
module Put {
  import opened Types
  import opened Grid
  import opened Edit

  /** A row replaced by one of the same length keeps the page well
      formed. */
  function WithLine(p: Page, y: int, l: Line): (r: Page)
    requires 0 <= y < |p.line| && |l| == |p.line[y]|
    ensures forall col, row :: PageOk(p, col, row) ==> PageOk(r, col, row)
    ensures |r.line| == |p.line| && forall j :: 0 <= j < |p.line| && j != y ==> r.line[j] == p.line[j]
    ensures r.line[y] == l && r.dirty == p.dirty && r.sel == p.sel
  {
    p.(line := p.line[y := l])
  }

  /** gp->mode |= XELT_ATTR_WRAP: the cell at (x, y) is marked as
      continued on the next row; its row is not marked dirty. */
  function WrapMarked(p: Page, x: int, y: int): (r: Page)
    requires 0 <= y < |p.line| && 0 <= x < |p.line[y]|
    ensures forall col, row :: PageOk(p, col, row) ==> PageOk(r, col, row)
    ensures |r.line| == |p.line| && forall j :: 0 <= j < |p.line| && j != y ==> r.line[j] == p.line[j]
    ensures |r.line[y]| == |p.line[y]| && forall i :: 0 <= i < |p.line[y]| && i != x ==> r.line[y][i] == p.line[y][i]
    ensures r.line[y][x] == p.line[y][x].(mode := p.line[y][x].mode + {Wrap})
    ensures r.dirty == p.dirty && r.sel == p.sel
  {
    var l := p.line[y];
    WithLine(p, y, l[x := l[x].(mode := l[x].mode + {Wrap})])
  }

  /** memmove(gp + w, gp, ...) in insert mode: the cells from x on move w
      columns right and the last w fall off the row; the cells x..x+w-1
      keep their old contents until they are written. */
  function ShiftedRight(l: Line, x: int, w: nat): (r: Line)
    requires 0 <= x && x + w < |l|
    ensures |r| == |l|
    ensures forall i :: 0 <= i < x + w ==> r[i] == l[i]
    ensures forall i :: x + w <= i < |l| ==> r[i] == l[i - w]
  {
    l[..x + w] + l[x..|l| - w]
  }

  /** The marks of a character two columns wide written at x:
      XELT_ATTR_WIDE on it and, when the row has room, a second half with
      no code, marked XELT_ATTR_WDUMMY alone and keeping its colours. */
  function WideMarked(l: Line, x: int): (r: Line)
    requires 0 <= x < |l|
    ensures |r| == |l|
    ensures r[x] == l[x].(mode := l[x].mode + {Wide})
    ensures x + 1 < |l| ==> r[x + 1] == l[x + 1].(u := 0, mode := {WDummy})
    ensures forall i :: 0 <= i < |l| && i != x && i != x + 1 ==> r[i] == l[i]
  {
    var m := l[x := l[x].(mode := l[x].mode + {Wide})];
    if x + 1 < |l| then m[x + 1 := m[x + 1].(u := 0, mode := {WDummy})] else m
  }

  /** The row after a character of width w, stored as glyph g, is put at
      x: tsetchar's write (which blanks the other half of a wide
      character it overwrites), then the wide marks. */
  function Placed(l: Line, x: int, g: Glyph, w: int): Line
    requires 0 <= x < |l|
  {
    var m := ClearPartner(l, x)[x := g];
    if w == 2 then WideMarked(m, x) else m
  }

  /** The page after Placed on row y; the row becomes dirty. */
  function PlacedPage(p: Page, x: int, y: int, g: Glyph, w: int): (r: Page)
    requires 0 <= y < |p.line| && 0 <= x < |p.line[y]| && |p.dirty| == |p.line|
    ensures forall col, row :: PageOk(p, col, row) ==> PageOk(r, col, row)
  {
    var l := Placed(p.line[y], x, g, w);
    PlacedLength(p.line[y], x, g, w);
    Page(p.line[y := l], p.dirty[y := true], p.sel)
  }

  lemma PlacedLength(l: Line, x: int, g: Glyph, w: int)
    requires 0 <= x < |l|
    ensures |Placed(l, x, g, w)| == |l|
  {
  }

  /** What a write leaves in its row: the glyph, marked wide when w is 2,
      and then a bare second half when the row has room; the cells before
      x - 1 and after x + 1 are kept. Only the neighbours of x can change
      besides: tsetchar blanks the other half of a wide character it
      overwrites. */
  lemma PlacedCells(l: Line, x: int, g: Glyph, w: int)
    requires 0 <= x < |l|
    ensures var r := Placed(l, x, g, w);
      && |r| == |l|
      && r[x] == (if w == 2 then g.(mode := g.mode + {Wide}) else g)
      && (w == 2 && x + 1 < |l| ==> r[x + 1].u == 0 && r[x + 1].mode == {WDummy})
      && (forall i :: 0 <= i < |l| && i != x - 1 && i != x && i != x + 1 ==> r[i] == l[i])
  {
  }

  /** With insert mode on and room to its right, the row with the cells
      from x shifted right by w and then the write: the glyph at x and
      every cell after x + 1 the one w columns to its left before. */
  lemma InsertedCells(l: Line, x: int, g: Glyph, w: int)
    requires 0 <= x && 0 <= w <= 2 && x + w < |l|
    ensures var r := Placed(ShiftedRight(l, x, w), x, g, w);
      && |r| == |l|
      && r[x] == (if w == 2 then g.(mode := g.mode + {Wide}) else g)
      && (forall i :: x + 1 < i < |l| ==> r[i] == l[i - w])
      && (forall i :: 0 <= i < x - 1 ==> r[i] == l[i])
  {
    PlacedCells(ShiftedRight(l, x, w), x, g, w);
  }
}
