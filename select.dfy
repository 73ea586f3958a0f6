/** The text selection as it reads the screen (src/xelt.c:259-405, 542-594):
    mapping pixels to cells, which cells are selected, snapping the ends to
    words or wrapped lines, putting the ends in order, and the text the
    selection yields. The screen, its size and the selection record are
    passed in; the functions that change the terminal live with the
    terminal. */
module Select {
  import opened Utf8
  import opened Types
  import opened Macros
  import opened Grid
  import Config

  /** The code points of worddelimiters (the space alone); see
      DelimitersDecoded. */
  const DelimRunes: seq<Rune> := [0x20]

  /** ISDELIM(u): u occurs in worddelimiters. */
  predicate IsDelim(u: Rune)
  {
    u in DelimRunes
  }

  /** ISDELIM searches the UTF-8 bytes of worddelimiters with utf8strchr;
      that search finds exactly the code points listed in DelimRunes. */
  lemma DelimitersDecoded(u: Rune)
    ensures IsDelim(u) <==> StrChrFrom(Config.WordDelimiters, u, 0) != -1
  {
    assert DecodeSpec(Config.WordDelimiters[0..]) == (0x20, 1);
  }

  /** x2col and y2row: the pixel offset from the border divided by the
      cell size with C's truncating division, then clamped to the grid. */
  function PixelToCell(p: int, border: int, size: int, n: int): (r: int)
    requires size > 0 && n >= 1
    ensures 0 <= r < n
    ensures p < border ==> r == 0
    ensures p >= border && (p - border) / size < n ==> r == (p - border) / size
    ensures p >= border && (p - border) / size >= n ==> r == n - 1
  {
    Limit(CDiv(p - border, size), 0, n - 1)
  }

  /** p comes no later than q in reading order. */
  predicate ReadingLe(p: Point, q: Point)
  {
    p.y < q.y || (p.y == q.y && p.x <= q.x)
  }

  predicate InGrid(p: Point, col: int, row: int)
  {
    0 <= p.x < col && 0 <= p.y < row
  }

  /** The selection's four points lie on the screen; ob.x == -1 marks
      no selection. */
  predicate SelInBounds(sel: Selection, col: int, row: int)
  {
    sel.ob.x == -1 ||
    (InGrid(sel.ob, col, row) && InGrid(sel.oe, col, row) &&
     InGrid(sel.nb, col, row) && InGrid(sel.ne, col, row))
  }

  /** selected(x, y): an empty selection selects nothing; a rectangular
      one the box nb..ne; a regular one the text from nb to ne in reading
      order. */
  predicate Selected(sel: Selection, x: int, y: int)
    ensures Selected(sel, x, y) ==> sel.mode != SelEmpty && sel.nb.y <= y <= sel.ne.y
    ensures Selected(sel, x, y) && (sel.kind == Rectangular || sel.nb.y == sel.ne.y) ==> sel.nb.x <= x
  {
    sel.mode != SelEmpty &&
    if sel.kind == Rectangular then Between(y, sel.nb.y, sel.ne.y) && Between(x, sel.nb.x, sel.ne.x)
    else Between(y, sel.nb.y, sel.ne.y) && (y != sel.nb.y || x >= sel.nb.x) && (y != sel.ne.y || x <= sel.ne.x)
  }

  /** A regular selection selects exactly the cells between its ends in
      reading order. */
  lemma SelectedRegular(sel: Selection, x: int, y: int)
    requires sel.mode != SelEmpty && sel.kind == Regular
    ensures Selected(sel, x, y) <==> ReadingLe(sel.nb, Point(x, y)) && ReadingLe(Point(x, y), sel.ne)
  {
  }

  /** The cell a word snap steps to from (x, y) in direction dir, and
      whether the step leaves the screen or crosses a line end that does
      not wrap. The wrap mark that joins two rows sits on the last cell of
      the upper one. */
  function SnapStep(s: Screen, col: int, row: int, x: int, y: int, dir: int): (r: (int, int, bool))
    requires IsScreen(s, col, row) && col >= 1 && 0 <= x < col && 0 <= y < row
    requires dir == 1 || dir == -1
    ensures !r.2 ==> 0 <= r.0 < col && 0 <= r.1 < row
    ensures !r.2 && dir > 0 ==> (r.1 == y && r.0 == x + 1) || (r.1 == y + 1 && r.0 == 0 && x == col - 1)
    ensures !r.2 && dir < 0 ==> (r.1 == y && r.0 == x - 1) || (r.1 == y - 1 && r.0 == col - 1 && x == 0)
  {
    var nx := x + dir;
    if Between(nx, 0, col - 1) then (nx, y, false)
    else
      var ny := y + dir;
      WrapColumn(nx, col);
      var wx := (nx + col) % col;
      if !Between(ny, 0, row - 1) then (wx, ny, true)
      else
        var upper := if dir > 0 then s[y][x] else s[ny][wx];
        (wx, ny, Wrap !in upper.mode)
  }

  /** Stepping off either end of a row wraps to the other end. */
  lemma WrapColumn(nx: int, col: int)
    requires col >= 1 && (nx == -1 || nx == col)
    ensures (nx + col) % col == if nx < 0 then col - 1 else 0
  {
    if nx < 0 {
      assert nx + col == 0 * col + (col - 1);
    } else {
      assert nx + col == 2 * col + 0;
    }
  }

  /** The word snap of selsnap: move from (x, y) in direction dir while the
      next cell lies inside its line's text and continues the current word
      (same delimiter class, and the same delimiter for delimiters); the
      dummy half of a wide character always continues. */
  function WordSnap(s: Screen, col: int, row: int, x: int, y: int, dir: int): (p: Point)
    requires IsScreen(s, col, row) && col >= 1 && 0 <= x < col && 0 <= y < row
    requires dir == 1 || dir == -1
    ensures InGrid(p, col, row)
    ensures dir > 0 ==> ReadingLe(Point(x, y), p)
    ensures dir < 0 ==> ReadingLe(p, Point(x, y))
    decreases if dir > 0 then row - y else y, if dir > 0 then col - x else x
  {
    var (nx, ny, stop) := SnapStep(s, col, row, x, y, dir);
    if stop || nx >= LineLen(s[ny]) then Point(x, y)
    else
      if !Continues(s[y][x], s[ny][nx]) then Point(x, y)
      else WordSnap(s, col, row, nx, ny, dir)
  }

  /** Two cells of one word: both delimiters or both not, and the same
      delimiter when they are delimiters. */
  predicate SameClass(a: Glyph, b: Glyph)
  {
    IsDelim(a.u) == IsDelim(b.u) && (IsDelim(a.u) ==> a.u == b.u)
  }

  /** The word goes on from prev into g: g is the dummy half of a wide
      character, or g is of prev's class. */
  predicate Continues(prev: Glyph, g: Glyph)
  {
    WDummy in g.mode || SameClass(g, prev)
  }

  /** q lies on the way a word snap in direction dir took from start to
      its stop p (both ends included). */
  predicate Passed(start: Point, p: Point, q: Point, dir: int)
  {
    if dir > 0 then ReadingLe(start, q) && ReadingLe(q, p) else ReadingLe(p, q) && ReadingLe(q, start)
  }

  /** Where a word snap stops, it cannot go on: the next step leaves the
      screen or crosses a line end that does not wrap, or the next cell
      lies past its line's text, or it does not continue the word. */
  lemma {:induction false} WordSnapStops(s: Screen, col: int, row: int, x: int, y: int, dir: int)
    requires IsScreen(s, col, row) && col >= 1 && 0 <= x < col && 0 <= y < row
    requires dir == 1 || dir == -1
    ensures var p := WordSnap(s, col, row, x, y, dir);
      var (nx, ny, stop) := SnapStep(s, col, row, p.x, p.y, dir);
      stop || nx >= LineLen(s[ny]) || !Continues(s[p.y][p.x], s[ny][nx])
    decreases if dir > 0 then row - y else y, if dir > 0 then col - x else x
  {
    var (nx, ny, stop) := SnapStep(s, col, row, x, y, dir);
    if !(stop || nx >= LineLen(s[ny]) || !Continues(s[y][x], s[ny][nx])) {
      WordSnapStops(s, col, row, nx, ny, dir);
    }
  }

  /** A cell at or after the start in the snap's direction, other than the
      start, is at or after the cell the first step reaches. */
  lemma PassedAfterStep(s: Screen, col: int, row: int, x: int, y: int, dir: int, p: Point, q: Point)
    requires IsScreen(s, col, row) && col >= 1 && 0 <= x < col && 0 <= y < row
    requires dir == 1 || dir == -1
    requires !SnapStep(s, col, row, x, y, dir).2
    requires InGrid(q, col, row) && Passed(Point(x, y), p, q, dir) && q != Point(x, y)
    ensures var (nx, ny, _) := SnapStep(s, col, row, x, y, dir);
      Passed(Point(nx, ny), p, q, dir)
  {
  }

  /** When no dummy half of a wide character lies on its way, a word snap
      passes only over cells of the start's class: all delimiters (the same
      one) or all not delimiters. */
  lemma {:induction false} WordSnapClass(s: Screen, col: int, row: int, x: int, y: int, dir: int)
    requires IsScreen(s, col, row) && col >= 1 && 0 <= x < col && 0 <= y < row
    requires dir == 1 || dir == -1
    requires forall q :: InGrid(q, col, row) && Passed(Point(x, y), WordSnap(s, col, row, x, y, dir), q, dir) ==> WDummy !in s[q.y][q.x].mode
    ensures forall q :: InGrid(q, col, row) && Passed(Point(x, y), WordSnap(s, col, row, x, y, dir), q, dir) ==> SameClass(s[q.y][q.x], s[y][x])
    decreases if dir > 0 then row - y else y, if dir > 0 then col - x else x
  {
    var p := WordSnap(s, col, row, x, y, dir);
    var (nx, ny, stop) := SnapStep(s, col, row, x, y, dir);
    if stop || nx >= LineLen(s[ny]) || !Continues(s[y][x], s[ny][nx]) {
      forall q | InGrid(q, col, row) && Passed(Point(x, y), p, q, dir)
        ensures SameClass(s[q.y][q.x], s[y][x])
      {
        assert q == Point(x, y);
      }
    } else {
      assert p == WordSnap(s, col, row, nx, ny, dir);
      forall q | InGrid(q, col, row) && Passed(Point(nx, ny), p, q, dir)
        ensures WDummy !in s[q.y][q.x].mode
      {
        assert Passed(Point(x, y), p, q, dir);
      }
      WordSnapClass(s, col, row, nx, ny, dir);
      assert Passed(Point(x, y), p, Point(nx, ny), dir);
      assert SameClass(s[ny][nx], s[y][x]);
      forall q | InGrid(q, col, row) && Passed(Point(x, y), p, q, dir)
        ensures SameClass(s[q.y][q.x], s[y][x])
      {
        if q != Point(x, y) {
          PassedAfterStep(s, col, row, x, y, dir, p, q);
        }
      }
    }
  }

  /** The line snap upward: the first row of the run of wrapped rows
      holding y. */
  function LineStart(s: Screen, col: int, y: int): (r: int)
    requires col >= 1 && 0 <= y < |s| && forall j :: 0 <= j < |s| ==> |s[j]| == col
    ensures 0 <= r <= y
    ensures r > 0 ==> Wrap !in s[r - 1][col - 1].mode
  {
    if y > 0 && Wrap in s[y - 1][col - 1].mode then LineStart(s, col, y - 1) else y
  }

  /** The rows LineStart steps over all carry the wrap mark. */
  lemma {:induction false} LineStartWraps(s: Screen, col: int, y: int)
    requires col >= 1 && 0 <= y < |s| && forall j :: 0 <= j < |s| ==> |s[j]| == col
    ensures forall j :: LineStart(s, col, y) <= j < y ==> Wrap in s[j][col - 1].mode
  {
    if y > 0 && Wrap in s[y - 1][col - 1].mode {
      LineStartWraps(s, col, y - 1);
    }
  }

  /** The line snap downward: the last row of the run of wrapped rows
      holding y. */
  function LineEnd(s: Screen, col: int, y: int): (r: int)
    requires col >= 1 && 0 <= y < |s| && forall j :: 0 <= j < |s| ==> |s[j]| == col
    ensures y <= r < |s|
    ensures r < |s| - 1 ==> Wrap !in s[r][col - 1].mode
    decreases |s| - y
  {
    if y < |s| - 1 && Wrap in s[y][col - 1].mode then LineEnd(s, col, y + 1) else y
  }

  /** The rows LineEnd steps over all carry the wrap mark. */
  lemma {:induction false} LineEndWraps(s: Screen, col: int, y: int)
    requires col >= 1 && 0 <= y < |s| && forall j :: 0 <= j < |s| ==> |s[j]| == col
    ensures forall j :: y <= j < LineEnd(s, col, y) ==> Wrap in s[j][col - 1].mode
    decreases |s| - y
  {
    if y < |s| - 1 && Wrap in s[y][col - 1].mode {
      LineEndWraps(s, col, y + 1);
    }
  }

  /** selsnap(&p.x, &p.y, dir) for the snap kind of the selection. */
  function SnapEnd(s: Screen, col: int, row: int, snap: Snap, p: Point, dir: int): (q: Point)
    requires IsScreen(s, col, row) && col >= 1 && InGrid(p, col, row)
    requires dir == 1 || dir == -1
    ensures InGrid(q, col, row)
    ensures dir > 0 ==> ReadingLe(p, q)
    ensures dir < 0 ==> ReadingLe(q, p)
    ensures snap == NoSnap ==> q == p
  {
    match snap
    case NoSnap => p
    case SnapWord => WordSnap(s, col, row, p.x, p.y, dir)
    case SnapLine =>
      if dir < 0 then Point(0, LineStart(s, col, p.y)) else Point(col - 1, LineEnd(s, col, p.y))
  }

  /** The first half of selnormalize: nb and ne from ob and oe before any
      snapping. A regular selection over several rows keeps the column of
      whichever end is on the upper row. */
  function Ends(sel: Selection): (r: (Point, Point))
    ensures r.0.y == Min(sel.ob.y, sel.oe.y) && r.1.y == Max(sel.ob.y, sel.oe.y)
    ensures (sel.kind == Rectangular || sel.ob.y == sel.oe.y) ==>
      r.0.x == Min(sel.ob.x, sel.oe.x) && r.1.x == Max(sel.ob.x, sel.oe.x)
    ensures sel.kind == Regular ==> ReadingLe(r.0, r.1)
  {
    var (bx, ex) :=
      if sel.kind == Regular && sel.ob.y != sel.oe.y then
        (if sel.ob.y < sel.oe.y then (sel.ob.x, sel.oe.x) else (sel.oe.x, sel.ob.x))
      else (Min(sel.ob.x, sel.oe.x), Max(sel.ob.x, sel.oe.x));
    (Point(bx, Min(sel.ob.y, sel.oe.y)), Point(ex, Max(sel.ob.y, sel.oe.y)))
  }

  /** selnormalize: order the ends, snap nb backward and ne forward, and
      for a regular selection stretch nb back to its line's text and ne to
      the end of the row when it lies beyond its line's text. */
  function Normalize(s: Screen, col: int, row: int, sel: Selection): (r: Selection)
    requires IsScreen(s, col, row) && col >= 1
    requires InGrid(sel.ob, col, row) && InGrid(sel.oe, col, row)
    ensures r == sel.(nb := r.nb, ne := r.ne)
    ensures InGrid(r.nb, col, row) && InGrid(r.ne, col, row)
    ensures r.nb.y <= r.ne.y
    ensures sel.kind == Regular ==> ReadingLe(r.nb, r.ne)
    ensures sel.snap == NoSnap && sel.kind == Rectangular ==> (r.nb, r.ne) == Ends(sel)
  {
    var (b0, e0) := Ends(sel);
    var b := SnapEnd(s, col, row, sel.snap, b0, -1);
    var e := SnapEnd(s, col, row, sel.snap, e0, 1);
    if sel.kind == Rectangular then sel.(nb := b, ne := e)
    else
      var i := LineLen(s[b.y]);
      var bx := if i < b.x then i else b.x;
      var ex := if LineLen(s[e.y]) <= e.x then col - 1 else e.x;
      assert ReadingLe(b, e) by {
        assert ReadingLe(b, b0) && ReadingLe(b0, e0) && ReadingLe(e0, e);
      }
      sel.(nb := Point(bx, b.y), ne := Point(ex, e.y))
  }

  /** The text of the cells i..last of a row, dummy halves of wide
      characters skipped, each code UTF-8 encoded. */
  function CellText(r: Line, i: int, last: int): (t: seq<Byte>)
    requires 0 <= i && last < |r|
    ensures i > last ==> t == []
    decreases last - i + 1
  {
    if i > last then []
    else (if WDummy in r[i].mode then [] else Encoded(r[i].u)) + CellText(r, i + 1, last)
  }

  /** The code points of the cells i..last of a row, dummy halves of
      wide characters skipped, left to right. */
  function Visible(r: Line, i: int, last: int): seq<Rune>
    requires 0 <= i && last < |r|
    decreases last - i + 1
  {
    if i > last then [] else (if WDummy in r[i].mode then [] else [r[i].u]) + Visible(r, i + 1, last)
  }

  /** The text of cells i..last is the UTF-8 encoding of their code
      points in order, dummy halves skipped. */
  lemma {:induction false} CellTextEncodes(r: Line, i: int, last: int)
    requires 0 <= i && last < |r|
    ensures CellText(r, i, last) == EncodedAll(Visible(r, i, last))
    decreases last - i + 1
  {
    if i <= last {
      CellTextEncodes(r, i + 1, last);
      var v := Visible(r, i + 1, last);
      if WDummy in r[i].mode {
        assert Visible(r, i, last) == v;
      } else {
        assert Visible(r, i, last) == [r[i].u] + v;
        assert ([r[i].u] + v)[1..] == v;
      }
    }
  }

  /** The last cell at or after start..last that is not a space, walking
      back from last; start - 1 when they are all spaces. */
  function TrimBack(r: Line, start: int, last: int): (l: int)
    requires -1 <= last < |r| && 0 <= start
    ensures Min(last, start - 1) <= l <= last
    ensures l >= start ==> r[l].u != ' ' as Rune
    ensures forall x :: l < x <= last && x >= start ==> r[x].u == ' ' as Rune
    decreases last + 1
  {
    if last >= start && r[last].u == ' ' as Rune then TrimBack(r, start, last - 1) else last
  }

  /** The first and last column getsel reads on row y, the last before
      trailing spaces are dropped. */
  function RowSpan(sel: Selection, col: int, y: int): (r: (int, int))
  {
    if sel.kind == Rectangular then (sel.nb.x, sel.ne.x)
    else (if sel.nb.y == y then sel.nb.x else 0, if sel.ne.y == y then sel.ne.x else col - 1)
  }

  /** The column whose wrap mark getsel tests on a row whose line is not
      empty: the last non-space cell of the span, or the cell before the
      span when the span is all spaces. */
  function WrapProbe(s: Screen, col: int, sel: Selection, y: int): (l: int)
    requires col >= 1 && 0 <= y < |s| && |s[y]| == col
    requires 0 <= RowSpan(sel, col, y).0 < col && 0 <= RowSpan(sel, col, y).1
    requires LineLen(s[y]) != 0
  {
    var (start, lastx) := RowSpan(sel, col, y);
    TrimBack(s[y], start, Min(lastx, LineLen(s[y]) - 1))
  }

  /** The text getsel produces for row y, with the wrap test as corrected
      (see GetSelReadsBeforeRow): a span that is all spaces from column 0
      counts as not wrapped. */
  function RowText(s: Screen, col: int, sel: Selection, y: int): (t: seq<Byte>)
    requires col >= 1 && 0 <= y < |s| && |s[y]| == col
    requires 0 <= RowSpan(sel, col, y).0 < col && 0 <= RowSpan(sel, col, y).1
    ensures LineLen(s[y]) == 0 ==> t == ['\n' as Byte]
  {
    var n := LineLen(s[y]);
    if n == 0 then ['\n' as Byte]
    else
      var (start, lastx) := RowSpan(sel, col, y);
      var last := WrapProbe(s, col, sel, y);
      var wrapped := last >= 0 && Wrap in s[y][last].mode;
      CellText(s[y], start, last) +
      (if (y < sel.ne.y || lastx >= n) && !wrapped then ['\n' as Byte] else [])
  }

  /** On a row of the selection, getsel reads from the span's first
      column to its last exactly the cells selected() selects. */
  lemma RowSpanSelected(sel: Selection, col: int, x: int, y: int)
    requires sel.mode != SelEmpty && sel.nb.y <= y <= sel.ne.y && 0 <= x < col
    ensures RowSpan(sel, col, y).0 <= x <= RowSpan(sel, col, y).1 <==> Selected(sel, x, y)
  {
  }

  /** When the non-dummy cells among i..last hold Unicode scalar values,
      reading the text of those cells back gives their code points in
      order. */
  lemma {:induction false} CellTextReadsBack(r: Line, i: int, last: int)
    requires 0 <= i && last < |r|
    requires forall x :: i <= x <= last && WDummy !in r[x].mode ==> IsScalar(r[x].u)
    ensures DecodeText(CellText(r, i, last)) == Visible(r, i, last)
  {
    CellTextEncodes(r, i, last);
    VisibleScalar(r, i, last);
    DecodeEncodedAll(Visible(r, i, last));
  }

  /** The code points Visible collects are those of non-dummy cells. */
  lemma {:induction false} VisibleScalar(r: Line, i: int, last: int)
    requires 0 <= i && last < |r|
    requires forall x :: i <= x <= last && WDummy !in r[x].mode ==> IsScalar(r[x].u)
    ensures forall k :: 0 <= k < |Visible(r, i, last)| ==> IsScalar(Visible(r, i, last)[k])
    decreases last - i + 1
  {
    if i <= last {
      VisibleScalar(r, i + 1, last);
    }
  }

  /** getsel's text for row y is the UTF-8 encoding of: a newline for
      an empty line; otherwise the code points of the non-dummy cells from
      the span's start up to its last non-space cell within the line's
      text, then a newline when the selection goes on below this row or
      the span reaches past the text, unless that last cell carries the
      wrap mark. Read back, the text gives these code points in order
      (Utf8.DecodeEncodedAll). */
  lemma RowTextEncodes(s: Screen, col: int, sel: Selection, y: int)
    requires col >= 1 && 0 <= y < |s| && |s[y]| == col
    requires 0 <= RowSpan(sel, col, y).0 < col && 0 <= RowSpan(sel, col, y).1
    ensures LineLen(s[y]) == 0 ==> RowText(s, col, sel, y) == EncodedAll(['\n' as Rune])
    ensures LineLen(s[y]) != 0 ==>
      var (start, lastx) := RowSpan(sel, col, y);
      var m := Min(lastx, LineLen(s[y]) - 1);
      var last := WrapProbe(s, col, sel, y);
      var nl := (y < sel.ne.y || lastx >= LineLen(s[y])) && !(last >= 0 && Wrap in s[y][last].mode);
      && Min(m, start - 1) <= last <= m
      && (last >= start ==> s[y][last].u != ' ' as Rune)
      && (forall x :: start <= x <= m && last < x ==> s[y][x].u == ' ' as Rune)
      && RowText(s, col, sel, y) == EncodedAll(Visible(s[y], start, last) + (if nl then ['\n' as Rune] else []))
  {
    assert Encoded('\n' as Rune) == ['\n' as Byte];
    assert EncodedAll(['\n' as Rune]) == ['\n' as Byte];
    if LineLen(s[y]) != 0 {
      var (start, lastx) := RowSpan(sel, col, y);
      var last := WrapProbe(s, col, sel, y);
      var nl := (y < sel.ne.y || lastx >= LineLen(s[y])) && !(last >= 0 && Wrap in s[y][last].mode);
      var tail: seq<Rune> := if nl then ['\n' as Rune] else [];
      CellTextEncodes(s[y], start, last);
      EncodedAllJoin(Visible(s[y], start, last), tail);
      assert EncodedAll([]) == [];
    }
  }

  /** The rows y..ne.y of the selection text. */
  function RowsText(s: Screen, col: int, sel: Selection, y: int): (t: seq<Byte>)
    requires col >= 1 && 0 <= y && sel.ne.y < |s| && forall j :: 0 <= j < |s| ==> |s[j]| == col
    requires 0 <= sel.nb.x < col && 0 <= sel.ne.x
    decreases sel.ne.y - y + 1
  {
    if y > sel.ne.y then [] else RowText(s, col, sel, y) + RowsText(s, col, sel, y + 1)
  }

  /** getsel: no text without a selection; otherwise the selected text of
      rows nb.y..ne.y. */
  function GetSel(s: Screen, col: int, row: int, sel: Selection): (r: Option<seq<Byte>>)
    requires IsScreen(s, col, row) && col >= 1 && SelInBounds(sel, col, row)
    ensures r.None? <==> sel.ob.x == -1
  {
    if sel.ob.x == -1 then None else Some(RowsText(s, col, sel, sel.nb.y))
  }

  /** The selection record selclear leaves: no selection (ob.x == -1),
      idle; nb and ne stay, which is what selclear's tsetdirt reads. */
  function Cleared(s: Selection): (c: Selection)
    ensures c.ob.x == -1 && c.mode == SelIdle
    ensures c.nb == s.nb && c.ne == s.ne && c.kind == s.kind
    ensures s.mode != SelEmpty ==> forall x, y :: Selected(c, x, y) == Selected(s, x, y)
  {
    s.(mode := SelIdle, ob := s.ob.(x := -1))
  }

  /** Some cell xa..xb of row y is selected. */
  predicate RowHit(s: Selection, xa: int, xb: int, y: int)
  {
    exists x :: xa <= x <= xb && Selected(s, x, y)
  }

  /** Extending the cells tested by one more column. */
  lemma RowHitStep(s: Selection, xa: int, x: int, y: int)
    requires xa <= x
    ensures RowHit(s, xa, x, y) <==> RowHit(s, xa, x - 1, y) || Selected(s, x, y)
  {
    if Selected(s, x, y) {
      assert xa <= x <= x && Selected(s, x, y);
    }
  }

  /** Extending the rows tested by one more row. */
  lemma SelHitStep(s: Selection, xa: int, ya: int, xb: int, y: int)
    requires ya <= y
    ensures SelHit(s, xa, ya, xb, y) <==> SelHit(s, xa, ya, xb, y - 1) || RowHit(s, xa, xb, y)
  {
    if RowHit(s, xa, xb, y) {
      assert ya <= y <= y && RowHit(s, xa, xb, y);
    }
  }

  /** Some cell of the rectangle xa..xb by ya..yb is selected. */
  predicate SelHit(s: Selection, xa: int, ya: int, xb: int, yb: int)
  {
    exists y :: ya <= y <= yb && RowHit(s, xa, xb, y)
  }

  /** Clearing a selection does not change which cells it selects, so a
      second test of the same cells finds the same hit. */
  lemma ClearedHits(s: Selection, xa: int, xb: int, y: int)
    ensures s.mode != SelEmpty ==> (RowHit(Cleared(s), xa, xb, y) <==> RowHit(s, xa, xb, y))
    ensures s.mode == SelEmpty ==> !RowHit(s, xa, xb, y)
  {
  }

  /** The selection after tclearregion of a rectangle: cleared when one of
      the rectangle's cells is selected and there is a selection to
      clear. */
  function ClearedIf(s: Selection, hit: bool): (c: Selection)
    ensures !hit || s.ob.x == -1 ==> c == s
    ensures hit && s.ob.x != -1 ==> c.ob.x == -1
  {
    if hit && s.ob.x != -1 then Cleared(s) else s
  }

  /** The rows selclear marks dirty: nb.y..ne.y clamped to the screen. */
  function SelRows(s: Selection, row: int): (r: (int, int))
    ensures row >= 1 ==> 0 <= r.0 < row && 0 <= r.1 < row
  {
    (Limit(s.nb.y, 0, row - 1), Limit(s.ne.y, 0, row - 1))
  }

  /** The clamping step of selscroll: an end pushed above top moves to
      top (to column 0 for a regular selection), an end pushed below bot
      moves to bot (to column edge for a regular selection). */
  function SelClamp(s: Selection, top: int, bot: int, edge: int): (c: Selection)
    ensures c == s.(ob := c.ob, oe := c.oe)
    ensures c.ob.y == Max(s.ob.y, top) && c.oe.y == Min(s.oe.y, bot)
    ensures top <= s.ob.y ==> c.ob == s.ob
    ensures s.oe.y <= bot ==> c.oe == s.oe
    ensures s.kind == Rectangular ==> c.ob.x == s.ob.x && c.oe.x == s.oe.x
    ensures s.kind == Regular && s.ob.y < top ==> c.ob.x == 0
    ensures s.kind == Regular && s.oe.y > bot ==> c.oe.x == edge
  {
    if s.kind == Rectangular then
      s.(ob := if s.ob.y < top then s.ob.(y := top) else s.ob,
         oe := if s.oe.y > bot then s.oe.(y := bot) else s.oe)
    else
      s.(ob := if s.ob.y < top then Point(0, top) else s.ob,
         oe := if s.oe.y > bot then Point(edge, bot) else s.oe)
  }

  /** selscroll as corrected (see SelScrollPastLastColumn): a selection
      with an end in orig..bot moves n rows with them. Pushed below the
      region or above it, it is cleared; otherwise its ends are clamped to
      the region, the end of a regular selection to the last column, and
      it is normalized again on the scrolled screen s. Any other selection
      is kept. */
  function SelScrolled(sel: Selection, s: Screen, col: int, row: int, top: int, bot: int, orig: int, n: int): (r: Selection)
    requires IsScreen(s, col, row) && col >= 1 && 0 <= top <= bot < row
    requires SelInBounds(sel, col, row)
    ensures SelInBounds(r, col, row)
  {
    if sel.ob.x == -1 || !(Between(sel.ob.y, orig, bot) || Between(sel.oe.y, orig, bot)) then sel
    else
      var ob := sel.ob.(y := sel.ob.y + n);
      if ob.y > bot then Cleared(sel.(ob := ob))
      else
        var oe := sel.oe.(y := sel.oe.y + n);
        if oe.y < top then Cleared(sel.(ob := ob, oe := oe))
        else Normalize(s, col, row, SelClamp(sel.(ob := ob, oe := oe), top, bot, col - 1))
  }

  /** selscroll keeps a selection that is dropped or has no end in rows
      orig..bot; otherwise it drops it exactly when the shift moves its
      start below the region or its end above it, and a kept selection
      has its rows moved by n and clamped to the region. */
  lemma SelScrolledCases(sel: Selection, s: Screen, col: int, row: int, top: int, bot: int, orig: int, n: int)
    requires IsScreen(s, col, row) && col >= 1 && 0 <= top <= bot < row
    requires SelInBounds(sel, col, row)
    ensures var r := SelScrolled(sel, s, col, row, top, bot, orig, n);
      && (sel.ob.x == -1 || !(Between(sel.ob.y, orig, bot) || Between(sel.oe.y, orig, bot)) ==> r == sel)
      && (sel.ob.x != -1 && (Between(sel.ob.y, orig, bot) || Between(sel.oe.y, orig, bot)) ==>
            (r.ob.x == -1 <==> sel.ob.y + n > bot || sel.oe.y + n < top))
      && (r.ob.x == -1 && sel.ob.x != -1 ==> r.mode == SelIdle && r.nb == sel.nb && r.ne == sel.ne)
      && (r.ob.x != -1 && r != sel ==>
            r.ob.y == Max(sel.ob.y + n, top) && r.oe.y == Min(sel.oe.y + n, bot)
            && r.mode == sel.mode && r.kind == sel.kind && r.snap == sel.snap)
  {
  }

  /** The ends selscroll moves and clamps lie on the screen when it keeps
      the selection. */
  lemma MovedInGrid(sel: Selection, col: int, row: int, top: int, bot: int, n: int)
    requires col >= 1 && 0 <= top <= bot < row
    requires SelInBounds(sel, col, row) && sel.ob.x != -1
    requires sel.ob.y + n <= bot && sel.oe.y + n >= top
    ensures var c := SelClamp(sel.(ob := sel.ob.(y := sel.ob.y + n), oe := sel.oe.(y := sel.oe.y + n)), top, bot, col - 1);
      InGrid(c.ob, col, row) && InGrid(c.oe, col, row)
  {
  }

  /** When selscroll keeps the selection, the result is the moved ends,
      clamped to the region, normalized. */
  lemma SelScrolledKept(sel: Selection, s: Screen, col: int, row: int, top: int, bot: int, orig: int, n: int)
    requires IsScreen(s, col, row) && col >= 1 && 0 <= top <= bot < row
    requires SelInBounds(sel, col, row) && sel.ob.x != -1
    requires Between(sel.ob.y, orig, bot) || Between(sel.oe.y, orig, bot)
    requires sel.ob.y + n <= bot && sel.oe.y + n >= top
    ensures var c := SelClamp(sel.(ob := sel.ob.(y := sel.ob.y + n), oe := sel.oe.(y := sel.oe.y + n)), top, bot, col - 1);
      InGrid(c.ob, col, row) && InGrid(c.oe, col, row)
      && SelScrolled(sel, s, col, row, top, bot, orig, n) == Normalize(s, col, row, c)
  {
    MovedInGrid(sel, col, row, top, bot, n);
  }

  /** The selection selscroll as written hands to selnormalize when the
      shift keeps it: the end of a regular selection pushed below the
      region gets column col, one past the last. */
  function SelClampAsWritten(sel: Selection, col: int, top: int, bot: int, n: int): (c: Selection)
    ensures c.oe.y == Min(sel.oe.y + n, bot)
  {
    SelClamp(sel.(ob := sel.ob.(y := sel.ob.y + n), oe := sel.oe.(y := sel.oe.y + n)), top, bot, col)
  }

  /** As written, a kept regular selection whose end the shift pushes
      below the region (its start staying at or above bot) has its end
      clamped to column col, outside the screen; selnormalize's word snap
      then reads line[bot][col]. The corrected selection stays on the
      screen. */
  lemma SelScrollPastLastColumn(sel: Selection, s: Screen, col: int, row: int, top: int, bot: int, orig: int, n: int)
    requires IsScreen(s, col, row) && col >= 1 && 0 <= top <= bot < row
    requires SelInBounds(sel, col, row) && sel.ob.x != -1 && sel.kind == Regular
    requires Between(sel.ob.y, orig, bot) || Between(sel.oe.y, orig, bot)
    requires sel.ob.y + n <= bot < sel.oe.y + n
    ensures SelClampAsWritten(sel, col, top, bot, n).oe == Point(col, bot)
    ensures !InGrid(SelClampAsWritten(sel, col, top, bot, n).oe, col, row)
    ensures var r := SelScrolled(sel, s, col, row, top, bot, orig, n);
      r.ob.x != -1 && SelInBounds(r, col, row)
  {
  }

  /** As written, getsel tests the wrap mark of the cell at WrapProbe: on
      a row whose selected part is all spaces from column 0 that is
      index -1, the cell before the row. The corrected RowText then ends
      the row with a newline exactly as an unwrapped row ends. */
  lemma GetSelReadsBeforeRow(s: Screen, col: int, sel: Selection, y: int)
    requires col >= 1 && 0 <= y < |s| && |s[y]| == col
    requires RowSpan(sel, col, y).0 == 0 && 0 <= RowSpan(sel, col, y).1
    requires LineLen(s[y]) != 0
    requires forall x :: 0 <= x <= Min(RowSpan(sel, col, y).1, LineLen(s[y]) - 1) ==> s[y][x].u == ' ' as Rune
    ensures WrapProbe(s, col, sel, y) == -1
    ensures RowText(s, col, sel, y)
      == (if y < sel.ne.y || RowSpan(sel, col, y).1 >= LineLen(s[y]) then ['\n' as Byte] else [])
  {
    var last := Min(RowSpan(sel, col, y).1, LineLen(s[y]) - 1);
    SpacesTrimmed(s[y], 0, last);
  }

  /** TrimBack over cells that are all spaces walks back past start. */
  lemma {:induction false} SpacesTrimmed(r: Line, start: int, last: int)
    requires 0 <= start && start - 1 <= last < |r|
    requires forall x :: start <= x <= last ==> r[x].u == ' ' as Rune
    ensures TrimBack(r, start, last) == start - 1
    decreases last - start + 1
  {
    if last >= start {
      SpacesTrimmed(r, start, last - 1);
    }
  }
}
