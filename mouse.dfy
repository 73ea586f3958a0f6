/** mousereport in src/xelt.c: the xterm mouse reports of a button press,
    a button release or a pointer motion, in the X10 encoding or, in
    mode 1006, the SGR one. The three statics of the C function (the last
    reported cell and the button held) are the fields of a
    MouseReporter. */
module Mouse {
  import opened Utf8
  import opened Types
  import opened Macros
  import opened CLib
  import Select
  import Config

  datatype EventKind = Press | Release | Motion

  /** The fields of the XButtonEvent or XMotionEvent that mousereport
      reads: the button (Button1 is 1), the
      Shift, Mod4 and Control modifiers of the state mask, and the
      pointer position in pixels. */
  datatype MouseEvent = MouseEvent(kind: EventKind, button: int, shift: bool, mod4: bool, control: bool, px: int, py: int)

  /** The statics: ox and oy, the cell of the last press or reported
      motion, and oldbutton, the button held (3 for none). */
  datatype Statics = Statics(ox: int, oy: int, oldbutton: int)

  /** The statics at startup. */
  const Startup: Statics := Statics(0, 0, 3)

  /** The button code of a press or release: 3 for a release unless SGR
      reporting is on; buttons 1-3 are 0-2 and buttons from 4 on (the
      wheel first) are 64 on. */
  function ButtonCode(kind: EventKind, button: int, mode: set<TermFlag>): (b: int)
    ensures kind == Release && MouseSgr !in mode ==> b == 3
    ensures !(kind == Release && MouseSgr !in mode) && 1 <= button <= 3 ==> b == button - 1
    ensures !(kind == Release && MouseSgr !in mode) && button >= 4 ==> b == button + 60
  {
    if MouseSgr !in mode && kind == Release then 3
    else
      var b := button - 1;
      if b >= 3 then b + 64 - 3 else b
  }

  /** The modifier bits added outside X10 mode: 4 for Shift, 8 for Mod4
      and 16 for Control. */
  function ModifierBits(e: MouseEvent, mode: set<TermFlag>): (m: int)
    ensures 0 <= m <= 28 && (MouseX10 in mode ==> m == 0)
  {
    if MouseX10 in mode then 0
    else (if e.shift then 4 else 0) + (if e.mod4 then 8 else 0) + (if e.control then 16 else 0)
  }

  /** snprintf's "%d" of a C int. */
  function IntDecimal(n: int): (s: seq<Byte>)
    ensures n >= 0 ==> s == Decimal(n)
  {
    if n < 0 then ['-' as Byte] + Decimal(-n) else Decimal(n)
  }

  /** "\033[<%d;%d;%d%c": the SGR report of button code b at cell (x, y),
      ending in 'm' for a release and 'M' otherwise. */
  function SgrReport(b: int, x: nat, y: nat, release: bool): seq<Byte>
  {
    [0x1b, '[' as Byte, '<' as Byte] + IntDecimal(b) + [';' as Byte] + Decimal(x + 1) + [';' as Byte]
      + Decimal(y + 1) + [if release then 'm' as Byte else 'M' as Byte]
  }

  /** "\033[M%c%c%c": the X10 report of button code b at cell (x, y);
      "%c" keeps the low byte of 32 + b. */
  function X10Report(b: int, x: nat, y: nat): seq<Byte>
    requires x < 223 && y < 223
  {
    [0x1b, '[' as Byte, 'M' as Byte, ToByte(32 + b), (32 + x + 1) as Byte, (32 + y + 1) as Byte]
  }

  /** The report of button code b at cell (x, y): SGR when mode 1006 is
      on, X10 while both coordinates are below 223, and none beyond. */
  function Reported(b: int, x: nat, y: nat, release: bool, mode: set<TermFlag>): (r: seq<Effect>)
    ensures |r| <= 1
  {
    if MouseSgr in mode then [TtyWrite(SgrReport(b, x, y, release))]
    else if x < 223 && y < 223 then [TtyWrite(X10Report(b, x, y))]
    else []
  }

  /** mousereport on event e at cell (x, y) with statics s: the new
      statics and the writes to the tty. A motion is reported only when
      it changes the cell, the motion or any-motion mode is on, and in
      the motion mode only with a button held; it reports that button
      plus 32. A press records its button and cell; a release forgets
      the button and is not reported in X10 mode nor for the wheel. */
  function Step(s: Statics, e: MouseEvent, x: nat, y: nat, mode: set<TermFlag>): (r: (Statics, seq<Effect>))
    ensures |r.1| <= 1
    ensures e.kind == Press ==> r.0 == Statics(x, y, ButtonCode(e.kind, e.button, mode))
    ensures e.kind == Release ==> r.0 == s.(oldbutton := 3)
    ensures e.kind == Motion ==> r.0 == s || (r.0 == Statics(x, y, s.oldbutton) && (x, y) != (s.ox, s.oy))
    ensures e.kind == Motion && r.1 != [] ==> r.0 == Statics(x, y, s.oldbutton)
  {
    var bits := ModifierBits(e, mode);
    var release := e.kind == Release;
    if e.kind == Motion then
      if x == s.ox && y == s.oy then (s, [])
      else if MouseMotion !in mode && MouseMany !in mode then (s, [])
      else if MouseMotion in mode && s.oldbutton == 3 then (s, [])
      else (Statics(x, y, s.oldbutton), Reported(s.oldbutton + 32 + bits, x, y, release, mode))
    else
      var b := ButtonCode(e.kind, e.button, mode);
      if e.kind == Press then (Statics(x, y, b), Reported(b + bits, x, y, release, mode))
      else if MouseX10 in mode || b == 64 || b == 65 then (s.(oldbutton := 3), [])
      else (s.(oldbutton := 3), Reported(b + bits, x, y, release, mode))
  }

  class MouseReporter {
    var ox: int
    var oy: int
    var oldbutton: int

    constructor ()
      ensures Statics(ox, oy, oldbutton) == Startup
    {
      ox, oy, oldbutton := 0, 0, 3;
    }

    /** mousereport for event e on a grid of col by row cells of cw by ch
        pixels: the event's cell is found by x2col and y2row. */
    method Report(e: MouseEvent, mode: set<TermFlag>, cw: int, ch: int, col: int, row: int) returns (r: seq<Effect>)
      requires cw > 0 && ch > 0 && col >= 1 && row >= 1
      modifies this
      ensures var x := Select.PixelToCell(e.px, Config.BorderPx, cw, col);
        var y := Select.PixelToCell(e.py, Config.BorderPx, ch, row);
        (Statics(ox, oy, oldbutton), r) == Step(old(Statics(ox, oy, oldbutton)), e, x, y, mode)
    {
      var x := Select.PixelToCell(e.px, Config.BorderPx, cw, col);
      var y := Select.PixelToCell(e.py, Config.BorderPx, ch, row);
      var button := e.button;
      r := [];
      if e.kind == Motion {
        if x == ox && y == oy {
          return;
        }
        if MouseMotion !in mode && MouseMany !in mode {
          return;
        }
        if MouseMotion in mode && oldbutton == 3 {
          return;
        }
        button := oldbutton + 32;
        ox := x;
        oy := y;
      } else {
        if MouseSgr !in mode && e.kind == Release {
          button := 3;
        } else {
          button := button - 1;
          if button >= 3 {
            button := button + 64 - 3;
          }
        }
        if e.kind == Press {
          oldbutton := button;
          ox := x;
          oy := y;
        } else {
          oldbutton := 3;
          if MouseX10 in mode {
            return;
          }
          if button == 64 || button == 65 {
            return;
          }
        }
      }
      if MouseX10 !in mode {
        button := button + (if e.shift then 4 else 0) + (if e.mod4 then 8 else 0) + (if e.control then 16 else 0);
      }
      if MouseSgr in mode {
        r := [TtyWrite(SgrReport(button, x, y, e.kind == Release))];
      } else if x < 223 && y < 223 {
        r := [TtyWrite(X10Report(button, x, y))];
      }
    }
  }

  /** A motion to the cell of the last press or reported motion is not
      reported, so repeating a motion event reports it once at most. */
  lemma RepeatedMotionSilent(s: Statics, e: MouseEvent, x: nat, y: nat, mode: set<TermFlag>)
    requires e.kind == Motion
    ensures Step(Step(s, e, x, y, mode).0, e, x, y, mode).1 == []
  {
  }

  /** After a release no button is held, so in the button-motion mode
      (1002) no motion is reported until the next press. */
  lemma ReleaseEndsDrag(s: Statics, r: MouseEvent, m: MouseEvent, x: nat, y: nat, x': nat, y': nat, mode: set<TermFlag>)
    requires r.kind == Release && m.kind == Motion && MouseMotion in mode
    ensures Step(Step(s, r, x, y, mode).0, m, x', y', mode).1 == []
  {
  }

  /** A press then a motion to another cell, in either motion mode,
      reports the pressed button plus 32 (with the motion's modifiers). */
  lemma DragReportsButton(s: Statics, p: MouseEvent, m: MouseEvent, x: nat, y: nat, x': nat, y': nat, mode: set<TermFlag>)
    requires p.kind == Press && m.kind == Motion && (x, y) != (x', y')
    requires MouseMotion in mode || MouseMany in mode
    ensures var b := ButtonCode(Press, p.button, mode);
      Step(Step(s, p, x, y, mode).0, m, x', y', mode).1 == Reported(b + 32 + ModifierBits(m, mode), x', y', false, mode)
  {
  }

  /** In X10 mode (9) releases are never reported, and in any mode
      neither are the releases of the wheel buttons 4 and 5 under SGR
      reporting. */
  lemma ReleasesUnreported(s: Statics, e: MouseEvent, x: nat, y: nat, mode: set<TermFlag>)
    requires e.kind == Release
    requires MouseX10 in mode || (MouseSgr in mode && (e.button == 4 || e.button == 5))
    ensures Step(s, e, x, y, mode).1 == []
    ensures Step(s, e, x, y, mode).0 == s.(oldbutton := 3)
  {
  }

  /** An X10 report holds the cell's column and row plus 33 each, which
      a reader decodes back. */
  lemma X10Decodes(b: int, x: nat, y: nat)
    requires x < 223 && y < 223
    ensures var r := X10Report(b, x, y);
      |r| == 6 && r[..3] == [0x1b, '[' as Byte, 'M' as Byte]
      && r[4] as int - 33 == x && r[5] as int - 33 == y
      && (0 <= b < 224 ==> r[3] as int - 32 == b)
  {
  }
}
