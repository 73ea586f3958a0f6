/** The value types of the terminal core (src/xelt_types.h): glyphs,
    the cursor, the selection record, the flag sets that the C code packs
    into integers, and the log of calls the core makes into the window and
    the tty. Sizes that live in headers outside the model are the values
    of upstream st, from which this code derives. */
module Types {
  import opened Utf8

  /** XELT_ESC_ARG_SIZ, XELT_SIZE_ESC_BUF, XELT_SIZE_STR_BUF,
      XELT_SIZE_STR_ARG. */
  const EscArgSize: nat := 16
  const EscBufSize: nat := 512
  const StrBufSize: nat := 512
  const StrArgSize: nat := 16

  /** The glyph attribute bits (XELT_ATTR_*); XELT_ATTR_NULL is {}. */
  datatype Attr = Bold | Faint | Italic | Underline | Blink | Reverse
                | Invisible | Struck | Wrap | Wide | WDummy

  /** The seven attributes SGR 0 clears. */
  const SgrResetAttrs: set<Attr> := {Bold, Faint, Italic, Underline, Reverse, Invisible, Struck}

  /** xelt_Glyph: a code, its attribute bits and two 32-bit colours. */
  datatype Glyph = Glyph(u: Rune, mode: set<Attr>, fg: nat, bg: nat)

  /** ATTRCMP(a, b): true when the two glyphs differ in attributes or
      colours; the code itself is not compared. */
  predicate AttrCmp(a: Glyph, b: Glyph)
  {
    a.mode != b.mode || a.fg != b.fg || a.bg != b.bg
  }

  /** The cell tclearregion leaves: a space with no attributes in the
      given colours. */
  function BlankGlyph(fg: nat, bg: nat): Glyph
  {
    Glyph(' ' as Rune, {}, fg, bg)
  }

  /** The cursor state bits (XELT_CURSOR_WRAPNEXT, XELT_CURSOR_ORIGIN);
      XELT_CURSOR_DEFAULT is {}. */
  datatype CursorFlag = WrapNext | Origin

  /** xelt_TCursor. */
  datatype TCursor = TCursor(attr: Glyph, x: int, y: int, state: set<CursorFlag>)

  /** The terminal mode bits (XELT_TERMINAL_*). */
  datatype TermFlag = ModeWrap | Insert | AppKeypad | AltScreen | CrLf
                    | MouseBtn | MouseMotion | ReverseVideo | KbdLock | Hide
                    | Echo | AppCursor | MouseSgr | EightBit | Focus
                    | MouseX10 | MouseMany | BrcktPaste | Print

  /** XELT_TERMINAL_MOUSE: every mouse reporting mode. */
  const MouseModes: set<TermFlag> := {MouseBtn, MouseMotion, MouseX10, MouseMany}

  /** The escape state bits (XELT_ESC_*). */
  datatype EscFlag = EscStart | EscCsi | EscStr | EscAltCharset | EscStrEnd | EscTest

  /** The character sets of terminal.trantbl (XELT_CHARSET_*). */
  datatype Charset = Graphic0 | Graphic1 | Uk | Usa | Multi | Ger | Fin

  /** XELT_SEL_IDLE, XELT_SEL_EMPTY, XELT_SEL_READY. */
  datatype SelMode = SelIdle | SelEmpty | SelReady

  /** XELT_SEL_REGULAR, XELT_SEL_RECTANGULAR. */
  datatype SelType = Regular | Rectangular

  /** sel.snap: 0, XELT_SELSNAP_WORD, XELT_SELSNAP_LINE. */
  datatype Snap = NoSnap | SnapWord | SnapLine

  datatype Point = Point(x: int, y: int)

  /** xelt_Selection without the X atoms, the owned strings and the
      click clocks. */
  datatype Selection = Selection(mode: SelMode, kind: SelType, snap: Snap,
                                 nb: Point, ne: Point, ob: Point, oe: Point, alt: bool)

  datatype Option<T> = None | Some(value: T)

  /** The calls the core makes outside itself, in order. */
  datatype Effect =
    | TtyWrite(bytes: seq<Byte>)          // ttywrite
    | Redraw                              // redraw
    | SetTitle(title: Option<seq<Byte>>)  // xsettitle; None is a NULL title
    | ResetTitle                          // window_title_set
    | LoadColors                          // xloadcols
    | SetColorName(index: int, name: Option<seq<Byte>>)  // xsetcolorname
    | SetPointerMotion(on: bool)          // xsetpointermotion
    | Bell                                // xseturgency / XkbBell
    | Printer(bytes: seq<Byte>)           // tprinter
    | DumpScreen                          // tdump
    | DumpLine(y: int)                    // tdumpline
    | DumpSelection                       // tdumpsel
    | CursorStyle(style: int)             // xelt_windowmain.cursorstyle

  /** A C `int` holding the low 32 bits of v, as the conversion from
      `long` does on the two's-complement targets the code runs on. */
  function Int32(v: int): (r: int)
    ensures -0x8000_0000 <= r < 0x8000_0000
    ensures (r - v) % 0x1_0000_0000 == 0
    ensures -0x8000_0000 <= v < 0x8000_0000 ==> r == v
  {
    var m := v % 0x1_0000_0000;
    if m < 0x8000_0000 then m else m - 0x1_0000_0000
  }

  /** The low 8 bits of a code stored into a `char` buffer. */
  function ToByte(u: int): (b: Byte)
    ensures 0 <= u < 0x100 ==> b == u
  {
    u % 0x100
  }
}
