/** Select Graphic Rendition: tdefcolor and tsetattr (src/xelt.c:1472-1610).
    The parameters of one CSI ... m sequence are applied, left to right,
    to the attribute glyph of the cursor. Extended colours (38 and 48)
    take their selector and values from the parameters that follow and
    move the index past them. */
module Sgr {
  import opened Types
  import opened Macros
  import Config

  /** tdefcolor as written: attr is the argument array followed by the
      memory after it, since the selector attr[i + 1] is read before any
      check against l. For 2 (direct colour) three channels must follow,
      for 5 (indexed) one value; the result is the colour, -1 when there
      is none, and the index of the last parameter used. */
  function DefColorAsWritten(attr: seq<int>, i: int, l: int): (r: (int, int))
    requires 0 <= i < l <= EscArgSize && i + 1 < |attr| && l <= |attr|
    ensures r.1 == i || r.1 == i + 2 || r.1 == i + 4
    ensures i <= r.1 < l
    ensures r.0 >= 0 ==> r.1 > i
  {
    match attr[i + 1]
    case 2 =>
      if i + 4 >= l then (-1, i)
      else
        var (red, green, blue) := (attr[i + 2], attr[i + 3], attr[i + 4]);
        if Between(red, 0, 255) && Between(green, 0, 255) && Between(blue, 0, 255)
        then (TrueColor(red, green, blue), i + 4)
        else (-1, i + 4)
    case 5 =>
      if i + 2 >= l then (-1, i)
      else if Between(attr[i + 2], 0, 255) then (attr[i + 2], i + 2)
      else (-1, i + 2)
    case _ => (-1, i)
  }

  /** tdefcolor with the selector read only when it is one of the l
      parameters; everything else as written. */
  function DefColor(attr: seq<int>, i: int, l: int): (r: (int, int))
    requires 0 <= i < l <= |attr| && l <= EscArgSize
    ensures r.1 == i || r.1 == i + 2 || r.1 == i + 4
    ensures i <= r.1 < l
    ensures r.0 >= 0 ==> r.1 > i
  {
    if i + 1 >= l then (-1, i) else DefColorAsWritten(attr, i, l)
  }

  /** 38;5;n with n a palette index gives n and uses two parameters; any
      other n gives no colour but still uses them. */
  lemma DefColorIndexed(attr: seq<int>, i: int, l: int)
    requires 0 <= i < l <= |attr| && l <= EscArgSize
    requires i + 2 < l && attr[i + 1] == 5
    ensures DefColor(attr, i, l).1 == i + 2
    ensures DefColor(attr, i, l).0 >= 0 <==> 0 <= attr[i + 2] < 256
    ensures DefColor(attr, i, l).0 >= 0 ==> DefColor(attr, i, l).0 == attr[i + 2] && !IsTrueCol(attr[i + 2])
  {
    if 0 <= attr[i + 2] < 256 {
      PaletteIsNotTrueColor(attr[i + 2]);
    }
  }

  /** 38;2;r;g;b with three channels in 0-255 gives a true colour that
      carries those channels and uses four parameters. */
  lemma DefColorDirect(attr: seq<int>, i: int, l: int)
    requires 0 <= i < l <= |attr| && l <= EscArgSize
    requires i + 4 < l && attr[i + 1] == 2
    requires 0 <= attr[i + 2] < 256 && 0 <= attr[i + 3] < 256 && 0 <= attr[i + 4] < 256
    ensures DefColor(attr, i, l).1 == i + 4
    ensures var c := DefColor(attr, i, l).0;
      c >= 0 && IsTrueCol(c)
      && TrueRed(c) == attr[i + 2] * 0x100 && TrueGreen(c) == attr[i + 3] * 0x100 && TrueBlue(c) == attr[i + 4] * 0x100
  {
    TrueColorChannels(attr[i + 2], attr[i + 3], attr[i + 4]);
  }

  /** Too few parameters after the selector, or an unknown selector: no
      colour, and nothing is used, so the parameters after it are read
      again as SGR codes. */
  lemma DefColorShort(attr: seq<int>, i: int, l: int)
    requires 0 <= i < l <= |attr| && l <= EscArgSize
    requires i + 1 >= l || (attr[i + 1] == 2 && i + 4 >= l) || (attr[i + 1] == 5 && i + 2 >= l)
             || (attr[i + 1] != 2 && attr[i + 1] != 5)
    ensures DefColor(attr, i, l) == (-1, i)
  {
  }

  /** With 38 or 48 as the last of sixteen parameters, the code as
      written reads the selector from the word after the argument array;
      whatever that word holds, the result is the corrected one. */
  lemma DefColorPastArgs(mem: seq<int>)
    requires |mem| > EscArgSize
    ensures DefColorAsWritten(mem, EscArgSize - 1, EscArgSize) == (-1, EscArgSize - 1)
    ensures DefColorAsWritten(mem, EscArgSize - 1, EscArgSize) == DefColor(mem[..EscArgSize], EscArgSize - 1, EscArgSize)
  {
  }

  /** Wherever the read as written stays within the arguments, or its
      value does not matter, the corrected tdefcolor agrees with it. */
  lemma DefColorAgrees(mem: seq<int>, i: int, l: int)
    requires 0 <= i < l <= EscArgSize && i + 1 < |mem| && l <= |mem|
    ensures DefColorAsWritten(mem, i, l) == DefColor(mem[..l], i, l)
  {
  }

  /** The attribute bits no SGR parameter touches. */
  const Untouched: set<Attr> := {Blink, Wrap, Wide, WDummy}

  /** What SGR parameters do to a glyph: bits cleared, bits set, and
      colours assigned (None keeps the colour). */
  datatype Change = Change(off: set<Attr>, on: set<Attr>, fg: Option<nat>, bg: Option<nat>)

  const NoChange: Change := Change({}, {}, None, None)

  function Apply(c: Change, g: Glyph): (r: Glyph)
    ensures r.u == g.u
  {
    Glyph(g.u, g.mode - c.off + c.on,
          if c.fg.Some? then c.fg.value else g.fg,
          if c.bg.Some? then c.bg.value else g.bg)
  }

  /** c1 followed by c2. */
  function Then(c1: Change, c2: Change): (c: Change)
    ensures c.fg == (if c2.fg.Some? then c2.fg else c1.fg)
    ensures c.bg == (if c2.bg.Some? then c2.bg else c1.bg)
  {
    Change(c1.off + c2.off, c1.on - c2.off + c2.on,
           if c2.fg.Some? then c2.fg else c1.fg,
           if c2.bg.Some? then c2.bg else c1.bg)
  }

  /** Then composes: applying c1 then c2 is applying Then(c1, c2). */
  lemma ThenApply(c1: Change, c2: Change, g: Glyph)
    ensures Apply(Then(c1, c2), g) == Apply(c2, Apply(c1, g))
  {
    assert g.mode - c1.off + c1.on - c2.off + c2.on == g.mode - (c1.off + c2.off) + (c1.on - c2.off + c2.on);
  }

  /** Applying a change twice is applying it once. */
  lemma ApplyTwice(c: Change, g: Glyph)
    ensures Apply(c, Apply(c, g)) == Apply(c, g)
  {
    assert g.mode - c.off + c.on - c.off + c.on == g.mode - c.off + c.on;
  }

  /** The switch of tsetattr at parameter i: the change it makes and the
      index of the last parameter it used (past i only for 38 and 48
      with a colour that reads further parameters). 0 clears the seven
      attributes of SgrResetAttrs and restores the default colours; 1-4
      and 7-9 set an attribute, 22-29 clear them again (22 both bold and
      faint); 30-37 and 40-47 pick palette colours 0-7, 90-97 and 100-107
      the bright ones 8-15; 39 and 49 restore a default colour; anything
      else changes nothing. */
  function SgrChange(attr: seq<int>, i: int, l: int): (r: (Change, int))
    requires 0 <= i < l <= |attr| && l <= EscArgSize
    ensures i <= r.1 < l
  {
    var a := attr[i];
    if a == 0 then (Change(SgrResetAttrs, {}, Some(Config.DefaultFg), Some(Config.DefaultBg)), i)
    else if a == 1 then (NoChange.(on := {Bold}), i)
    else if a == 2 then (NoChange.(on := {Faint}), i)
    else if a == 3 then (NoChange.(on := {Italic}), i)
    else if a == 4 then (NoChange.(on := {Underline}), i)
    else if a == 7 then (NoChange.(on := {Reverse}), i)
    else if a == 8 then (NoChange.(on := {Invisible}), i)
    else if a == 9 then (NoChange.(on := {Struck}), i)
    else if a == 22 then (NoChange.(off := {Bold, Faint}), i)
    else if a == 23 then (NoChange.(off := {Italic}), i)
    else if a == 24 then (NoChange.(off := {Underline}), i)
    else if a == 27 then (NoChange.(off := {Reverse}), i)
    else if a == 28 then (NoChange.(off := {Invisible}), i)
    else if a == 29 then (NoChange.(off := {Struck}), i)
    else if a == 38 then
      var (c, j) := DefColor(attr, i, l);
      (NoChange.(fg := if c >= 0 then Some(c) else None), j)
    else if a == 39 then (NoChange.(fg := Some(Config.DefaultFg)), i)
    else if a == 48 then
      var (c, j) := DefColor(attr, i, l);
      (NoChange.(bg := if c >= 0 then Some(c) else None), j)
    else if a == 49 then (NoChange.(bg := Some(Config.DefaultBg)), i)
    else if Between(a, 30, 37) then (NoChange.(fg := Some(a - 30)), i)
    else if Between(a, 40, 47) then (NoChange.(bg := Some(a - 40)), i)
    else if Between(a, 90, 97) then (NoChange.(fg := Some(a - 90 + 8)), i)
    else if Between(a, 100, 107) then (NoChange.(bg := Some(a - 100 + 8)), i)
    else (NoChange, i)
  }

  /** The parameters of one SGR sequence, one at a time: 0 clears the
      seven attributes and restores both default colours; 30-37 and
      90-97 pick foreground 0-7 and 8-15, 40-47 and 100-107 the same
      background colours; 38 and 48 set the colour tdefcolor decodes and
      leave the glyph as it is when it decodes none (too few or bad
      sub-parameters). */
  lemma SgrCodes(g: Glyph, attr: seq<int>, i: int, l: int)
    requires 0 <= i < l <= |attr| && l <= EscArgSize
    ensures var (h, j) := SgrStep(g, attr, i, l);
      var a, (c, k) := attr[i], DefColor(attr, i, l);
      && (a == 0 ==> h == g.(mode := g.mode - SgrResetAttrs, fg := Config.DefaultFg, bg := Config.DefaultBg) && j == i)
      && (30 <= a <= 37 ==> h == g.(fg := a - 30) && j == i)
      && (90 <= a <= 97 ==> h == g.(fg := a - 90 + 8) && j == i)
      && (40 <= a <= 47 ==> h == g.(bg := a - 40) && j == i)
      && (100 <= a <= 107 ==> h == g.(bg := a - 100 + 8) && j == i)
      && (a == 38 ==> h == (if c >= 0 then g.(fg := c) else g) && j == k)
      && (a == 48 ==> h == (if c >= 0 then g.(bg := c) else g) && j == k)
  {
    assert g.mode - {} + {} == g.mode;
  }

  /** The SGR parameters that set one attribute, and those that clear
      attributes, as tables. */
  const SetCodes: map<int, Attr> :=
    map[1 := Bold, 2 := Faint, 3 := Italic, 4 := Underline, 7 := Reverse, 8 := Invisible, 9 := Struck]
  const ClearCodes: map<int, set<Attr>> :=
    map[22 := {Bold, Faint}, 23 := {Italic}, 24 := {Underline}, 27 := {Reverse}, 28 := {Invisible}, 29 := {Struck}]

  /** The parameters tsetattr has a case for. */
  predicate KnownSgr(a: int)
  {
    a == 0 || a in SetCodes || a in ClearCodes || a == 38 || a == 39 || a == 48 || a == 49
    || 30 <= a <= 37 || 40 <= a <= 47 || 90 <= a <= 97 || 100 <= a <= 107
  }

  /** The remaining parameters: 1-4 and 7-9 set an attribute, 22-29
      clear one (22 both bold and faint), 39 and 49 restore the default
      colour, and a parameter tsetattr has no case for changes nothing. */
  lemma SgrAttrCodes(g: Glyph, attr: seq<int>, i: int, l: int)
    requires 0 <= i < l <= |attr| && l <= EscArgSize
    ensures var (h, j) := SgrStep(g, attr, i, l);
      var a := attr[i];
      && (a in SetCodes ==> h == g.(mode := g.mode + {SetCodes[a]}) && j == i)
      && (a in ClearCodes ==> h == g.(mode := g.mode - ClearCodes[a]) && j == i)
      && (a == 39 ==> h == g.(fg := Config.DefaultFg) && j == i)
      && (a == 49 ==> h == g.(bg := Config.DefaultBg) && j == i)
      && (!KnownSgr(a) ==> h == g && j == i)
  {
    var a := attr[i];
    if a in SetCodes {
      assert g.mode - {} + {SetCodes[a]} == g.mode + {SetCodes[a]};
    } else if a in ClearCodes {
      assert g.mode - ClearCodes[a] + {} == g.mode - ClearCodes[a];
    } else {
      assert g.mode - {} + {} == g.mode;
    }
  }

  /** One pass of tsetattr's loop body at parameter i: the cursor's
      attribute glyph after it and the index of the last parameter used. */
  function SgrStep(g: Glyph, attr: seq<int>, i: int, l: int): (r: (Glyph, int))
    requires 0 <= i < l <= |attr| && l <= EscArgSize
    ensures i <= r.1 < l
    ensures r.0.u == g.u
  {
    var (c, j) := SgrChange(attr, i, l);
    (Apply(c, g), j)
  }

  /** tsetattr's loop from parameter i on. */
  function SgrFrom(g: Glyph, attr: seq<int>, l: int, i: int): (r: Glyph)
    requires 0 <= i && 0 <= l <= |attr| && l <= EscArgSize
    ensures r.u == g.u
    decreases l - i
  {
    if i >= l then g
    else
      var (h, j) := SgrStep(g, attr, i, l);
      SgrFrom(h, attr, l, j + 1)
  }

  /** tsetattr on the cursor's attribute glyph g. */
  method SetAttr(g: Glyph, attr: seq<int>, l: int) returns (r: Glyph)
    requires 0 <= l <= |attr| && l <= EscArgSize
    ensures r == SgrFrom(g, attr, l, 0)
  {
    r := g;
    var i := 0;
    while i < l
      invariant 0 <= i
      invariant SgrFrom(g, attr, l, 0) == SgrFrom(r, attr, l, i)
      decreases l - i
    {
      var (h, j) := SgrStep(r, attr, i, l);
      r, i := h, j + 1;
    }
  }

  /** The change of the parameters from i on, composed left to right. */
  function SgrChanges(attr: seq<int>, l: int, i: int): (c: Change)
    requires 0 <= i && 0 <= l <= |attr| && l <= EscArgSize
    decreases l - i
  {
    if i >= l then NoChange
    else
      var (c, j) := SgrChange(attr, i, l);
      Then(c, SgrChanges(attr, l, j + 1))
  }

  /** A whole SGR sequence acts on every glyph by one change, which
      depends on the parameters alone. */
  lemma {:induction false} SgrFromIsChange(g: Glyph, attr: seq<int>, l: int, i: int)
    requires 0 <= i && 0 <= l <= |attr| && l <= EscArgSize
    ensures SgrFrom(g, attr, l, i) == Apply(SgrChanges(attr, l, i), g)
    decreases l - i
  {
    if i >= l {
      assert g.mode - {} + {} == g.mode;
    } else {
      var (c, j) := SgrChange(attr, i, l);
      assert SgrFrom(g, attr, l, i) == SgrFrom(Apply(c, g), attr, l, j + 1);
      assert SgrChanges(attr, l, i) == Then(c, SgrChanges(attr, l, j + 1));
      SgrFromIsChange(Apply(c, g), attr, l, j + 1);
      ThenApply(c, SgrChanges(attr, l, j + 1), g);
    }
  }

  /** Sending the same SGR sequence twice leaves the attributes as
      sending it once does. */
  lemma SgrIdempotent(g: Glyph, attr: seq<int>, l: int)
    requires 0 <= l <= |attr| && l <= EscArgSize
    ensures SgrFrom(SgrFrom(g, attr, l, 0), attr, l, 0) == SgrFrom(g, attr, l, 0)
  {
    SgrFromIsChange(g, attr, l, 0);
    SgrFromIsChange(SgrFrom(g, attr, l, 0), attr, l, 0);
    ApplyTwice(SgrChanges(attr, l, 0), g);
  }

  /** No SGR parameter sets or clears blink or the wrap and wide-character
      marks. */
  lemma SgrChangeUntouched(attr: seq<int>, i: int, l: int)
    requires 0 <= i < l <= |attr| && l <= EscArgSize
    ensures SgrChange(attr, i, l).0.off !! Untouched && SgrChange(attr, i, l).0.on !! Untouched
  {
  }

  /** An SGR sequence keeps the code of the glyph, blink and the wrap and
      wide-character marks. */
  lemma {:induction false} SgrKeepsUntouched(g: Glyph, attr: seq<int>, l: int, i: int)
    requires 0 <= i && 0 <= l <= |attr| && l <= EscArgSize
    ensures SgrFrom(g, attr, l, i).u == g.u
    ensures SgrFrom(g, attr, l, i).mode * Untouched == g.mode * Untouched
    decreases l - i
  {
    if i < l {
      var (c, j) := SgrChange(attr, i, l);
      SgrChangeUntouched(attr, i, l);
      var h := Apply(c, g);
      assert h.mode * Untouched == g.mode * Untouched;
      assert SgrFrom(g, attr, l, i) == SgrFrom(h, attr, l, j + 1);
      SgrKeepsUntouched(h, attr, l, j + 1);
    }
  }
}
