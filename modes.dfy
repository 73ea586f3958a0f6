/** The mode numbers of SM/RM (CSI h, CSI l) and of their DEC private
    forms (CSI ? h, CSI ? l), as tsetmode in src/xelt.c acts on them.
    The modes that move the cursor or swap the screens (DEC 6, 47, 1047,
    1048, 1049) only report here what they do to the mode flags; the
    terminal carries out the rest. */
module Modes {
  import opened Types
  import opened Macros
  import Config

  /** The flag a mode number sets or resets; None for the modes that
      are ignored, unknown or not flags at all. */
  function ModeFlag(priv: bool, a: int): (f: Option<TermFlag>)
  {
    if priv then
      if a == 1 then Some(AppCursor)
      else if a == 5 then Some(ReverseVideo)
      else if a == 7 then Some(ModeWrap)
      else if a == 25 then Some(Hide)
      else if a == 9 then Some(MouseX10)
      else if a == 1000 then Some(MouseBtn)
      else if a == 1002 then Some(MouseMotion)
      else if a == 1003 then Some(MouseMany)
      else if a == 1004 then Some(Focus)
      else if a == 1006 then Some(MouseSgr)
      else if a == 1034 then Some(EightBit)
      else if a == 2004 then Some(BrcktPaste)
      else None
    else
      if a == 2 then Some(KbdLock)
      else if a == 4 then Some(Insert)
      else if a == 12 then Some(Echo)
      else if a == 20 then Some(CrLf)
      else None
  }

  /** DECTCEM (25) shows the cursor and SRM (12) turns local echo off
      when set: their flags are the opposite of the request. */
  predicate Inverted(priv: bool, a: int)
  {
    (priv && a == 25) || (!priv && a == 12)
  }

  /** DEC 47, 1047 and 1049 swap to the alternate screen when set and
      back when reset, if the alternate screen is allowed. */
  predicate SwapsScreen(priv: bool, a: int)
  {
    priv && Config.AllowAltScreen && (a == 47 || a == 1047 || a == 1049)
  }

  /** The mode flags after one mode number: a mouse mode first clears
      every mouse mode, so that at most one reports; a screen swap leaves
      XELT_TERMINAL_ALTSCREEN equal to the request. */
  function ModeStep(priv: bool, on: bool, a: int, m: set<TermFlag>): (r: set<TermFlag>)
    ensures ModeFlag(priv, a).None? && !SwapsScreen(priv, a) ==> r == m
  {
    if SwapsScreen(priv, a) then ModBit(m, on, {AltScreen})
    else match ModeFlag(priv, a)
      case None => m
      case Some(f) =>
        if f in MouseModes then ModBit(m - MouseModes, on, {f})
        else ModBit(m, on != Inverted(priv, a), {f})
  }

  /** The calls one mode number makes: DECSCNM redraws when it changes
      the flag; the X10, button and motion mouse modes turn pointer
      motion events off and the any-motion mode turns them on or off. */
  function ModeOut(priv: bool, on: bool, a: int, m: set<TermFlag>): (r: seq<Effect>)
    ensures |r| <= 1
  {
    if !priv then []
    else if a == 5 then (if (ReverseVideo in m) != on then [Redraw] else [])
    else if a == 9 || a == 1000 || a == 1002 then [SetPointerMotion(false)]
    else if a == 1003 then [SetPointerMotion(on)]
    else []
  }

  /** The mode flags after every mode number of args, in order. No mode
      number names the keypad or printer flags, so those keep their value. */
  function ModesAfter(priv: bool, on: bool, args: seq<int>, m: set<TermFlag>): (r: set<TermFlag>)
    ensures AppKeypad in r <==> AppKeypad in m
    ensures Print in r <==> Print in m
    decreases |args|
  {
    if args == [] then m else ModesAfter(priv, on, args[1..], ModeStep(priv, on, args[0], m))
  }

  /** The calls made for every mode number of args, in order. Each mode
      number makes at most one call, so a sequence of n makes at most n;
      the ANSI modes make none. */
  function ModesOut(priv: bool, on: bool, args: seq<int>, m: set<TermFlag>): (r: seq<Effect>)
    ensures |r| <= |args|
    ensures !priv ==> r == []
    decreases |args|
  {
    if args == [] then []
    else ModeOut(priv, on, args[0], m) + ModesOut(priv, on, args[1..], ModeStep(priv, on, args[0], m))
  }

  /** What one mode number does to its own flag: set or reset as
      requested, or the opposite for the inverted modes; any other mouse
      mode is cleared with a mouse mode, and every other flag is kept. */
  lemma StepSetsFlag(priv: bool, on: bool, a: int, m: set<TermFlag>, f: TermFlag)
    requires ModeFlag(priv, a) == Some(f)
    ensures var r := ModeStep(priv, on, a, m);
      && (f in r <==> on != Inverted(priv, a))
      && (f in MouseModes ==> r * MouseModes <= {f})
      && (f !in MouseModes ==> r - {f} == m - {f})
      && r - MouseModes - {f} == m - MouseModes - {f}
  {
  }

  /** With the alternate screen allowed, DEC 47, 1047 and 1049 leave the
      alternate screen in use exactly when set, and change no other flag. */
  lemma StepSwapsScreen(on: bool, a: int, m: set<TermFlag>)
    requires a == 47 || a == 1047 || a == 1049
    ensures var r := ModeStep(true, on, a, m);
      (AltScreen in r <==> on) && r - {AltScreen} == m - {AltScreen}
  {
  }

  /** A later request for the same mode number undoes an earlier one:
      set-then-reset is reset, and setting twice is setting once. */
  lemma LastRequestWins(priv: bool, on1: bool, on2: bool, a: int, m: set<TermFlag>)
    ensures ModeStep(priv, on2, a, ModeStep(priv, on1, a, m)) == ModeStep(priv, on2, a, m)
  {
    if !SwapsScreen(priv, a) && ModeFlag(priv, a).Some? {
      var f := ModeFlag(priv, a).value;
      if f in MouseModes {
        assert ModBit(m - MouseModes, on1, {f}) - MouseModes == m - MouseModes;
      }
    }
  }

  /** tsetmode keeps at most one mouse reporting mode on: one mode number
      cannot turn on a second. */
  lemma StepOneMouseMode(priv: bool, on: bool, a: int, m: set<TermFlag>)
    requires |m * MouseModes| <= 1
    ensures |ModeStep(priv, on, a, m) * MouseModes| <= 1
  {
    var r := ModeStep(priv, on, a, m);
    if SwapsScreen(priv, a) {
      assert r * MouseModes == m * MouseModes;
    } else if ModeFlag(priv, a).Some? {
      var f := ModeFlag(priv, a).value;
      if f in MouseModes {
        assert r * MouseModes <= {f};
        SubsetSize(r * MouseModes, {f});
      } else {
        assert r * MouseModes == m * MouseModes;
      }
    }
  }

  lemma SubsetSize<T>(a: set<T>, b: set<T>)
    requires a <= b
    ensures |a| <= |b|
  {
    assert b == a + (b - a);
  }

  /** A whole SM/RM sequence keeps at most one mouse reporting mode on. */
  lemma {:induction false} OneMouseMode(priv: bool, on: bool, args: seq<int>, m: set<TermFlag>)
    requires |m * MouseModes| <= 1
    ensures |ModesAfter(priv, on, args, m) * MouseModes| <= 1
    decreases |args|
  {
    if args != [] {
      StepOneMouseMode(priv, on, args[0], m);
      OneMouseMode(priv, on, args[1..], ModeStep(priv, on, args[0], m));
    }
  }

  /** DECSCNM asks for a redraw exactly when the reverse-video flag
      changes. */
  lemma ReverseRedraw(on: bool, m: set<TermFlag>)
    ensures ModeOut(true, on, 5, m) == [Redraw] <==> ModeStep(true, on, 5, m) != m
    ensures ModeOut(true, on, 5, m) != [Redraw] ==> ModeOut(true, on, 5, m) == []
  {
    var r := ModeStep(true, on, 5, m);
    if (ReverseVideo in m) == on {
      assert r == m;
    } else {
      assert (ReverseVideo in r) != (ReverseVideo in m);
    }
  }
}
