/** The tab stops of src/xelt.c (terminal.tabs, one flag per column):
    the scans of tputtab, the stops treset sets and the stops tresize
    adds when the screen widens. */
module Tabs {
  import Config

  /** The next tab stop at or after x, or col when there is none. */
  function NextTab(tabs: seq<bool>, x: int): (r: int)
    requires 0 <= x <= |tabs|
    ensures x <= r <= |tabs|
    ensures r == |tabs| || tabs[r]
    ensures forall i :: x <= i < r ==> !tabs[i]
    decreases |tabs| - x
  {
    if x < |tabs| && !tabs[x] then NextTab(tabs, x + 1) else x
  }

  /** The tab stop at or before x, or column 0 when there is none. */
  function PrevTab(tabs: seq<bool>, x: int): (r: int)
    requires 0 <= x < |tabs|
    ensures 0 <= r <= x
    ensures r == 0 || tabs[r]
    ensures forall i :: r < i <= x ==> !tabs[i]
  {
    if x > 0 && !tabs[x] then PrevTab(tabs, x - 1) else x
  }

  /** The forward loop of tputtab: n hops to the next tab stop, stopping
      at col. */
  function TabsFwd(tabs: seq<bool>, x: int, n: int): (r: int)
    requires 0 <= x <= |tabs|
    ensures x <= r <= |tabs|
    ensures n > 0 && x < |tabs| ==> x < r
    ensures r == x || r == |tabs| || tabs[r]
    decreases if n > 0 then n else 0
  {
    if x < |tabs| && n > 0 then TabsFwd(tabs, NextTab(tabs, x + 1), n - 1) else x
  }

  /** The backward loop of tputtab: m hops to the previous tab stop,
      stopping at column 0. */
  function TabsBack(tabs: seq<bool>, x: int, m: int): (r: int)
    requires 0 <= x < |tabs|
    ensures 0 <= r <= x
    ensures m > 0 && x > 0 ==> r < x
    ensures r == x || r == 0 || tabs[r]
    decreases if m > 0 then m else 0
  {
    if x > 0 && m > 0 then TabsBack(tabs, PrevTab(tabs, x - 1), m - 1) else x
  }

  /** The tab stops treset sets: every TabSpaces columns, not at 0. */
  function InitialTabs(col: nat): (r: seq<bool>)
    ensures |r| == col
    ensures forall i :: 0 <= i < col ==> (r[i] <==> i > 0 && i % Config.TabSpaces == 0)
  {
    seq(col, i => i > 0 && i % Config.TabSpaces == 0)
  }

  /** The last tab stop before oldcol, as tresize's backward scan finds it:
      -1 for an empty table, else the stop or column 0. */
  function LastTab(tabs: seq<bool>): (j: int)
    ensures -1 <= j < |tabs|
    ensures |tabs| > 0 ==> 0 <= j && (j == 0 || tabs[j]) && forall i :: j < i < |tabs| ==> !tabs[i]
  {
    if |tabs| == 0 then -1 else PrevTab(tabs, |tabs| - 1)
  }

  /** The tab stops after tresize to col columns: cut when narrower; when
      wider, the kept stops and a stop every TabSpaces columns after the
      last stop. */
  function ResizeTabs(tabs: seq<bool>, col: nat): (r: seq<bool>)
    ensures |r| == col
    ensures col <= |tabs| ==> r == tabs[..col]
    ensures col > |tabs| ==> forall i :: 0 <= i < col ==>
      (r[i] <==> (i < |tabs| && tabs[i]) || (i > LastTab(tabs) && (i - LastTab(tabs)) % Config.TabSpaces == 0))
  {
    if col <= |tabs| then tabs[..col]
    else
      var j := LastTab(tabs);
      seq(col, i requires 0 <= i < col => (i < |tabs| && tabs[i]) || (i > j && (i - j) % Config.TabSpaces == 0))
  }

  /** Widening keeps the stops after the last stop TabSpaces apart. */
  lemma ResizeTabsSpacing(tabs: seq<bool>, col: nat)
    requires col > |tabs| && |tabs| > 0 && tabs[|tabs| - 1]
    ensures forall i :: |tabs| <= i < col ==>
      (ResizeTabs(tabs, col)[i] <==> (i - (|tabs| - 1)) % Config.TabSpaces == 0)
  {
  }

  /** One hop forward from x lands on the first stop right of x, or on
      col when there is none. */
  lemma TabsFwdOne(tabs: seq<bool>, x: int)
    requires 0 <= x < |tabs|
    ensures var r := TabsFwd(tabs, x, 1);
      && x < r && (r == |tabs| || tabs[r])
      && (forall i :: x < i < r ==> !tabs[i])
  {
    var f := NextTab(tabs, x + 1);
    assert TabsFwd(tabs, x, 1) == TabsFwd(tabs, f, 0) == f;
  }

  /** One hop back from x > 0 lands on the nearest stop left of x, or on
      column 0 when there is none. */
  lemma TabsBackOne(tabs: seq<bool>, x: int)
    requires 0 < x < |tabs|
    ensures var r := TabsBack(tabs, x, 1);
      && r < x && (r == 0 || tabs[r])
      && (forall i :: r < i < x ==> !tabs[i])
  {
    var p := PrevTab(tabs, x - 1);
    assert TabsBack(tabs, x, 1) == TabsBack(tabs, p, 0) == p;
  }

  /** Where tputtab's loops leave the cursor column for n: n stops
      forward, -n stops back, or no move for 0. */
  function TabTarget(tabs: seq<bool>, x: int, n: int): (r: int)
    requires 0 <= x < |tabs|
    ensures 0 <= r <= |tabs|
    ensures n > 0 ==> x <= r && (r == x || r == |tabs| || tabs[r])
    ensures n < 0 ==> r <= x && (r == x || r == 0 || tabs[r])
    ensures n == 0 ==> r == x
  {
    if n > 0 then TabsFwd(tabs, x, n) else if n < 0 then TabsBack(tabs, x, -n) else x
  }

  /** The loops of tputtab from column x0: forward over n stops, or back
      over -n stops. */
  method Hop(t: seq<bool>, x0: int, n: int) returns (x: int)
    requires 0 <= x0 < |t|
    ensures x == TabTarget(t, x0, n)
  {
    x := x0;
    var k := n;
    if k > 0 {
      while x < |t| && k > 0
        invariant 0 <= x <= |t|
        invariant TabsFwd(t, x, k) == TabsFwd(t, x0, n)
        decreases k
      {
        k := k - 1;
        ghost var s := x;
        x := x + 1;
        while x < |t| && !t[x]
          invariant s < x <= |t| && NextTab(t, x) == NextTab(t, s + 1)
        {
          x := x + 1;
        }
      }
    } else if k < 0 {
      while x > 0 && k < 0
        invariant 0 <= x < |t|
        invariant TabsBack(t, x, -k) == TabsBack(t, x0, -n)
        decreases -k
      {
        k := k + 1;
        ghost var s := x;
        x := x - 1;
        while x > 0 && !t[x]
          invariant 0 <= x < s && PrevTab(t, x) == PrevTab(t, s - 1)
        {
          x := x - 1;
        }
      }
    }
  }

  /** treset's tab stops: all cleared, then one every TabSpaces columns
      from TabSpaces on. */
  method ResetStops(col: nat) returns (t: seq<bool>)
    ensures t == InitialTabs(col)
  {
    t := seq(col, _ => false);
    var i := Config.TabSpaces;
    while i < col
      invariant i > 0 && i % Config.TabSpaces == 0 && |t| == col
      invariant forall j :: 0 <= j < col ==> (t[j] <==> 0 < j < i && j % Config.TabSpaces == 0)
      decreases col - i
    {
      t := t[i := true];
      i := i + Config.TabSpaces;
    }
  }

  /** tresize's tab stops: the table reallocated to col flags; when
      wider, the new flags cleared, the last stop looked for backwards
      from the old end, and a stop set every TabSpaces columns after
      it. */
  method ResizeStops(tabs: seq<bool>, col: nat) returns (r: seq<bool>)
    ensures r == ResizeTabs(tabs, col)
  {
    if col <= |tabs| {
      return tabs[..col];
    }
    var j := ScanBack(tabs);
    r := AddStops(tabs, j, col);
  }

  /** The backward scan of tresize from the last old column to a stop or
      column 0. */
  method ScanBack(tabs: seq<bool>) returns (j: int)
    ensures j == LastTab(tabs)
  {
    j := |tabs| - 1;
    while j > 0 && !tabs[j]
      invariant -1 <= j < |tabs| && (|tabs| > 0 ==> 0 <= j && PrevTab(tabs, j) == PrevTab(tabs, |tabs| - 1))
      decreases j
    {
      j := j - 1;
    }
  }

  /** The forward loop of tresize: the new columns start clear and get a
      stop every TabSpaces columns after column j. */
  method AddStops(tabs: seq<bool>, j: int, col: nat) returns (r: seq<bool>)
    requires -1 <= j < |tabs| < col
    ensures |r| == col
    ensures forall x :: 0 <= x < col ==> (r[x] <==> (x < |tabs| && tabs[x]) || (x > j && (x - j) % Config.TabSpaces == 0))
  {
    r := tabs + seq(col - |tabs|, _ => false);
    var i := j + Config.TabSpaces;
    while i < col
      invariant i > j && (i - j) % Config.TabSpaces == 0 && |r| == col
      invariant forall x :: 0 <= x < col ==> (r[x] <==> (x < |tabs| && tabs[x]) || (j < x < i && (x - j) % Config.TabSpaces == 0))
      decreases col - i
    {
      r := r[i := true];
      i := i + Config.TabSpaces;
    }
  }
}
