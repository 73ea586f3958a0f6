/** The helper macros of the terminal (src/xelt_macroses.h), one function each.
    Macros that assign their argument (LIMIT, DEFAULT, MODBIT) are functions
    x := f(x). Bit masks over named flags are sets of flags; the packed
    true-colour macros work on unsigned integers with literal divisors. */
module Macros {

  function Min(a: int, b: int): (r: int)
    ensures r <= a && r <= b
    ensures r == a || r == b
  {
    if a < b then a else b
  }

  function Max(a: int, b: int): (r: int)
    ensures r >= a && r >= b
    ensures r == a || r == b
  {
    if a < b then b else a
  }

  /** BETWEEN(x, a, b): inclusive at both ends. */
  predicate Between(x: int, a: int, b: int)
  {
    a <= x && x <= b
  }

  /** DEFAULT(a, b): only a zero a is replaced by b. */
  function Default(a: int, b: int): (r: int)
    ensures r == a || r == b
    ensures r != a ==> a == 0
    ensures a == 0 ==> r == b
  {
    if a != 0 then a else b
  }

  /** LIMIT(x, a, b): the lower bound is tested first, so with a > b
      every x below a becomes a and every other x above b becomes b. */
  function Limit(x: int, a: int, b: int): (r: int)
    ensures a <= b ==> Between(r, a, b)
    ensures Between(x, a, b) ==> r == x
    ensures x < a ==> r == a
  {
    if x < a then a else if x > b then b else x
  }

  /** C's `/` on int truncates toward zero (Dafny's is Euclidean). */
  function CDiv(n: int, d: int): (q: int)
    requires d != 0
    ensures n >= 0 && d > 0 ==> q == n / d
    ensures n < 0 && d > 0 ==> q == -((-n) / d)
  {
    if (n >= 0) == (d > 0) then
      (if n >= 0 then n / d else (-n) / (-d))
    else
      -((if n >= 0 then n else -n) / (if d > 0 then d else -d))
  }

  /** DIVCEIL(n, d) == (n + (d - 1)) / d with C division. */
  function DivCeil(n: int, d: int): (r: int)
    requires d != 0
  {
    CDiv(n + (d - 1), d)
  }

  /** For n >= 0 and d > 0, DIVCEIL is the ceiling of n / d: the least r
      with n <= r * d. */
  lemma DivCeilIsCeiling(n: int, d: int)
    requires n >= 0 && d > 0
    ensures (DivCeil(n, d) - 1) * d < n <= DivCeil(n, d) * d
  {
    var q := (n + d - 1) / d;
    var m := (n + d - 1) % d;
    assert n + d - 1 == q * d + m && 0 <= m < d;
    assert q * d == n + d - 1 - m;
    calc {
      (q - 1) * d;
      q * d - d;
      n - 1 - m;
    <
      n;
    }
  }

  /** ISCONTROLC0: the C0 set 0x00-0x1F and DEL, on an unsigned code. */
  predicate IsControlC0(c: nat)
  {
    Between(c, 0, 0x1f) || c == 0x7f
  }

  /** ISCONTROLC1: the C1 set 0x80-0x9F. */
  predicate IsControlC1(c: nat)
  {
    Between(c, 0x80, 0x9f)
  }

  predicate IsControl(c: nat)
  {
    IsControlC0(c) || IsControlC1(c)
  }

  /** The two control sets are disjoint and every control code lies
      below 0xA0, so the printable range starts there. */
  lemma ControlClasses(c: nat)
    ensures !(IsControlC0(c) && IsControlC1(c))
    ensures IsControl(c) ==> c < 0xa0
    ensures IsControl(c) <==> c < 0x20 || c == 0x7f || 0x80 <= c < 0xa0
  {
  }

  /** MODBIT(x, set, bit): with a mask of flags as a set, set adds every
      flag of the mask, clear removes them, all other flags stay. */
  function ModBit<T>(x: set<T>, on: bool, bits: set<T>): (r: set<T>)
    ensures on ==> bits <= r
    ensures !on ==> r !! bits
    ensures r - bits == x - bits
  {
    if on then x + bits else x - bits
  }

  /** TRUECOLOR(r, g, b): bit 24 tags a packed colour, red in bits
      16-23, green in 8-15, blue in 0-7. For channels in 0-255 the ORs
      of disjoint bit ranges are sums. */
  function TrueColor(r: nat, g: nat, b: nat): nat
    requires r < 0x100 && g < 0x100 && b < 0x100
  {
    0x100_0000 + r * 0x1_0000 + g * 0x100 + b
  }

  /** IS_TRUECOL(x): bit 24 of x. */
  predicate IsTrueCol(x: nat)
  {
    (x / 0x100_0000) % 2 == 1
  }

  /** TRUERED(x): bits 16-23 moved to 8-15. */
  function TrueRed(x: nat): nat
  {
    ((x / 0x1_0000) % 0x100) * 0x100
  }

  /** TRUEGREEN(x): bits 8-15 kept in place. */
  function TrueGreen(x: nat): nat
  {
    ((x / 0x100) % 0x100) * 0x100
  }

  /** TRUEBLUE(x): bits 0-7 moved to 8-15. */
  function TrueBlue(x: nat): nat
  {
    (x % 0x100) * 0x100
  }

  /** A packed colour is recognised as true colour and yields each channel
      scaled to 16 bits. */
  lemma TrueColorChannels(r: nat, g: nat, b: nat)
    requires r < 0x100 && g < 0x100 && b < 0x100
    ensures IsTrueCol(TrueColor(r, g, b))
    ensures TrueRed(TrueColor(r, g, b)) == r * 0x100
    ensures TrueGreen(TrueColor(r, g, b)) == g * 0x100
    ensures TrueBlue(TrueColor(r, g, b)) == b * 0x100
  {
    var x := TrueColor(r, g, b);
    var low := g * 0x100 + b;
    assert x == (0x100 + r) * 0x1_0000 + low && low < 0x1_0000;
    assert x / 0x1_0000 == 0x100 + r;
    assert x / 0x100_0000 == 1 by {
      assert x == 1 * 0x100_0000 + (r * 0x1_0000 + low);
    }
    assert x / 0x100 == (0x1_0000 + r * 0x100) + g;
    assert x % 0x100 == b;
  }

  /** No palette index 0-255 is taken for a true colour. */
  lemma PaletteIsNotTrueColor(i: nat)
    requires i < 0x100
    ensures !IsTrueCol(i)
  {
  }
}
