/** The two C library conversions the parsers rely on, strtol(s, &end, 10)
    and atoi, as section 7.22.1.4 of ISO/IEC 9899:2011 defines them for a
    64-bit `long` in the "C" locale. A string is a byte sequence read up
    to its first NUL; the parsers always place a NUL after their bytes. */
module CLib {
  import opened Utf8
  import Types

  const LongMax: int := 0x7FFF_FFFF_FFFF_FFFF
  const LongMin: int := -0x8000_0000_0000_0000

  /** isspace in the "C" locale: space, \t, \n, \v, \f, \r. */
  predicate IsSpace(b: Byte)
  {
    b == 0x20 || 0x09 <= b <= 0x0D
  }

  predicate IsDigit(b: Byte)
  {
    0x30 <= b <= 0x39
  }

  /** The end of the run of decimal digits starting at i. */
  function DigitsEnd(s: seq<Byte>, i: nat): (j: nat)
    requires i <= |s|
    ensures i <= j <= |s|
    ensures j < |s| ==> !IsDigit(s[j])
    decreases |s| - i
  {
    if i < |s| && IsDigit(s[i]) then DigitsEnd(s, i + 1) else i
  }

  /** The decimal value of the digits s[i..j]. */
  function DigitsValue(s: seq<Byte>, i: nat, j: nat): nat
    requires i <= j <= |s|
    decreases j - i
  {
    if i == j then 0 else DigitsValue(s, i, j - 1) * 10 + (s[j - 1] as int - 0x30) % 10
  }

  /** The magnitude with the sign strtol read applied. */
  function Signed(neg: bool, m: nat): int
  {
    if neg then 0 - m as int else m
  }

  /** The value strtol stores: clamped to [LONG_MIN, LONG_MAX]. */
  function ClampLong(v: int): (r: int)
    ensures LongMin <= r <= LongMax
  {
    if v > LongMax then LongMax else if v < LongMin then LongMin else v
  }

  /** strtol's scan of the digits from i on, the first of them at d,
      with acc the value of s[d..i]. With no digit at all the result is
      0 and the end is p, where the call started. */
  function Digits(s: seq<Byte>, p: nat, d: nat, i: nat, neg: bool, acc: nat): (r: (int, nat))
    requires p <= d <= i <= |s|
    ensures LongMin <= r.0 <= LongMax
    ensures r.1 == p || i <= r.1 <= |s|
    ensures r.1 == p ==> r.0 == 0
    decreases |s| - i
  {
    if i < |s| && IsDigit(s[i]) then Digits(s, p, d, i + 1, neg, acc * 10 + (s[i] - 0x30))
    else if i == d then (0, p)
    else (ClampLong(Signed(neg, acc)), i)
  }

  /** strtol's scan of the leading white space and the optional sign. */
  function Spaces(s: seq<Byte>, p: nat, i: nat): (r: (int, nat))
    requires p <= i <= |s|
    ensures LongMin <= r.0 <= LongMax
    ensures r.1 == p || i <= r.1 <= |s|
    ensures r.1 == p ==> r.0 == 0
    decreases |s| - i
  {
    if i < |s| && IsSpace(s[i]) then Spaces(s, p, i + 1)
    else if i < |s| && (s[i] == '-' as Byte || s[i] == '+' as Byte) then
      Digits(s, p, i + 1, i + 1, s[i] == '-' as Byte, 0)
    else Digits(s, p, i, i, false, 0)
  }

  /** strtol(s + p, &end, 10): optional white space, an optional sign,
      then digits; the value is clamped to [LONG_MIN, LONG_MAX]. With no
      digits the result is 0 and end is p itself. */
  function StrToL(s: seq<Byte>, p: nat): (r: (int, nat))
    requires p <= |s|
    ensures LongMin <= r.0 <= LongMax
    ensures p <= r.1 <= |s|
    ensures r.1 == p ==> r.0 == 0
  {
    Spaces(s, p, p)
  }

  /** The digit scan never reads past a NUL at len. */
  lemma {:induction false} DigitsStopAtNul(s: seq<Byte>, p: nat, d: nat, i: nat, neg: bool, acc: nat, len: nat)
    requires p <= d <= i <= len < |s| && s[len] == 0
    ensures Digits(s, p, d, i, neg, acc).1 <= len
    decreases |s| - i
  {
    if i < |s| && IsDigit(s[i]) {
      DigitsStopAtNul(s, p, d, i + 1, neg, acc * 10 + (s[i] - 0x30), len);
    }
  }

  /** The white-space scan never reads past a NUL at len. */
  lemma {:induction false} SpacesStopAtNul(s: seq<Byte>, p: nat, i: nat, len: nat)
    requires p <= i <= len < |s| && s[len] == 0
    ensures Spaces(s, p, i).1 <= len
    decreases |s| - i
  {
    if i < |s| && IsSpace(s[i]) {
      SpacesStopAtNul(s, p, i + 1, len);
    } else if i < |s| && (s[i] == '-' as Byte || s[i] == '+' as Byte) {
      DigitsStopAtNul(s, p, i + 1, i + 1, s[i] == '-' as Byte, 0, len);
    } else {
      DigitsStopAtNul(s, p, i, i, false, 0, len);
    }
  }

  /** strtol stops at the terminating NUL of its string: the end pointer
      never passes it. */
  lemma StrToLStopsAtNul(s: seq<Byte>, p: nat, len: nat)
    requires p <= len < |s| && s[len] == 0
    ensures StrToL(s, p).1 <= len
  {
    SpacesStopAtNul(s, p, p, len);
  }

  /** atoi(s + p): glibc computes (int) strtol(s + p, NULL, 10). */
  function AToI(s: seq<Byte>, p: nat): (r: int)
    requires p <= |s|
    ensures -0x8000_0000 <= r < 0x8000_0000
    ensures StrToL(s, p).1 == p ==> r == 0
  {
    Types.Int32(StrToL(s, p).0)
  }

  /** The digit scan accumulates the decimal value of the whole run of
      digits from d, with the sign applied and the result clamped. */
  lemma {:induction false} DigitsScan(s: seq<Byte>, p: nat, d: nat, i: nat, neg: bool)
    requires p <= d <= i <= |s|
    requires forall k :: d <= k < i ==> IsDigit(s[k])
    ensures var e := DigitsEnd(s, i);
      Digits(s, p, d, i, neg, DigitsValue(s, d, i))
      == if e == d then (0, p) else (ClampLong(Signed(neg, DigitsValue(s, d, e))), e)
    decreases |s| - i
  {
    if i < |s| && IsDigit(s[i]) {
      assert DigitsValue(s, d, i + 1) == DigitsValue(s, d, i) * 10 + (s[i] - 0x30);
      DigitsScan(s, p, d, i + 1, neg);
    }
  }

  /** A field of plain digits is read as their decimal value, clamped to
      LONG_MAX, and reading ends where the digits end. */
  lemma StrToLDigits(s: seq<Byte>, p: nat)
    requires p < |s| && IsDigit(s[p])
    ensures StrToL(s, p) == (ClampLong(DigitsValue(s, p, DigitsEnd(s, p))), DigitsEnd(s, p))
  {
    DigitsScan(s, p, p, p, false);
  }

  /** A sign followed by digits: the value is negated for '-'. */
  lemma StrToLSigned(s: seq<Byte>, p: nat)
    requires p + 1 < |s| && (s[p] == '-' as Byte || s[p] == '+' as Byte) && IsDigit(s[p + 1])
    ensures var e := DigitsEnd(s, p + 1); var m := DigitsValue(s, p + 1, e);
      StrToL(s, p) == (ClampLong(Signed(s[p] == '-' as Byte, m)), e)
  {
    DigitsScan(s, p, p + 1, p + 1, s[p] == '-' as Byte);
  }

  /** A field that starts with neither white space, a sign nor a digit is
      not a number: the value is 0 and nothing is consumed. */
  lemma StrToLEmpty(s: seq<Byte>, p: nat)
    requires p <= |s|
    requires p == |s| || !(IsSpace(s[p]) || IsDigit(s[p]) || s[p] == '-' as Byte || s[p] == '+' as Byte)
    ensures StrToL(s, p) == (0, p)
  {
  }

  /** strchr on the NUL-terminated string s from index i: the index of
      the first c, where c = 0 finds the terminator at |s|, or -1. */
  function CStrChr(s: seq<Byte>, c: Byte, i: nat): (r: int)
    requires i <= |s| && forall j :: 0 <= j < |s| ==> s[j] != 0
    ensures r == -1 || i <= r <= |s|
    ensures r == |s| <==> c == 0
    ensures 0 <= r < |s| ==> s[r] == c
    ensures r == -1 <==> c != 0 && forall j :: i <= j < |s| ==> s[j] != c
    ensures r >= 0 ==> forall j :: i <= j < r ==> s[j] != c
    decreases |s| - i
  {
    if i == |s| then (if c == 0 then |s| else -1)
    else if s[i] == c then i
    else CStrChr(s, c, i + 1)
  }
  /** The digits snprintf's "%i" prints for a non-negative value: no sign
      and no leading zero. */
  function Decimal(n: nat): (s: seq<Byte>)
    ensures 1 <= |s| && forall i :: 0 <= i < |s| ==> IsDigit(s[i])
    ensures n < 10 <==> |s| == 1
    decreases n
  {
    if n < 10 then [(0x30 + n) as Byte] else Decimal(n / 10) + [(0x30 + n % 10) as Byte]
  }

  /** The value of a run of digits depends only on its own bytes. */
  lemma {:induction false} DigitsValueAt(s: seq<Byte>, i: nat, d: seq<Byte>)
    requires i + |d| <= |s| && s[i..i + |d|] == d
    ensures DigitsValue(s, i, i + |d|) == DigitsValue(d, 0, |d|)
    decreases |d|
  {
    if |d| > 0 {
      var e := d[..|d| - 1];
      assert s[i..i + |e|] == e;
      DigitsValueAt(s, i, e);
      DigitsValueAt(d, 0, e);
      assert d[..|e|] == e;
      assert s[i + |d| - 1] == d[|d| - 1];
    }
  }

  /** A run of digits d placed at i and followed by a non-digit ends
      where d ends. */
  lemma {:induction false} DigitsEndAt(s: seq<Byte>, i: nat, d: seq<Byte>)
    requires i + |d| < |s| && s[i..i + |d|] == d && !IsDigit(s[i + |d|])
    requires forall k :: 0 <= k < |d| ==> IsDigit(d[k])
    ensures DigitsEnd(s, i) == i + |d|
    decreases |d|
  {
    if |d| > 0 {
      assert s[i] == d[0];
      assert s[i + 1..i + 1 + |d[1..]|] == d[1..];
      DigitsEndAt(s, i + 1, d[1..]);
    }
  }

  /** Reading back what Decimal prints gives the value printed. */
  lemma {:induction false} DecimalValue(n: nat)
    ensures DigitsValue(Decimal(n), 0, |Decimal(n)|) == n
    decreases n
  {
    var s := Decimal(n);
    if n >= 10 {
      var d := Decimal(n / 10);
      DecimalValue(n / 10);
      assert s[0..|d|] == d;
      DigitsValueAt(s, 0, d);
    }
  }
}
