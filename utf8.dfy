/** The UTF-8 codec of the terminal (section 3 of RFC 3629), driven by the
    byte tables utfbyte/utfmask/utfmin/utfmax. Bytes (`char`, read as
    unsigned) and code points (`xelt_CharCode`, 32 bits unsigned) are
    numbers in their ranges. Every mask in utfmask is a run of high bits,
    so `c & mask` is `c` with its low 8-k bits cleared and `c & ~mask` is
    `c` modulo 2^(8-k); shifts by 6 are multiplication and division by 64. */
module Utf8 {

  type Byte = x: int | 0 <= x < 0x100
  type Rune = x: int | 0 <= x < 0x1_0000_0000

  /** XELT_SIZE_UTF: the longest encoding. */
  const UtfSize: nat := 4
  /** XELT_SIZE_UTF_INVALID: U+FFFD, substituted for every bad value. */
  const Invalid: Rune := 0xFFFD
  /** The largest Unicode scalar value. */
  const MaxRune: Rune := 0x10FFFF

  /** utfbyte: the tag bits of a continuation byte (0) and of the lead
      byte of a 1- to 4-byte sequence. */
  function UtfByte(i: nat): Byte
    requires i <= UtfSize
  {
    match i
    case 0 => 0x80
    case 1 => 0x00
    case 2 => 0xC0
    case 3 => 0xE0
    case _ => 0xF0
  }

  /** utfmask: the tag bits each class of byte is tested on. */
  function UtfMask(i: nat): Byte
    requires i <= UtfSize
  {
    match i
    case 0 => 0xC0
    case 1 => 0x80
    case 2 => 0xE0
    case 3 => 0xF0
    case _ => 0xF8
  }

  /** utfmin: the least value a sequence of this length may carry. */
  function UtfMin(i: nat): Rune
    requires i <= UtfSize
  {
    match i
    case 0 => 0
    case 1 => 0
    case 2 => 0x80
    case 3 => 0x800
    case _ => 0x10000
  }

  /** utfmax: the greatest value a sequence of this length may carry. */
  function UtfMax(i: nat): Rune
    requires i <= UtfSize
  {
    match i
    case 0 => 0x10FFFF
    case 1 => 0x7F
    case 2 => 0x7FF
    case 3 => 0xFFFF
    case _ => 0x10FFFF
  }

  /** x & ~utfmask[i], cut to 8 bits: the bits of x below the tag, of
      which there are 6, 7, 5, 4 and 3. */
  function Payload(x: int, i: nat): (p: nat)
    requires 0 <= x && i <= UtfSize
    ensures p < 0x100 - UtfMask(i)
  {
    match i
    case 0 => x % 0x40
    case 1 => x % 0x80
    case 2 => x % 0x20
    case 3 => x % 0x10
    case _ => x % 0x08
  }

  predicate IsSurrogate(u: int)
  {
    0xD800 <= u <= 0xDFFF
  }

  /** A Unicode scalar value: at most 0x10FFFF and not a surrogate. */
  predicate IsScalar(u: int)
  {
    0 <= u <= MaxRune && !IsSurrogate(u)
  }

  /** (c & utfmask[i]) == utfbyte[i]. */
  predicate Matches(c: Byte, i: nat)
    requires i <= UtfSize
  {
    c - Payload(c, i) == UtfByte(i)
  }

  /** The class of a byte (0 continuation, 1-4 the length a lead byte
      announces, 5 never valid) and its payload bits, by byte range. */
  function ByteClass(c: Byte): (r: (Rune, nat))
    ensures r.1 <= UtfSize + 1
  {
    if c < 0x80 then (c, 1)
    else if c < 0xC0 then (c - 0x80, 0)
    else if c < 0xE0 then (c - 0xC0, 2)
    else if c < 0xF0 then (c - 0xE0, 3)
    else if c < 0xF8 then (c - 0xF0, 4)
    else (0, 5)
  }

  /** The mask test picks out a range of bytes: those from the pattern up
      to the pattern plus the number of payload values. */
  lemma MatchesRange(c: Byte, i: nat)
    requires i <= UtfSize
    ensures Matches(c, i) <==> UtfByte(i) <= c < 0x100 - UtfMask(i) + UtfByte(i)
    ensures Matches(c, i) ==> Payload(c, i) == c - UtfByte(i)
  {
    if i == 0 {
      assert Matches(c, i) <==> c - c % 0x40 == 0x80;
    } else if i == 1 {
      assert Matches(c, i) <==> c - c % 0x80 == 0;
    } else if i == 2 {
      assert Matches(c, i) <==> c - c % 0x20 == 0xC0;
    } else if i == 3 {
      assert Matches(c, i) <==> c - c % 0x10 == 0xE0;
    } else {
      assert Matches(c, i) <==> c - c % 0x08 == 0xF0;
    }
  }

  /** The class of a byte is the first table index whose pattern the byte
      matches under its mask, with the bits below the mask as payload;
      class 5 means no pattern matches. */
  lemma ByteClassIsFirstMatch(c: Byte)
    ensures var (u, i) := ByteClass(c);
      (i <= UtfSize ==> Matches(c, i) && u == Payload(c, i)) &&
      (forall k :: 0 <= k < i && k <= UtfSize ==> !Matches(c, k)) &&
      (i == UtfSize + 1 ==> u == 0)
  {
    MatchesRange(c, 0);
    MatchesRange(c, 1);
    MatchesRange(c, 2);
    MatchesRange(c, 3);
    MatchesRange(c, 4);
  }

  /** utf8decodebyte: scans the table for the first pattern the byte
      matches under its mask, and returns that index (5 when none does)
      and the bits below the mask. */
  method DecodeByte(c: Byte) returns (u: Rune, i: nat)
    ensures (u, i) == ByteClass(c)
  {
    i := 0;
    while i <= UtfSize
      invariant i <= UtfSize + 1
      invariant forall k :: 0 <= k < i ==> !Matches(c, k)
    {
      MatchesRange(c, i);
      if Matches(c, i) {
        return Payload(c, i), i;
      }
      i := i + 1;
    }
    MatchesRange(c, 0);
    MatchesRange(c, 1);
    MatchesRange(c, 2);
    MatchesRange(c, 3);
    MatchesRange(c, 4);
    return 0, i;
  }

  /** utf8encodebyte: the tag of class i over the low bits of u, truncated
      to a char. */
  function EncodeByte(u: Rune, i: nat): (b: Byte)
    requires i <= UtfSize
  {
    UtfByte(i) + Payload(u, i)
  }

  /** The byte utf8encodebyte makes for class i is of class i and carries
      the low bits of u. */
  lemma EncodeByteClass(u: Rune, i: nat)
    requires i <= UtfSize
    ensures ByteClass(EncodeByte(u, i)) == (Payload(u, i), i)
  {
  }

  /** The value utf8validate leaves in *u: out of the range of class i, or
      a surrogate, becomes the invalid sentinel. */
  function Validated(u: Rune, i: nat): (v: Rune)
    requires i <= UtfSize
    ensures IsScalar(v)
  {
    if !(UtfMin(i) <= u <= UtfMax(i)) || IsSurrogate(u) then Invalid else u
  }

  /** The length class of a value: the least i >= 1 with u <= utfmax[i]. */
  function LenOf(u: Rune): (n: nat)
    requires u <= MaxRune
    ensures 1 <= n <= UtfSize
    ensures UtfMin(n) <= u <= UtfMax(n)
    ensures n > 1 ==> u > UtfMax(n - 1)
  {
    if u <= 0x7F then 1 else if u <= 0x7FF then 2 else if u <= 0xFFFF then 3 else 4
  }

  /** utf8validate(u, i): substitutes the sentinel and returns the length
      class of the resulting value. */
  method Validate(u: Rune, i: nat) returns (v: Rune, n: nat)
    requires i <= UtfSize
    ensures v == Validated(u, i)
    ensures n == LenOf(v)
  {
    v := u;
    if !(UtfMin(i) <= v <= UtfMax(i)) || IsSurrogate(v) {
      v := Invalid;
    }
    n := 1;
    while v > UtfMax(n)
      invariant 1 <= n <= LenOf(v)
      decreases UtfSize - n
    {
      n := n + 1;
    }
  }

  /** u >> 6k, for the shifts utf8encode performs. */
  function Shr6(u: Rune, k: nat): Rune
    requires k < UtfSize
  {
    if k == 0 then u else if k == 1 then u / 0x40 else if k == 2 then u / 0x1000 else u / 0x40000
  }

  /** The bytes utf8encode writes for u: the lead byte of its class, then
      six payload bits per continuation byte, high bits first. */
  function Encoded(u: Rune): (s: seq<Byte>)
    ensures 1 <= |s| <= UtfSize
  {
    var v := Validated(u, 0);
    match LenOf(v)
    case 1 => [EncodeByte(v, 1)]
    case 2 => [EncodeByte(v / 0x40, 2), EncodeByte(v, 0)]
    case 3 => [EncodeByte(v / 0x1000, 3), EncodeByte(v / 0x40, 0), EncodeByte(v, 0)]
    case _ => [EncodeByte(v / 0x40000, 4), EncodeByte(v / 0x1000, 0), EncodeByte(v / 0x40, 0), EncodeByte(v, 0)]
  }

  /** Byte k of the encoding is the lead byte of the class over the value
      shifted right by 6 per byte that follows it, or a continuation byte
      over the value shifted likewise. */
  lemma EncodedAt(u: Rune)
    ensures |Encoded(u)| == LenOf(Validated(u, 0))
    ensures Encoded(u)[0] == EncodeByte(Shr6(Validated(u, 0), |Encoded(u)| - 1), |Encoded(u)|)
    ensures forall k :: 0 < k < |Encoded(u)| ==>
      Encoded(u)[k] == EncodeByte(Shr6(Validated(u, 0), |Encoded(u)| - 1 - k), 0)
  {
  }

  /** utf8encode(u, c): writes the encoding of u at c[off..] and returns
      its length; nothing else of c changes. */
  method Encode(u: Rune, c: array<Byte>, off: nat) returns (len: nat)
    requires off + UtfSize <= c.Length
    modifies c
    ensures len == |Encoded(u)|
    ensures c[off..off + len] == Encoded(u)
    ensures forall k :: 0 <= k < c.Length && !(off <= k < off + len) ==> c[k] == old(c[k])
  {
    var v;
    v, len := Validate(u, 0);
    ghost var v0 := v;
    ghost var e := Encoded(u);
    EncodedAt(u);
    var i := len - 1;
    while i != 0
      invariant 0 <= i < len == |e|
      invariant v == Shr6(v0, len - 1 - i)
      invariant forall k :: off + i < k < off + len ==> c[k] == e[k - off]
      invariant forall k :: 0 <= k < c.Length && !(off + i < k < off + len) ==> c[k] == old(c[k])
    {
      c[off + i] := EncodeByte(v, 0);
      v := v / 0x40;
      i := i - 1;
    }
    c[off] := EncodeByte(v, len);
    assert c[off..off + len] == e;
  }

  /** 64^k, for k below UtfSize. */
  function Pow64(k: nat): nat
    requires k < UtfSize
  {
    if k == 0 then 1 else if k == 1 then 0x40 else if k == 2 then 0x1000 else 0x40000
  }

  /** All of c[a..b) are continuation bytes. */
  predicate Continuations(c: seq<Byte>, a: nat, b: nat)
    requires a <= b <= |c|
  {
    forall i :: a <= i < b ==> ByteClass(c[i]).1 == 0
  }

  /** The loop of utf8decode from byte j on: ud is the payload gathered
      so far, len the length the lead byte announced. A byte that is not a
      continuation stops it after j bytes, running out of bytes reports 0,
      and a complete sequence is validated against its length. */
  function DecodeFrom(c: seq<Byte>, len: nat, j: nat, ud: Rune): (r: (Rune, nat))
    requires 1 <= j <= len <= UtfSize && j <= |c|
    requires ud < 0x100 * Pow64(j - 1)
    ensures r.1 <= |c| && r.1 <= len
    ensures IsScalar(r.0)
    decreases len - j
  {
    if j < |c| && j < len then
      if ByteClass(c[j]).1 != 0 then (Invalid, j)
      else DecodeFrom(c, len, j + 1, ud * 0x40 + ByteClass(c[j]).0)
    else if j < len then (Invalid, 0)
    else (Validated(ud, len), len)
  }

  /** One turn of the loop over a continuation byte. */
  lemma DecodeStep(c: seq<Byte>, len: nat, j: nat, ud: Rune)
    requires 1 <= j < len <= UtfSize && j < |c|
    requires ud < 0x100 * Pow64(j - 1)
    requires ByteClass(c[j]).1 == 0
    ensures ud * 0x40 + ByteClass(c[j]).0 < 0x100 * Pow64(j)
    ensures DecodeFrom(c, len, j, ud) == DecodeFrom(c, len, j + 1, ud * 0x40 + ByteClass(c[j]).0)
  {
  }

  /** What utf8decode(c, &u, |c|) yields: the value and the number of
      bytes consumed, 0 meaning "incomplete, wait for more bytes". */
  function DecodeSpec(c: seq<Byte>): (r: (Rune, nat))
    ensures r.1 <= |c| && r.1 <= UtfSize
    ensures IsScalar(r.0)
  {
    if |c| == 0 then (Invalid, 0)
    else
      var (ud, len) := ByteClass(c[0]);
      if !(1 <= len <= UtfSize) then (Invalid, 1)
      else DecodeFrom(c, len, 1, ud)
  }

  /** utf8decode(c, &u, |c|). */
  method Decode(c: seq<Byte>) returns (u: Rune, n: nat)
    ensures (u, n) == DecodeSpec(c)
  {
    u := Invalid;
    if |c| == 0 {
      return u, 0;
    }
    var ud: Rune, len: nat := DecodeByte(c[0]);
    if !(1 <= len <= UtfSize) {
      return u, 1;
    }
    var i, j := 1, 1;
    while i < |c| && j < len
      invariant i == j
      invariant 1 <= j <= len && j <= |c|
      invariant ud < 0x100 * Pow64(j - 1)
      invariant DecodeFrom(c, len, j, ud) == DecodeSpec(c)
    {
      var b, t := DecodeByte(c[i]);
      if t != 0 {
        return u, j;
      }
      DecodeStep(c, len, j, ud);
      ud := ud * 0x40 + b;
      i, j := i + 1, j + 1;
    }
    if j < len {
      return u, 0;
    }
    var cls;
    u, cls := Validate(ud, len);
    n := len;
  }

  /** The payload the first k bytes of c carry, six bits per byte after
      the lead byte. */
  function Acc(c: seq<Byte>, k: nat): (r: Rune)
    requires 1 <= k <= |c| && k <= UtfSize
    ensures r < 0x100 * Pow64(k - 1)
  {
    if k == 1 then ByteClass(c[0]).0
    else Acc(c, k - 1) * 0x40 + ByteClass(c[k - 1]).0 % 0x40
  }

  /** Over continuation bytes up to len, the loop accumulates Acc; at
      len it ends with the validated value. */
  lemma {:induction false} DecodeFromComplete(c: seq<Byte>, len: nat, j: nat)
    requires 1 <= j <= len <= |c| && len <= UtfSize
    requires Continuations(c, j, len)
    ensures DecodeFrom(c, len, j, Acc(c, j)) == DecodeFrom(c, len, len, Acc(c, len))
    decreases len - j
  {
    if j < len {
      var b := c[j];
      assert ByteClass(b).1 == 0;
      assert ByteClass(b) == (b - 0x80, 0);
      var ud := Acc(c, j) * 0x40 + (b - 0x80);
      assert ud == Acc(c, j + 1);
      assert DecodeFrom(c, len, j, Acc(c, j)) == DecodeFrom(c, len, j + 1, ud);
      DecodeFromComplete(c, len, j + 1);
    }
  }

  /** A non-continuation byte at k, before the announced length, ends the
      loop with k bytes consumed. */
  lemma {:induction false} DecodeFromInterrupted(c: seq<Byte>, len: nat, j: nat, ud: Rune, k: nat)
    requires 1 <= j <= k < len <= UtfSize && k < |c|
    requires ud < 0x100 * Pow64(j - 1)
    requires Continuations(c, j, k) && ByteClass(c[k]).1 != 0
    ensures DecodeFrom(c, len, j, ud) == (Invalid, k)
    decreases k - j
  {
    if j < k {
      DecodeFromInterrupted(c, len, j + 1, ud * 0x40 + ByteClass(c[j]).0, k);
    }
  }

  /** Continuation bytes up to the end of a buffer shorter than the
      announced length end the loop with nothing consumed. */
  lemma {:induction false} DecodeFromTruncated(c: seq<Byte>, len: nat, j: nat, ud: Rune)
    requires 1 <= j <= |c| < len <= UtfSize
    requires ud < 0x100 * Pow64(j - 1)
    requires Continuations(c, j, |c|)
    ensures DecodeFrom(c, len, j, ud) == (Invalid, 0)
    decreases |c| - j
  {
    if j < |c| {
      DecodeFromTruncated(c, len, j + 1, ud * 0x40 + ByteClass(c[j]).0);
    }
  }

  /** utf8strchr(s, u) from offset i: the offset of the first decoded u,
      scanning until the end or an incomplete tail. */
  function StrChrFrom(s: seq<Byte>, u: Rune, i: nat): (r: int)
    requires i <= |s|
    decreases |s| - i
  {
    if i == |s| then -1
    else
      var d := DecodeSpec(s[i..]);
      if d.1 == 0 then -1
      else if d.0 == u then i
      else StrChrFrom(s, u, i + d.1)
  }

  /** One step of the scan, given what decoding at i yields. */
  lemma StrChrStep(s: seq<Byte>, u: Rune, i: nat, v: Rune, j: nat)
    requires i < |s| && v == DecodeSpec(s[i..]).0 && j == DecodeSpec(s[i..]).1
    ensures i + j <= |s|
    ensures j == 0 ==> StrChrFrom(s, u, i) == -1
    ensures j != 0 && v == u ==> StrChrFrom(s, u, i) == i
    ensures j != 0 && v != u ==> StrChrFrom(s, u, i) == StrChrFrom(s, u, i + j)
  {
  }

  /** Offset p is where utf8strchr, scanning from i, looks at a character:
      every character it passes on the way is a complete sequence. */
  predicate OnScan(s: seq<Byte>, i: nat, p: int)
    requires i <= |s|
    decreases |s| - i
  {
    p == i || (i < |s| && 0 < DecodeSpec(s[i..]).1 && OnScan(s, i + DecodeSpec(s[i..]).1, p))
  }

  lemma {:induction false} OnScanAfter(s: seq<Byte>, i: nat, p: int)
    requires i <= |s| && OnScan(s, i, p)
    ensures i <= p
    decreases |s| - i
  {
    if p != i {
      OnScanAfter(s, i + DecodeSpec(s[i..]).1, p);
    }
  }

  /** A hit is a complete sequence at offset p that decodes to u. */
  predicate Hit(s: seq<Byte>, u: Rune, p: int)
  {
    0 <= p < |s| && 0 < DecodeSpec(s[p..]).1 && DecodeSpec(s[p..]).0 == u
  }

  /** utf8strchr returns the first character of its scan that is u, and NULL
      exactly when no character of the scan is u. */
  lemma {:induction false} StrChrFound(s: seq<Byte>, u: Rune, i: nat)
    requires i <= |s|
    ensures var r := StrChrFrom(s, u, i);
      && (r == -1 || (i <= r && OnScan(s, i, r) && Hit(s, u, r)))
      && (forall p :: OnScan(s, i, p) && (r == -1 || p < r) ==> !Hit(s, u, p))
    decreases |s| - i
  {
    var r := StrChrFrom(s, u, i);
    if i < |s| {
      var d := DecodeSpec(s[i..]);
      StrChrStep(s, u, i, d.0, d.1);
      if d.1 != 0 && d.0 != u {
        StrChrFound(s, u, i + d.1);
        forall p | OnScan(s, i, p) && (r == -1 || p < r)
          ensures !Hit(s, u, p)
        {
          if p != i {
            assert OnScan(s, i + d.1, p);
          }
        }
        if r != -1 {
          assert OnScan(s, i + d.1, r);
        }
      } else if d.1 == 0 {
        forall p | OnScan(s, i, p) ensures !Hit(s, u, p) {
          assert p == i;
        }
      } else {
        forall p | OnScan(s, i, p) && p < r ensures false {
          OnScanAfter(s, i, p);
        }
      }
    } else {
      forall p | OnScan(s, i, p) ensures !Hit(s, u, p) {
        assert p == i;
      }
    }
  }

  method StrChr(s: seq<Byte>, u: Rune) returns (r: int)
    ensures r == StrChrFrom(s, u, 0)
    ensures r == -1 || (0 <= r && OnScan(s, 0, r) && Hit(s, u, r))
    ensures forall p :: OnScan(s, 0, p) && (r == -1 || p < r) ==> !Hit(s, u, p)
  {
    r := -1;
    var i := 0;
    while i < |s|
      invariant 0 <= i <= |s|
      invariant r == -1 && StrChrFrom(s, u, i) == StrChrFrom(s, u, 0)
      decreases |s| - i
    {
      var v, j := Decode(s[i..]);
      StrChrStep(s, u, i, v, j);
      if j == 0 {
        break;
      }
      if v == u {
        r := i;
        break;
      }
      i := i + j;
    }
    StrChrFound(s, u, 0);
  }

  /** An empty buffer consumes nothing. */
  lemma DecodeEmpty()
    ensures DecodeSpec([]) == (Invalid, 0)
  {
  }

  /** A lead byte in 0x80-0xBF or 0xF8-0xFF is consumed alone and yields
      the sentinel. */
  lemma DecodeBadLead(c: seq<Byte>)
    requires |c| > 0 && ((0x80 <= c[0] < 0xC0) || 0xF8 <= c[0])
    ensures DecodeSpec(c) == (Invalid, 1)
  {
  }

  /** A lead byte followed by a non-continuation byte before its sequence
      is complete yields the sentinel and consumes the bytes before it. */
  lemma DecodeInterrupted(c: seq<Byte>, k: nat)
    requires |c| > 0 && 0xC0 <= c[0] < 0xF8
    requires 1 <= k < |c| && k < ByteClass(c[0]).1
    requires Continuations(c, 1, k) && ByteClass(c[k]).1 != 0
    ensures DecodeSpec(c) == (Invalid, k)
  {
    DecodeFromInterrupted(c, ByteClass(c[0]).1, 1, ByteClass(c[0]).0, k);
  }

  /** A lead byte announcing more bytes than there are, followed only by
      continuation bytes, consumes nothing: the caller retries later. */
  lemma DecodeTruncated(c: seq<Byte>)
    requires |c| > 0 && 0xC0 <= c[0] < 0xF8
    requires |c| < ByteClass(c[0]).1
    requires Continuations(c, 1, |c|)
    ensures DecodeSpec(c) == (Invalid, 0)
  {
    DecodeFromTruncated(c, ByteClass(c[0]).1, 1, ByteClass(c[0]).0);
  }

  /** A complete sequence is consumed whole and yields its payload when
      that fits its length and is not a surrogate, the sentinel when it is
      overlong or a surrogate. */
  lemma DecodeComplete(c: seq<Byte>)
    requires |c| > 0 && 0xC0 <= c[0] < 0xF8
    requires ByteClass(c[0]).1 <= |c|
    requires Continuations(c, 1, ByteClass(c[0]).1)
    ensures var n := ByteClass(c[0]).1;
      var v := Acc(c, n);
      DecodeSpec(c) == (if v < UtfMin(n) || v > MaxRune || IsSurrogate(v) then Invalid else v, n)
  {
    var n := ByteClass(c[0]).1;
    assert Acc(c, 1) == ByteClass(c[0]).0;
    assert Acc(c, n) <= UtfMax(n) || n == 4 by {
      if n == 2 {
        assert Acc(c, 1) < 0x20;
      } else if n == 3 {
        assert Acc(c, 1) < 0x10;
        assert Acc(c, 2) < 0x400;
      }
    }
    DecodeFromComplete(c, n, 1);
  }

  /** Every scalar value is encoded in 1 to 4 bytes, and decoding them,
      whatever bytes follow, gives back the value and that length. */
  lemma RoundTrip(u: Rune, rest: seq<Byte>)
    requires IsScalar(u)
    ensures var e := Encoded(u);
      |e| == LenOf(u) && DecodeSpec(e + rest) == (u, |e|)
  {
    var n := LenOf(u);
    var e := Encoded(u);
    var c := e + rest;
    assert Validated(u, 0) == u;
    assert |e| == n;
    if n == 1 {
      assert c[0] == EncodeByte(u, 1);
      EncodeByteClass(u, 1);
    } else if n == 2 {
      assert c[0] == EncodeByte(u / 0x40, 2) && c[1] == EncodeByte(u, 0);
      RoundTrip2(u, c);
    } else if n == 3 {
      assert c[0] == EncodeByte(u / 0x1000, 3) && c[1] == EncodeByte(u / 0x40, 0);
      assert c[2] == EncodeByte(u, 0);
      RoundTrip3(u, c);
    } else {
      assert c[0] == EncodeByte(u / 0x40000, 4) && c[1] == EncodeByte(u / 0x1000, 0);
      assert c[2] == EncodeByte(u / 0x40, 0) && c[3] == EncodeByte(u, 0);
      RoundTrip4(u, c);
    }
  }

  /** The payload digits of a 2-byte value, base 64, reassemble it. */
  lemma Digits2(u: int)
    requires 0 <= u < 0x800
    ensures (u / 0x40) % 0x20 == u / 0x40
    ensures (u / 0x40) * 0x40 + u % 0x40 == u
  {
  }

  lemma Digits3(u: int)
    requires 0 <= u < 0x10000
    ensures (u / 0x1000) % 0x10 == u / 0x1000
    ensures (u / 0x1000) * 0x40 + (u / 0x40) % 0x40 == u / 0x40
    ensures (u / 0x40) * 0x40 + u % 0x40 == u
  {
  }

  lemma Digits4(u: int)
    requires 0 <= u < 0x200000
    ensures (u / 0x40000) % 0x08 == u / 0x40000
    ensures (u / 0x40000) * 0x40 + (u / 0x1000) % 0x40 == u / 0x1000
    ensures (u / 0x1000) * 0x40 + (u / 0x40) % 0x40 == u / 0x40
    ensures (u / 0x40) * 0x40 + u % 0x40 == u
  {
  }

  /** The code points a UTF-8 reader takes from b: utf8decode sequence
      after sequence, until the bytes run out or end in an incomplete
      sequence. */
  function DecodeText(b: seq<Byte>): seq<Rune>
    decreases |b|
  {
    if b == [] then []
    else
      var d := DecodeSpec(b);
      if d.1 == 0 then [] else [d.0] + DecodeText(b[d.1..])
  }

  /** Reading the encoding of a scalar value u, and more bytes after it,
      gives u and then what the rest reads as. */
  lemma DecodeTextCons(u: Rune, rest: seq<Byte>)
    requires IsScalar(u)
    ensures DecodeText(Encoded(u) + rest) == [u] + DecodeText(rest)
  {
    var e := Encoded(u);
    RoundTrip(u, rest);
    assert (e + rest)[|e|..] == rest;
  }

  /** The encodings of the code points of us, one after the other. */
  function EncodedAll(us: seq<Rune>): seq<Byte>
  {
    if us == [] then [] else Encoded(us[0]) + EncodedAll(us[1..])
  }

  /** Encoding scalar values one after the other and reading the bytes
      back gives the same values in order. */
  lemma {:induction false} DecodeEncodedAll(us: seq<Rune>)
    requires forall k :: 0 <= k < |us| ==> IsScalar(us[k])
    ensures DecodeText(EncodedAll(us)) == us
  {
    if us != [] {
      var tail := EncodedAll(us[1..]);
      DecodeEncodedAll(us[1..]);
      DecodeTextCons(us[0], tail);
      assert us == [us[0]] + us[1..];
    }
  }

  /** The encodings of two runs of code points, one after the other, are
      the encoding of the two runs joined. */
  lemma {:induction false} EncodedAllJoin(us: seq<Rune>, vs: seq<Rune>)
    ensures EncodedAll(us + vs) == EncodedAll(us) + EncodedAll(vs)
  {
    if us != [] {
      EncodedAllJoin(us[1..], vs);
      assert (us + vs)[1..] == us[1..] + vs;
    } else {
      assert us + vs == vs;
    }
  }

  lemma RoundTrip2(u: Rune, c: seq<Byte>)
    requires IsScalar(u) && LenOf(u) == 2 && |c| >= 2
    requires c[0] == EncodeByte(u / 0x40, 2) && c[1] == EncodeByte(u, 0)
    ensures DecodeSpec(c) == (u, 2)
  {
    Digits2(u);
    EncodeByteClass(u / 0x40, 2);
    AccNext(c, 1, u);
    DecodeFromComplete(c, 2, 1);
  }

  lemma RoundTrip3(u: Rune, c: seq<Byte>)
    requires IsScalar(u) && LenOf(u) == 3 && |c| >= 3
    requires c[0] == EncodeByte(u / 0x1000, 3) && c[1] == EncodeByte(u / 0x40, 0)
    requires c[2] == EncodeByte(u, 0)
    ensures DecodeSpec(c) == (u, 3)
  {
    Digits3(u);
    EncodeByteClass(u / 0x1000, 3);
    AccNext(c, 1, u / 0x40);
    AccNext(c, 2, u);
    DecodeFromComplete(c, 3, 1);
  }

  /** A continuation byte carrying the low six bits of v extends the
      value gathered so far from v / 64 to v. */
  lemma AccNext(c: seq<Byte>, k: nat, v: Rune)
    requires 1 <= k < |c| && k < UtfSize
    requires Acc(c, k) == v / 0x40 && c[k] == EncodeByte(v, 0)
    ensures Acc(c, k + 1) == v && ByteClass(c[k]).1 == 0
  {
    EncodeByteClass(v, 0);
  }

  lemma RoundTrip4(u: Rune, c: seq<Byte>)
    requires IsScalar(u) && LenOf(u) == 4 && |c| >= 4
    requires c[0] == EncodeByte(u / 0x40000, 4) && c[1] == EncodeByte(u / 0x1000, 0)
    requires c[2] == EncodeByte(u / 0x40, 0) && c[3] == EncodeByte(u, 0)
    ensures DecodeSpec(c) == (u, 4)
  {
    Digits4(u);
    EncodeByteClass(u / 0x40000, 4);
    AccNext(c, 1, u / 0x1000);
    AccNext(c, 2, u / 0x40);
    AccNext(c, 3, u);
    DecodeFromComplete(c, 4, 1);
  }
}
