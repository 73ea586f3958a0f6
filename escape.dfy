/** The two escape-sequence buffers of the terminal and their parsers:
    xelt_CSIEscape with csiparse/csireset (src/xelt.c:1304-1332,
    1997-2001) and xelt_STREscape with strparse/strreset
    (src/xelt.c:2054-2074, 2102-2106). The fixed-size C arrays are Dafny
    arrays; the argument pointers of a string sequence are offsets into
    its buffer. */
module Escape {
  import opened Utf8
  import opened Types
  import opened CLib

  /** The value csiparse stores for a field strtol read as v: a clamped
      (overflowing) field becomes -1, any other value is truncated to a
      C int. */
  function CsiArg(v: int): (a: int)
    ensures v == LongMax || v == LongMin ==> a == -1
    ensures -0x8000_0000 <= v < 0x8000_0000 ==> a == v
  {
    if v == LongMax || v == LongMin then -1 else Int32(v)
  }

  /** The csiparse loop from p on, with the fields acc already stored:
      each field is strtol's value; the loop goes on over a ';' while
      fewer than XELT_ESC_ARG_SIZ fields are stored and bytes remain. The
      result is every field stored and the offset where the loop stopped,
      which holds the final byte. */
  function CsiScan(s: seq<Byte>, len: nat, p: nat, acc: seq<int>): (r: (seq<int>, nat))
    requires len < |s| && s[len] == 0 && p < |s| && p <= len + 1 && |acc| < EscArgSize
    ensures |r.0| <= EscArgSize
    ensures p <= r.1 < |s|
    ensures p <= len ==> r.1 <= len
    decreases len + 1 - p
  {
    if p >= len then (acc, p)
    else
      StrToLStopsAtNul(s, p, len);
      var (v, np) := StrToL(s, p);
      if s[np] != ';' as Byte || |acc| + 1 == EscArgSize then (acc + [CsiArg(v)], np)
      else CsiScan(s, len, np + 1, acc + [CsiArg(v)])
  }

  /** The csiparse loop over the NUL-terminated bytes s[..len]: reads the
      fields from start on and returns them with the offset of the final
      byte. */
  method ScanFields(s: seq<Byte>, len: nat, start: nat) returns (fields: seq<int>, e: nat)
    requires len < |s| && s[len] == 0 && start < |s| && start <= len + 1
    ensures (fields, e) == CsiScan(s, len, start, [])
  {
    var p := start;
    fields := [];
    while p < len
      invariant start <= p <= len + 1 && p < |s| && |fields| < EscArgSize
      invariant CsiScan(s, len, start, []) == CsiScan(s, len, p, fields)
      decreases len - p
    {
      var (v, np) := StrToL(s, p);
      CsiScanStep(s, len, p, fields, v, np);
      fields := fields + [CsiArg(v)];
      if s[np] != ';' as Byte || |fields| == EscArgSize {
        return fields, np;
      }
      p := np + 1;
    }
    e := p;
  }

  /** Where the string of a string-sequence argument starting at p
      ends: the first ';' or NUL at or after p; the NUL at len bounds it. */
  function NextStop(s: seq<Byte>, len: nat, p: nat): (q: nat)
    requires p <= len < |s| && s[len] == 0
    ensures p <= q <= len && (s[q] == ';' as Byte || s[q] == 0)
    decreases len - p
  {
    if s[p] == ';' as Byte || s[p] == 0 then p else NextStop(s, len, p + 1)
  }

  /** No ';' and no NUL lies between p and NextStop(s, len, p): it is the
      first stop. */
  lemma {:induction false} NextStopFirst(s: seq<Byte>, len: nat, p: nat)
    requires p <= len < |s| && s[len] == 0
    ensures forall k :: p <= k < NextStop(s, len, p) ==> s[k] != ';' as Byte && s[k] != 0
    decreases len - p
  {
    if s[p] != ';' as Byte && s[p] != 0 {
      NextStopFirst(s, len, p + 1);
    }
  }

  /** The inner loop of strparse: the offset of the first ';' or NUL at
      or after p. */
  method FindStop(s: seq<Byte>, len: nat, p: nat) returns (q: nat)
    requires p <= len < |s| && s[len] == 0
    ensures q == NextStop(s, len, p)
  {
    q := p;
    while s[q] != ';' as Byte && s[q] != 0
      invariant p <= q <= len && NextStop(s, len, p) == NextStop(s, len, q)
      decreases len - q
    {
      q := q + 1;
    }
  }

  /** The strparse loop from p on, with the argument offsets acc
      already recorded: each argument starts at p and ends at the next ';'
      or NUL; a ';' is overwritten with NUL and the loop goes on while
      fewer than XELT_SIZE_STR_ARG arguments are recorded. The result is
      every offset recorded and the buffer as the loop leaves it. */
  function StrScan(s: seq<Byte>, len: nat, p: nat, acc: seq<nat>): (r: (seq<nat>, seq<Byte>))
    requires p <= len < |s| && s[len] == 0 && |acc| <= StrArgSize
    ensures |r.0| <= StrArgSize && |r.1| == |s| && r.1[len] == 0
    decreases StrArgSize - |acc|
  {
    if |acc| == StrArgSize then (acc, s)
    else
      var q := NextStop(s, len, p);
      if s[q] == 0 then (acc + [p], s)
      else StrScan(s[q := 0], len, q + 1, acc + [p])
  }

  /** Every argument offset strparse records lies within the string. */
  lemma {:induction false} StrScanBounded(s: seq<Byte>, len: nat, p: nat, acc: seq<nat>)
    requires p <= len < |s| && s[len] == 0 && |acc| <= StrArgSize
    requires forall i :: 0 <= i < |acc| ==> acc[i] <= len
    ensures forall i :: 0 <= i < |StrScan(s, len, p, acc).0| ==> StrScan(s, len, p, acc).0[i] <= len
    decreases StrArgSize - |acc|
  {
    if |acc| < StrArgSize {
      var q := NextStop(s, len, p);
      if s[q] != 0 {
        StrScanBounded(s[q := 0], len, q + 1, acc + [p]);
      }
    }
  }

  /** One turn of the csiparse loop: strtol read v and stopped at np. */
  lemma CsiScanStep(s: seq<Byte>, len: nat, p: nat, acc: seq<int>, v: int, np: nat)
    requires p < len < |s| && s[len] == 0 && |acc| < EscArgSize
    requires (v, np) == StrToL(s, p)
    ensures np <= len
    ensures CsiScan(s, len, p, acc)
      == if s[np] != ';' as Byte || |acc| + 1 == EscArgSize then (acc + [CsiArg(v)], np)
         else CsiScan(s, len, np + 1, acc + [CsiArg(v)])
  {
    StrToLStopsAtNul(s, p, len);
  }

  /** One turn of the strparse loop: the argument at p ends at q. */
  lemma StrScanStep(s: seq<Byte>, len: nat, p: nat, acc: seq<nat>, q: nat)
    requires p <= len < |s| && s[len] == 0 && |acc| < StrArgSize
    requires p <= q < |s| && (s[q] == ';' as Byte || s[q] == 0)
    requires forall k :: p <= k < q ==> s[k] != ';' as Byte && s[k] != 0
    ensures q <= len
    ensures StrScan(s, len, p, acc)
      == if s[q] == 0 then (acc + [p], s) else StrScan(s[q := 0], len, q + 1, acc + [p])
  {
    var q' := NextStop(s, len, p);
    NextStopFirst(s, len, p);
    assert !(q' < q) && !(q < q');
  }

  /** The fields already stored stay in place and, while bytes remain,
      the field at p is stored after them. */
  lemma {:induction false} CsiScanPrefix(s: seq<Byte>, len: nat, p: nat, acc: seq<int>)
    requires len < |s| && s[len] == 0 && p < |s| && p <= len + 1 && |acc| < EscArgSize
    ensures var r := CsiScan(s, len, p, acc).0;
      |acc| <= |r| && r[..|acc|] == acc
      && (p < len ==> |acc| < |r| && r[|acc|] == CsiArg(StrToL(s, p).0))
    decreases len + 1 - p
  {
    if p < len {
      var (v, np) := StrToL(s, p);
      CsiScanStep(s, len, p, acc, v, np);
      if s[np] == ';' as Byte && |acc| + 1 < EscArgSize {
        CsiScanPrefix(s, len, np + 1, acc + [CsiArg(v)]);
        var r := CsiScan(s, len, np + 1, acc + [CsiArg(v)]).0;
        assert r[..|acc| + 1][..|acc|] == r[..|acc|];
      }
    }
  }

  /** An empty field, one that starts with the ';' or the final byte,
      is stored as 0. */
  lemma CsiEmptyField(s: seq<Byte>, len: nat, p: nat, acc: seq<int>)
    requires len < |s| && s[len] == 0 && p < len && |acc| < EscArgSize
    requires !(IsSpace(s[p]) || IsDigit(s[p]) || s[p] == '-' as Byte || s[p] == '+' as Byte)
    ensures var r := CsiScan(s, len, p, acc).0; |acc| < |r| && r[|acc|] == 0
  {
    StrToLEmpty(s, p);
    CsiScanPrefix(s, len, p, acc);
  }

  /** A run of digits too large for a C long is stored as -1. */
  lemma CsiOverflowField(s: seq<Byte>, len: nat, p: nat, acc: seq<int>)
    requires len < |s| && s[len] == 0 && p < len && |acc| < EscArgSize
    requires IsDigit(s[p]) && DigitsValue(s, p, DigitsEnd(s, p)) >= LongMax
    ensures var r := CsiScan(s, len, p, acc).0; |acc| < |r| && r[|acc|] == -1
  {
    StrToLDigits(s, p);
    CsiScanPrefix(s, len, p, acc);
  }

  /** A run of digits that fits in a C int is stored as its value. */
  lemma CsiNumberField(s: seq<Byte>, len: nat, p: nat, acc: seq<int>)
    requires len < |s| && s[len] == 0 && p < len && |acc| < EscArgSize
    requires IsDigit(s[p]) && DigitsValue(s, p, DigitsEnd(s, p)) < 0x8000_0000
    ensures var r := CsiScan(s, len, p, acc).0;
      |acc| < |r| && r[|acc|] == DigitsValue(s, p, DigitsEnd(s, p))
  {
    StrToLDigits(s, p);
    CsiScanPrefix(s, len, p, acc);
  }

  /** Every string sequence with bytes yields at least one argument, the
      first starting at p, and the offsets already recorded stay. */
  lemma {:induction false} StrScanPrefix(s: seq<Byte>, len: nat, p: nat, acc: seq<nat>)
    requires p <= len < |s| && s[len] == 0 && |acc| < StrArgSize
    ensures var r := StrScan(s, len, p, acc).0;
      |acc| < |r| && r[..|acc|] == acc && r[|acc|] == p
    decreases StrArgSize - |acc|
  {
    var q := NextStop(s, len, p);
    if s[q] != 0 && |acc| + 1 < StrArgSize {
      StrScanPrefix(s[q := 0], len, q + 1, acc + [p]);
      var r := StrScan(s[q := 0], len, q + 1, acc + [p]).0;
      assert r[..|acc| + 1][..|acc|] == r[..|acc|];
    }
  }

  /** The C string at offset p: the bytes before the next NUL. */
  function CStr(s: seq<Byte>, p: nat): (r: seq<Byte>)
    requires p <= |s|
    ensures |r| <= |s| - p && r == s[p..p + |r|]
    ensures 0 !in r
    decreases |s| - p
  {
    if p == |s| || s[p] == 0 then [] else [s[p]] + CStr(s, p + 1)
  }

  /** The C string at p runs up to the first NUL. */
  lemma {:induction false} CStrUpTo(s: seq<Byte>, p: nat, q: nat)
    requires p <= q < |s| && s[q] == 0
    requires forall k :: p <= k < q ==> s[k] != 0
    ensures CStr(s, p) == s[p..q]
    decreases q - p
  {
    if p < q {
      CStrUpTo(s, p + 1, q);
    }
  }

  /** The contents of an xelt_CSIEscape. */
  datatype CsiRec = CsiRec(buf: seq<Byte>, len: int, priv: bool, arg: seq<int>,
                           narg: int, mode0: Byte, mode1: Byte)

  predicate CsiWf(c: CsiRec)
  {
    |c.buf| == EscBufSize && |c.arg| == EscArgSize
    && 0 <= c.len < EscBufSize && 0 <= c.narg <= EscArgSize
  }

  /** csireset: every byte of the record is zero. */
  function CsiZero(): (c: CsiRec)
    ensures CsiWf(c) && c.len == 0 && c.narg == 0 && !c.priv
  {
    CsiRec(seq(EscBufSize, _ => 0), 0, false, seq(EscArgSize, _ => 0), 0, 0, 0)
  }

  /** csiparse on a record: a leading '?' sets priv; the buffer is
      NUL-terminated at len; the fields are read with strtol; the byte
      where reading stopped is the final byte, and the one after it, if
      any, the intermediate byte. The arguments past narg keep their
      values. */
  function CsiParse(c: CsiRec): (r: CsiRec)
    requires CsiWf(c)
    ensures CsiWf(r) && r.len == c.len
    ensures r.priv == (c.priv || c.buf[0] == '?' as Byte)
    ensures r.buf == c.buf[c.len := 0]
  {
    var s := c.buf[c.len := 0];
    var p := if c.buf[0] == '?' as Byte then 1 else 0;
    var (fields, e) := CsiScan(s, c.len, p, []);
    c.(buf := s, priv := c.priv || c.buf[0] == '?' as Byte,
       arg := fields + c.arg[|fields|..], narg := |fields|,
       mode0 := s[e], mode1 := if e + 1 < c.len then s[e + 1] else 0)
  }

  /** One byte appended to the CSI buffer. */
  function CsiPush(c: CsiRec, b: Byte): (r: CsiRec)
    requires CsiWf(c) && c.len + 1 < EscBufSize
    ensures CsiWf(r) && r.len == c.len + 1 && r.buf[..c.len] == c.buf[..c.len] && r.buf[c.len] == b
  {
    c.(buf := c.buf[c.len := b], len := c.len + 1)
  }

  /** xelt_CSIEscape: ESC '[' [[ [<priv>] <arg> [;]] <mode> [<mode>]]. */
  class CsiEscape {
    const buf: array<Byte>
    var len: int
    var priv: bool
    const arg: array<int>
    var narg: int
    var mode0: Byte
    var mode1: Byte

    ghost predicate Valid()
      reads this
    {
      buf.Length == EscBufSize && arg.Length == EscArgSize
      && 0 <= len < EscBufSize && 0 <= narg <= EscArgSize
    }

    /** The record's contents as a value. */
    ghost function Rec(): CsiRec
      reads this, buf, arg
    {
      CsiRec(buf[..], len, priv, arg[..], narg, mode0, mode1)
    }

    /** A zeroed buffer, as the static storage of the C global starts. */
    constructor ()
      ensures Valid() && fresh(buf) && fresh(arg)
      ensures Rec() == CsiZero()
    {
      buf := new Byte[EscBufSize](_ => 0);
      arg := new int[EscArgSize](_ => 0);
      len := 0;
      narg := 0;
      priv := false;
      mode0, mode1 := 0, 0;
    }

    /** csireset: the whole record is zeroed. */
    method Reset()
      requires Valid()
      modifies this, buf, arg
      ensures Valid() && Rec() == CsiZero()
    {
      forall i | 0 <= i < buf.Length {
        buf[i] := 0;
      }
      forall i | 0 <= i < arg.Length {
        arg[i] := 0;
      }
      len, narg, priv := 0, 0, false;
      mode0, mode1 := 0, 0;
    }

    /** csiescseq.buf[csiescseq.len++] = b. */
    method Push(b: Byte)
      requires Valid() && len + 1 < EscBufSize
      modifies this`len, buf
      ensures Valid() && Rec() == CsiPush(old(Rec()), b)
    {
      buf[len] := b;
      len := len + 1;
    }

    /** The stores of csiparse into arg, in one step. */
    method StoreArgs(fields: seq<int>)
      requires Valid() && |fields| <= EscArgSize
      modifies arg
      ensures arg[..] == fields + old(arg[..])[|fields|..]
    {
      forall i | 0 <= i < |fields| {
        arg[i] := fields[i];
      }
      assert arg[..] == fields + old(arg[..])[|fields|..];
    }

    /** csiparse. */
    method Parse()
      requires Valid()
      modifies this`narg, this`priv, this`mode0, this`mode1, buf, arg
      ensures Valid() && Rec() == CsiParse(old(Rec()))
    {
      var p := 0;
      if buf[0] == '?' as Byte {
        priv := true;
        p := 1;
      }
      buf[len] := 0;
      var s := buf[..];
      var fields, e := ScanFields(s, len, p);
      StoreArgs(fields);
      narg := |fields|;
      mode0 := s[e];
      mode1 := if e + 1 < len then s[e + 1] else 0;
    }
  }

  /** The contents of an xelt_STREscape; the argument pointers are
      offsets into buf and narg is |args|. */
  datatype StrRec = StrRec(kind: Byte, buf: seq<Byte>, len: int, args: seq<nat>)

  predicate StrWf(s: StrRec)
  {
    |s.buf| == StrBufSize && 0 <= s.len < StrBufSize
    && |s.args| <= StrArgSize && (forall i :: 0 <= i < |s.args| ==> s.args[i] <= s.len)
  }

  /** strreset: every byte of the record is zero, every pointer NULL. */
  function StrZero(): (s: StrRec)
    ensures StrWf(s) && s.len == 0 && s.args == []
  {
    StrRec(0, seq(StrBufSize, _ => 0), 0, [])
  }

  /** strparse on a record: the buffer is NUL-terminated at len; an
      empty string has no arguments; otherwise the arguments are those
      StrScan finds, with each ';' after one overwritten with NUL. */
  function StrParse(s: StrRec): (r: StrRec)
    requires StrWf(s)
    ensures StrWf(r) && r.len == s.len && r.kind == s.kind
    ensures r.args == [] <==> s.len == 0 || s.buf[0] == 0
    ensures r.args != [] ==> r.args[0] == 0
  {
    var b := s.buf[s.len := 0];
    if b[0] == 0 then s.(buf := b, args := [])
    else
      StrScanBounded(b, s.len, 0, []);
      StrScanPrefix(b, s.len, 0, []);
      var (a, b') := StrScan(b, s.len, 0, []);
      s.(buf := b', args := a)
  }

  /** The bytes c appended to the STR buffer. */
  function StrAppend(s: StrRec, c: seq<Byte>): (r: StrRec)
    requires StrWf(s) && s.len + |c| < StrBufSize
    ensures StrWf(r) && r.len == s.len + |c| && r.buf[s.len..r.len] == c
  {
    s.(buf := s.buf[..s.len] + c + s.buf[s.len + |c|..], len := s.len + |c|)
  }

  /** The i-th argument string of a parsed record; NULL past the
      recorded arguments. */
  function StrArg(s: StrRec, i: nat): (r: Option<seq<Byte>>)
    requires StrWf(s)
    ensures r.Some? <==> i < |s.args|
  {
    if i < |s.args| then Some(CStr(s.buf, s.args[i])) else None
  }

  /** xelt_STREscape: ESC type [[ [<priv>] <arg> [;]] <mode>] ESC '\'. */
  class StrEscape {
    var kind: Byte
    const buf: array<Byte>
    var len: int
    var args: seq<nat>

    ghost predicate Valid()
      reads this
    {
      buf.Length == StrBufSize && 0 <= len < StrBufSize
      && |args| <= StrArgSize && (forall i :: 0 <= i < |args| ==> args[i] <= len)
    }

    /** The record's contents as a value. */
    ghost function Rec(): StrRec
      reads this, buf
    {
      StrRec(kind, buf[..], len, args)
    }

    constructor ()
      ensures Valid() && fresh(buf)
      ensures Rec() == StrZero()
    {
      buf := new Byte[StrBufSize](_ => 0);
      kind := 0;
      len := 0;
      args := [];
    }

    /** strreset. */
    method Reset()
      requires Valid()
      modifies this, buf
      ensures Valid() && Rec() == StrZero()
    {
      forall i | 0 <= i < buf.Length {
        buf[i] := 0;
      }
      kind, len, args := 0, 0, [];
    }

    /** memmove(&strescseq.buf[strescseq.len], c, |c|); len += |c|. */
    method Append(c: seq<Byte>)
      requires Valid() && len + |c| < StrBufSize
      modifies this`len, buf
      ensures Valid() && Rec() == StrAppend(old(Rec()), c)
    {
      forall i | 0 <= i < |c| {
        buf[len + i] := c[i];
      }
      len := len + |c|;
      assert buf[..] == old(buf[..])[..old(len)] + c + old(buf[..])[old(len) + |c|..];
    }

    /** strparse: the buffer is NUL-terminated at len; an empty string
        has no arguments; otherwise each argument starts at the
        beginning or after a ';', which is overwritten with NUL, until the
        NUL or XELT_SIZE_STR_ARG arguments. */
    method Parse()
      requires Valid()
      modifies this`args, buf
      ensures Valid() && Rec() == StrParse(old(Rec()))
    {
      args := [];
      buf[len] := 0;
      if buf[0] != 0 {
        Split();
      }
    }

    /** The loop of strparse over a NUL-terminated buffer. */
    method Split()
      requires Valid() && buf[len] == 0
      modifies this`args, buf
      ensures Valid() && (args, buf[..]) == StrScan(old(buf[..]), len, 0, [])
    {
      StrScanBounded(buf[..], len, 0, []);
      args := [];
      var p: nat := 0;
      while |args| < StrArgSize
        invariant buf.Length == StrBufSize && p <= len
        invariant |args| <= StrArgSize && buf[len] == 0
        invariant StrScan(old(buf[..]), len, 0, []) == StrScan(buf[..], len, p, args)
        decreases StrArgSize - |args|
      {
        var b := buf[..];
        var p0 := p;
        p := FindStop(b, len, p0);
        args := args + [p0];
        if buf[p] == 0 {
          return;
        }
        assert p < len;
        buf[p] := 0;
        assert buf[..] == b[p := 0];
        p := p + 1;
      }
    }
  }
}
