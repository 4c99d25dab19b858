/** The output side of the small printf: _out_buffer, _out_rev, _ntoa_format, _ntoa_long and the
    loop of _vsnprintf, proved to write the text of the format as far as the buffer reaches. */
module Printf {
  import opened Arith
  import opened PrintfText
  import opened PrintfFormat

  /** The output function with its buffer; without a buffer nothing is stored. */
  class Output {
    const buffer: array?<char>
    const maxlen: nat

    /** The buffer at the start, and all characters put out since. */
    ghost const before: string
    ghost var log: string

    ghost predicate Valid()
      reads this, buffer
    {
      buffer != null ==>
        && maxlen <= buffer.Length == |before|
        && forall k :: 0 <= k < buffer.Length ==> buffer[k] == if k < |log| && k < maxlen then log[k] else before[k]
    }

    constructor (buf: array?<char>, count: nat)
      requires buf != null ==> count <= buf.Length
      ensures Valid() && buffer == buf && maxlen == count && log == ""
      ensures buf != null ==> before == buf[..]
    {
      buffer, maxlen, log := buf, count, "";
      before := if buf != null then buf[..] else "";
    }

    /** _out_buffer or _out_null; the indices are 0, 1, 2 and so on, without gaps. */
    method Out(c: char, idx: nat) returns (idx': nat)
      requires Valid() && idx == |log|
      modifies this`log, buffer
      ensures Valid() && log == old(log) + [c] && idx' == |log|
    {
      if buffer != null && idx < maxlen {
        buffer[idx] := c;
      }
      log := log + [c];
      idx' := idx + 1;
    }

    /** The terminating NUL, on the last place of a buffer that is full. */
    method Terminate(idx: nat)
      requires Valid() && idx == |log|
      modifies buffer
      ensures buffer != null && maxlen == 0 ==> buffer[..] == before
      ensures buffer != null && maxlen > 0 ==>
        var k := if idx < maxlen then idx else maxlen - 1;
        buffer[..k] == log[..k] && buffer[k] == 0 as char && buffer[k + 1..] == before[k + 1..]
    {
      if buffer != null {
        var at := if idx < maxlen then idx else maxlen - 1;
        if 0 <= at {
          Terminated(buffer[..], before, log, maxlen);
          ghost var b := buffer[..];
          buffer[at] := 0 as char;
          assert buffer[..] == b[at := 0 as char];
        }
      }
    }
  }

  lemma Terminated(b: seq<char>, before: seq<char>, log: string, maxlen: nat)
    requires 0 < maxlen <= |b| == |before|
    requires forall k :: 0 <= k < |b| ==> b[k] == if k < |log| && k < maxlen then log[k] else before[k]
    ensures var k := if |log| < maxlen then |log| else maxlen - 1;
      var c := b[k := 0 as char]; c[..k] == log[..k] && c[k] == 0 as char && c[k + 1..] == before[k + 1..]
  {
  }

  method Spaces(o: Output, idx0: nat, n: int) returns (idx: nat)
    requires o.Valid() && idx0 == |o.log|
    modifies o`log, o.buffer
    ensures o.Valid() && o.log == old(o.log) + Repeat(' ', n) && idx == |o.log|
  {
    idx := idx0;
    var i := 0;
    assert o.log == o.log + Repeat(' ', 0);
    while i < n
      invariant 0 <= i && (if 0 <= n then i <= n else i == 0) && o.Valid() && idx == |o.log|
      invariant o.log == old(o.log) + Repeat(' ', i)
    {
      idx := o.Out(' ', idx);
      i := i + 1;
    }
  }

  // ----- the scratch buffer of a number, filled from its last digit on -----

  /** What the first len characters of the scratch buffer will look like. */
  function Shown(buf: seq<char>, len: nat): (s: string)
    requires len <= |buf|
    ensures |s| == len
  {
    seq(len, i requires 0 <= i < len => buf[len - 1 - i])
  }

  lemma ShownPush(buf: seq<char>, len: nat, c: char)
    requires len < |buf|
    ensures Shown(buf[len := c], len + 1) == [c] + Shown(buf, len)
  {
  }

  lemma ShownPop(buf: seq<char>, len: nat)
    requires 0 < len <= |buf|
    ensures Shown(buf, len - 1) == Shown(buf, len)[1..]
  {
  }

  method Push(buf: array<char>, len0: nat, c: char) returns (len: nat)
    requires buf.Length == NTOA && len0 < NTOA
    modifies buf
    ensures len == len0 + 1 && Shown(buf[..], len) == [c] + Shown(old(buf[..]), len0)
  {
    ShownPush(buf[..], len0, c);
    buf[len0] := c;
    len := len0 + 1;
  }

  lemma OneMoreZero(k: nat, s: string)
    ensures ['0'] + (Repeat('0', k) + s) == Repeat('0', k + 1) + s
  {
  }

  /** Leading zeros up to a length. */
  method PadZeros(buf: array<char>, len0: nat, n: nat) returns (len: nat)
    requires buf.Length == NTOA && len0 <= NTOA
    modifies buf
    ensures len0 <= len <= NTOA && Shown(buf[..], len) == AtLeast(Shown(old(buf[..]), len0), n)
  {
    hide Shown, Repeat;
    ghost var s0 := Shown(buf[..], len0);
    len := len0;
    NoZeros(s0);
    while len < n && len < NTOA
      invariant len0 <= len <= NTOA && (len > len0 ==> len <= n) && Shown(buf[..], len) == Repeat('0', len - len0) + s0
    {
      OneMoreZero(len - len0, s0);
      len := Push(buf, len, '0');
    }
    ZerosReached(s0, n, len);
  }

  lemma NoZeros(s: string)
    ensures Repeat('0', 0) + s == s
  {
  }

  lemma ZerosReached(s: string, n: nat, len: nat)
    requires |s| <= len <= NTOA && (len >= n || len == NTOA) && (len > |s| ==> len <= n)
    ensures AtLeast(s, n) == Repeat('0', len - |s|) + s
  {
  }

  /** _out_rev. */
  method OutRev(o: Output, idx0: nat, buf: array<char>, len0: nat, width: nat, fl: Flags) returns (idx: nat)
    requires o.Valid() && idx0 == |o.log| && buf != o.buffer && buf.Length == NTOA && len0 <= NTOA
    modifies o`log, o.buffer
    ensures o.Valid() && o.log == old(o.log) + Field(Shown(buf[..], len0), fl, width) && idx == |o.log|
  {
    hide Repeat;
    ghost var s := Shown(buf[..], len0);
    idx := idx0;
    var len := len0;
    if !fl.left && !fl.zero {
      idx := Spaces(o, idx, width - len);
    }
    ghost var front := o.log;
    while len > 0
      invariant 0 <= len <= len0 && o.Valid() && idx == |o.log| && o.log == front + s[..len0 - len]
    {
      len := len - 1;
      idx := o.Out(buf[len], idx);
      assert s[..len0 - len] == s[..len0 - len - 1] + [buf[len]];
    }
    assert s[..len0] == s;
    if fl.left {
      idx := Spaces(o, idx, width - (idx - idx0));
    }
  }

  /** _ntoa_format: leading zeros, to a width that leaves a place for the sign, the '#' prefix and
      the sign, then the whole field. */
  method NtoaFormat(o: Output, idx0: nat, buf: array<char>, len0: nat, negative: bool, base: nat, upper: bool,
                    prec: Option<nat>, width0: nat, fl: Flags) returns (idx: nat)
    requires o.Valid() && idx0 == |o.log| && buf != o.buffer && buf.Length == NTOA && len0 <= NTOA
    modifies o`log, o.buffer, buf
    ensures o.Valid() && idx == |o.log|
    ensures o.log == old(o.log)
                     + Field(NumberText(Shown(old(buf[..]), len0), negative, base, upper, fl, prec, width0), fl, width0)
  {
    hide Shown, Padded, Hashed, Field, SignText;
    ghost var digits := Shown(buf[..], len0);
    var width, len := ZeroWidth(negative, fl, width0), len0;
    if !fl.left {
      len := PadZeros(buf, len, PrecOf(prec));
      if fl.zero {
        len := PadZeros(buf, len, width);
      }
    }
    PaddedByFlags(digits, negative, fl, prec, width0);
    if fl.hash {
      len := Hash(buf, len, base, upper, prec, width);
    }
    ghost var h := Shown(buf[..], len);
    assert "" + h == h;
    len := Sign(buf, len, negative, fl);
    FieldWidth(Shown(buf[..], len), negative, fl, width0);
    idx := OutRev(o, idx0, buf, len, width, fl);
  }

  lemma PaddedByFlags(digits: string, negative: bool, fl: Flags, prec: Option<nat>, width: nat)
    ensures Padded(digits, negative, fl, prec, width) ==
      if fl.left then digits
      else if fl.zero then AtLeast(AtLeast(digits, PrecOf(prec)), ZeroWidth(negative, fl, width))
      else AtLeast(digits, PrecOf(prec))
  {
  }

  /** The sign, when there is room for it. */
  method Sign(buf: array<char>, len0: nat, negative: bool, fl: Flags) returns (len: nat)
    requires buf.Length == NTOA && len0 <= NTOA
    modifies buf
    ensures len <= NTOA
    ensures Shown(buf[..], len) == (if len0 < NTOA then SignText(negative, fl) else "") + Shown(old(buf[..]), len0)
  {
    hide Shown;
    len := len0;
    ghost var h := Shown(buf[..], len);
    assert "" + h == h;
    if len < NTOA {
      if negative {
        len := Push(buf, len, '-');
      } else if fl.plus {
        len := Push(buf, len, '+');
      } else if fl.space {
        len := Push(buf, len, ' ');
      }
    }
  }

  /** Where zeros fill the field, no spaces are put out, so that a smaller width is the same. */
  lemma FieldWidth(s: string, negative: bool, fl: Flags, width: nat)
    ensures Field(s, fl, ZeroWidth(negative, fl, width)) == Field(s, fl, width)
  {
  }

  lemma FieldWithoutHash(s: string, fl: Flags, width: nat)
    ensures Field(s, fl.(hash := false), width) == Field(s, fl, width)
  {
  }

  /** The '#' part of _ntoa_format. */
  method Hash(buf: array<char>, len0: nat, base: nat, upper: bool, prec: Option<nat>, width: nat) returns (len: nat)
    requires buf.Length == NTOA && len0 <= NTOA
    modifies buf
    ensures len <= NTOA && Shown(buf[..], len) == Hashed(Shown(old(buf[..]), len0), base, upper, prec, width)
  {
    hide Shown;
    len := len0;
    if prec.None? && len > 0 && len == width {
      ShownPop(buf[..], len);
      len := len - 1;
      if len > 0 && base == 16 {
        ShownPop(buf[..], len);
        len := len - 1;
      }
    }
    if base == 16 && !upper && len < NTOA {
      len := Push(buf, len, 'x');
    } else if base == 16 && upper && len < NTOA {
      len := Push(buf, len, 'X');
    } else if base == 2 && len < NTOA {
      len := Push(buf, len, 'b');
    }
    if len < NTOA {
      len := Push(buf, len, '0');
    }
  }

  /** The last digit moves from the value to the digits that are done. */
  lemma DigitsMove(value: nat, base: nat, upper: bool, room: nat, s: string, q: nat, r: nat)
    requires 2 <= base <= 36 && 0 < room && q == value / base && r == value % base && r < base && value == q * base + r
    ensures DigitsOf(value, base, upper, room) + s ==
      if q == 0 || room == 1 then [Digit(r, upper)] + s
      else DigitsOf(q, base, upper, room - 1) + ([Digit(r, upper)] + s)
  {
    hide Digit;
    var c := Digit(r, upper);
    if value >= base {
      AtLeastOne(value, base);
      var t := DigitsOf(q, base, upper, room - 1);
      assert t + [c] + s == t + ([c] + s);
    } else {
      BelowOne(value, base);
    }
  }

  lemma AtLeastOne(value: nat, base: nat)
    requires 0 < base <= value
    ensures value / base > 0
  {
  }

  lemma BelowOne(value: nat, base: nat)
    requires value < base
    ensures value / base == 0 && value % base == value
  {
  }

  /** _ntoa_long and _ntoa_long_long. */
  method Ntoa(o: Output, idx0: nat, value0: nat, negative: bool, base: nat, upper: bool,
              prec: Option<nat>, width: nat, fl0: Flags) returns (idx: nat)
    requires o.Valid() && idx0 == |o.log| && 2 <= base <= 36
    modifies o`log, o.buffer
    ensures o.Valid() && idx == |o.log|
    ensures o.log == old(o.log) + IntegerText(value0, negative, base, upper, fl0, prec, width)
  {
    hide Shown, Field, DigitsOf, NumberText;
    var buf := new char[NTOA](_ => ' ');
    var fl := if value0 == 0 then fl0.(hash := false) else fl0;
    var len: nat := 0;
    assert Shown(buf[..], 0) == "";
    if prec.None? || value0 != 0 {
      len := PutDigits(buf, value0, base, upper);
    }
    FieldWithoutHash(NumberText(Shown(buf[..], len), negative, base, upper, fl, prec, width), fl0, width);
    idx := NtoaFormat(o, idx0, buf, len, negative, base, upper, prec, width, fl);
  }

  /** The digit loop of _ntoa_long: the last digit comes first. */
  method PutDigits(buf: array<char>, value0: nat, base: nat, upper: bool) returns (len: nat)
    requires buf.Length == NTOA && 2 <= base <= 36
    modifies buf
    ensures len <= NTOA && Shown(buf[..], len) == DigitsOf(value0, base, upper, NTOA)
  {
    hide Shown, DigitsOf;
    var value: nat := value0;
    len := 0;
    NoneShown(buf[..], DigitsOf(value0, base, upper, NTOA));
    while true
      invariant len < NTOA
      invariant DigitsOf(value0, base, upper, NTOA) == DigitsOf(value, base, upper, NTOA - len) + Shown(buf[..], len)
      decreases NTOA - len
    {
      len, value := PutDigit(buf, len, value, base, upper);
      if value == 0 || len == NTOA {
        return;
      }
    }
  }

  lemma NoneShown(buf: seq<char>, s: string)
    ensures s == s + Shown(buf, 0)
  {
  }

  /** The body of the digit loop. */
  method PutDigit(buf: array<char>, len0: nat, value0: nat, base: nat, upper: bool) returns (len: nat, value: nat)
    requires buf.Length == NTOA && len0 < NTOA && 2 <= base <= 36
    modifies buf
    ensures len == len0 + 1
    ensures DigitsOf(value0, base, upper, NTOA - len0) + Shown(old(buf[..]), len0) ==
      (if value == 0 || len == NTOA then "" else DigitsOf(value, base, upper, NTOA - len)) + Shown(buf[..], len)
  {
    hide Shown, DigitsOf, Digit;
    ghost var q, r := Divide(value0, base);
    DigitsMove(value0, base, upper, NTOA - len0, Shown(buf[..], len0), q, r);
    len := Push(buf, len0, Digit(value0 % base, upper));
    value := value0 / base;
    assert "" + Shown(buf[..], len) == Shown(buf[..], len);
  }

  // ----- reading a directive -----

  lemma Tail(f: string, p: nat)
    requires p < |f|
    ensures f[p..] != "" && f[p..][0] == f[p] && f[p..][1..] == f[p + 1..]
  {
  }

  method ParseFlags(f: string, p0: nat) returns (fl: Flags, p: nat)
    requires p0 <= |f|
    ensures p0 <= p <= |f| && ReadFlags(f[p0..], NO_FLAGS) == (fl, f[p..])
  {
    fl, p := NO_FLAGS, p0;
    var n := true;
    while n
      invariant p0 <= p <= |f|
      invariant ReadFlags(f[p0..], NO_FLAGS) == if n then ReadFlags(f[p..], fl) else (fl, f[p..])
      decreases |f| - p, n
    {
      if p == |f| {
        n := false;
      } else {
        Tail(f, p);
        if f[p] == '0' {
          fl, p := fl.(zero := true), p + 1;
        } else if f[p] == '-' {
          fl, p := fl.(left := true), p + 1;
        } else if f[p] == '+' {
          fl, p := fl.(plus := true), p + 1;
        } else if f[p] == ' ' {
          fl, p := fl.(space := true), p + 1;
        } else if f[p] == '#' {
          fl, p := fl.(hash := true), p + 1;
        } else {
          n := false;
        }
      }
    }
  }

  /** _atoi. */
  method Atoi(f: string, p0: nat) returns (i: nat, p: nat)
    requires p0 <= |f|
    ensures p0 <= p <= |f| && ReadDecimal(f[p0..], 0) == (i, f[p..])
  {
    i, p := 0, p0;
    while p < |f| && IsDigit(f[p])
      invariant p0 <= p <= |f| && ReadDecimal(f[p0..], 0) == ReadDecimal(f[p..], i)
    {
      Tail(f, p);
      i, p := (i * 10 + (f[p] - '0') as nat) % U32, p + 1;
    }
  }

  method ParseWidth(f: string, p0: nat, fl0: Flags, args0: seq<Arg>)
    returns (fl: Flags, width: nat, p: nat, args: seq<Arg>)
    requires p0 <= |f|
    ensures p0 <= p <= |f| && ReadWidth(f[p0..], fl0, args0) == Read((fl, width), f[p..], args)
  {
    hide ReadDecimal, AsSigned;
    fl, width, p, args := fl0, 0, p0, args0;
    if p < |f| {
      Tail(f, p);
      if IsDigit(f[p]) {
        width, p := Atoi(f, p);
      } else if f[p] == '*' {
        var w := AsSigned(IntOf(args), U32);
        if w < 0 {
          fl, width := fl.(left := true), -w;
        } else {
          width := w;
        }
        p, args := p + 1, Others(args);
      }
    }
  }

  method ParsePrecision(f: string, p0: nat, args0: seq<Arg>) returns (prec: Option<nat>, p: nat, args: seq<Arg>)
    requires p0 <= |f|
    ensures p0 <= p <= |f| && ReadPrecision(f[p0..], args0) == Read(prec, f[p..], args)
  {
    hide ReadDecimal, AsSigned;
    prec, p, args := None, p0, args0;
    if p < |f| {
      Tail(f, p);
      if f[p] == '.' {
        prec, p := Some(0), p + 1;
        if p < |f| {
          Tail(f, p);
          if IsDigit(f[p]) {
            var n, q := Atoi(f, p);
            prec, p := Some(n), q;
          } else if f[p] == '*' {
            var n := AsSigned(IntOf(args), U32);
            prec, p, args := Some(if n > 0 then n else 0), p + 1, Others(args);
          }
        }
      }
    }
  }

  method ParseSize(f: string, p0: nat) returns (size: Size, p: nat)
    requires p0 <= |f|
    ensures p0 <= p <= |f| && ReadSize(f[p0..]) == (size, f[p..])
  {
    size, p := Plain, p0;
    if p < |f| {
      Tail(f, p);
      var c := f[p];
      if c == 'l' {
        size, p := Long, p + 1;
        if p < |f| {
          Tail(f, p);
          if f[p] == 'l' {
            size, p := LongLong, p + 1;
          }
        }
      } else if c == 'h' {
        size, p := Short, p + 1;
        if p < |f| {
          Tail(f, p);
          if f[p] == 'h' {
            size, p := Char, p + 1;
          }
        }
      } else if c == 't' || c == 'z' {
        size, p := Long, p + 1;
      } else if c == 'j' {
        size, p := LongLong, p + 1;
      }
    }
  }

  method ParseDirective(f: string, p0: nat, args0: seq<Arg>) returns (d: Directive, p: nat, args: seq<Arg>)
    requires p0 <= |f|
    ensures p0 <= p <= |f| && ReadDirective(f[p0..], args0) == Read(d, f[p..], args)
  {
    hide ReadFlags, ReadWidth, ReadPrecision, ReadSize;
    var fl0, p1 := ParseFlags(f, p0);
    var fl, width, p2, args1 := ParseWidth(f, p1, fl0, args0);
    var prec, p3, args2 := ParsePrecision(f, p2, args1);
    var size, p4 := ParseSize(f, p3);
    d, p, args := Directive(fl, width, prec, size), p4, args2;
  }

  // ----- conversions -----

  /** The characters of a string argument, within a field. */
  method PutString(o: Output, idx0: nat, s: string, prec: Option<nat>, width: nat, left: bool) returns (idx: nat)
    requires o.Valid() && idx0 == |o.log|
    modifies o`log, o.buffer
    ensures o.Valid() && idx == |o.log|
    ensures o.log == old(o.log) + (if left then Truncated(s, prec) + Repeat(' ', width - |Truncated(s, prec)|)
                                   else Repeat(' ', width - |Truncated(s, prec)|) + Truncated(s, prec))
  {
    hide Repeat;
    ghost var t := Truncated(s, prec);
    idx := idx0;
    var l := |s|;
    if prec.Some? {
      l := if l < prec.value then l else prec.value;
    }
    if !left {
      idx := Spaces(o, idx, width - l);
    }
    ghost var front := o.log;
    var p, left0 := 0, PrecOf(prec);
    while p < |s| && (prec.None? || left0 > 0)
      invariant 0 <= p <= l && o.Valid() && idx == |o.log| && o.log == front + t[..p]
      invariant prec.Some? ==> p + left0 == prec.value
    {
      assert t[..p + 1] == t[..p] + [s[p]];
      idx := o.Out(s[p], idx);
      p := p + 1;
      if prec.Some? {
        left0 := left0 - 1;
      }
    }
    assert t[..p] == t;
    if left {
      idx := Spaces(o, idx, width - l);
    }
  }

  /** The switch over the conversion character. */
  method Convert(o: Output, idx0: nat, c: char, d: Directive, args0: seq<Arg>, signedChar: bool)
    returns (idx: nat, args: seq<Arg>)
    requires o.Valid() && idx0 == |o.log| && !IsFloat(c)
    modifies o`log, o.buffer
    ensures o.Valid() && idx == |o.log| && o.log == old(o.log) + Conversion(c, d, args0, signedChar)
    ensures args == AfterConversion(c, args0)
  {
    hide IntegerText, SignedArg, AsUnsigned, Modulus, Repeat;
    args := AfterConversion(c, args0);
    if IsInteger(c) {
      var fl := IntegerFlags(c, d.fl, d.prec);
      if IsSigned(c) {
        var value := SignedArg(d.size, args0, signedChar);
        idx := Ntoa(o, idx0, if value > 0 then value else -value, value < 0, BaseOf(c), c == 'X', d.prec, d.width, fl);
      } else {
        var value := AsUnsigned(IntOf(args0), Modulus(d.size));
        idx := Ntoa(o, idx0, value, false, BaseOf(c), c == 'X', d.prec, d.width, fl);
      }
    } else if c == 'c' {
      idx := PutString(o, idx0, [CharOf(args0)], None, d.width, d.fl.left);
    } else if c == 's' {
      idx := PutString(o, idx0, StrOf(args0), d.prec, d.width, d.fl.left);
    } else if c == 'p' {
      idx := Ntoa(o, idx0, AsUnsigned(IntOf(args0), U32), false, 16, true, d.prec, 8, d.fl.(zero := true));
    } else {
      idx := o.Out(c, idx0);
    }
  }

  // ----- the whole format -----

  lemma RenderStep(f: string, p: nat, args: seq<Arg>, signedChar: bool)
    requires p < |f| && WellFormed(f[p..], args)
    ensures f[p] != '%' ==>
      && WellFormed(f[p + 1..], args)
      && Render(f[p..], args, signedChar) == [f[p]] + Render(f[p + 1..], args, signedChar)
    ensures f[p] == '%' ==>
      var d := ReadDirective(f[p + 1..], args);
      && d.rest != "" && !IsFloat(d.rest[0])
      && WellFormed(d.rest[1..], AfterConversion(d.rest[0], d.args))
      && Render(f[p..], args, signedChar)
         == Conversion(d.rest[0], d.value, d.args, signedChar)
            + Render(d.rest[1..], AfterConversion(d.rest[0], d.args), signedChar)
  {
    hide ReadDirective, Conversion, AfterConversion, IsFloat, IsSigned;
    Tail(f, p);
  }

  /** The loop of _vsnprintf. */
  method Format(o: Output, f: string, args0: seq<Arg>, signedChar: bool) returns (idx: nat)
    requires o.Valid() && o.log == "" && WellFormed(f, args0)
    modifies o`log, o.buffer
    ensures o.Valid() && idx == |o.log| && o.log == Render(f, args0, signedChar)
  {
    hide WellFormed, Render, ReadDirective, Conversion, AfterConversion, IsFloat, IsSigned;
    ghost var whole := Render(f, args0, signedChar);
    var p: nat := 0;
    idx := 0;
    var args := args0;
    assert f[0..] == f && "" + whole == whole;
    while p < |f|
      invariant p <= |f| && o.Valid() && idx == |o.log|
      invariant WellFormed(f[p..], args) && whole == o.log + Render(f[p..], args, signedChar)
      decreases |f| - p
    {
      RenderStep(f, p, args, signedChar);
      if f[p] != '%' {
        idx := o.Out(f[p], idx);
        p := p + 1;
      } else {
        var d, q, args1 := ParseDirective(f, p + 1, args);
        assert q < |f|;
        Tail(f, q);
        idx, args := Convert(o, idx, f[q], d, args1, signedChar);
        p := q + 1;
      }
    }
    NothingLeft(args, signedChar);
    assert f[p..] == "" && o.log + "" == o.log;
  }

  lemma NothingLeft(args: seq<Arg>, signedChar: bool)
    ensures WellFormed("", args) && Render("", args, signedChar) == ""
  {
  }

  /** snprintf: the returned length is that of the whole text, whatever the size of the buffer;
      the buffer holds as much of the text as fits in front of a NUL, and nothing else changes. */
  method Snprintf(buffer: array?<char>, count: nat, f: string, args: seq<Arg>, signedChar: bool)
    returns (n: nat)
    requires WellFormed(f, args) && (buffer != null ==> count <= buffer.Length)
    modifies buffer
    ensures n == |Render(f, args, signedChar)|
    ensures buffer != null && count == 0 ==> buffer[..] == old(buffer[..])
    ensures buffer != null && count > 0 ==>
      var k := if n < count then n else count - 1;
      && buffer[..k] == Render(f, args, signedChar)[..k] && buffer[k] == 0 as char
      && buffer[k + 1..] == old(buffer[k + 1..])
  {
    hide WellFormed, Render;
    var o := new Output(buffer, count);
    n := Format(o, f, args, signedChar);
    o.Terminate(n);
  }
}
