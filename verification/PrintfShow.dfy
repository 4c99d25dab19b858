/** Directives written out: reading a directive back gives the flags, width, precision and size
    that were written, and arguments in place of numbers mean the same. */
module PrintfShow {
  import opened Arith
  import opened PrintfText
  import opened PrintfFormat
  import opened PrintfNumbers

  // ----- writing -----

  function Decimal(n: nat): (s: string) {
    if n == 0 then "" else DigitsOf(n, 10, false, NTOA)
  }

  function FlagText(present: bool, c: char): (s: string) {
    if present then [c] else ""
  }

  function FlagsText(fl: Flags): (s: string) {
    FlagText(fl.zero, '0')
      + (FlagText(fl.left, '-') + (FlagText(fl.plus, '+') + (FlagText(fl.space, ' ') + FlagText(fl.hash, '#'))))
  }

  function PrecisionText(prec: Option<nat>): (s: string) {
    if prec.Some? then "." + Decimal(prec.value) else ""
  }

  function SizeText(size: Size): (s: string) {
    match size
    case Plain => ""
    case Short => "h"
    case Char => "hh"
    case Long => "l"
    case LongLong => "ll"
  }

  function Show(d: Directive): (s: string) {
    FlagsText(d.fl) + (Decimal(d.width) + (PrecisionText(d.prec) + SizeText(d.size)))
  }

  predicate IsFlag(c: char) {
    c == '0' || c == '-' || c == '+' || c == ' ' || c == '#'
  }

  /** What follows a directive: not a character that could belong to it. */
  predicate EndsDirective(t: string) {
    t != "" && !IsFlag(t[0]) && !IsDigit(t[0]) && t[0] !in "*.lhtjz"
  }

  // ----- reading -----

  lemma ReadFlag(present: bool, c: char, t: string, fl: Flags)
    requires IsFlag(c)
    ensures ReadFlags(FlagText(present, c) + t, fl) == ReadFlags(t, if !present then fl
      else if c == '0' then fl.(zero := true)
      else if c == '-' then fl.(left := true)
      else if c == '+' then fl.(plus := true)
      else if c == ' ' then fl.(space := true)
      else fl.(hash := true))
  {
    var s := FlagText(present, c) + t;
    if present {
      assert s[1..] == t;
    } else {
      assert s == t;
    }
  }

  lemma FlagsRoundTrip(fl: Flags, t: string)
    requires t == "" || !IsFlag(t[0])
    ensures ReadFlags(FlagsText(fl) + t, NO_FLAGS) == (fl, t)
  {
    hide ReadFlags, FlagText;
    var t4 := FlagText(fl.hash, '#') + t;
    var t3 := FlagText(fl.space, ' ') + t4;
    var t2 := FlagText(fl.plus, '+') + t3;
    var t1 := FlagText(fl.left, '-') + t2;
    assert FlagsText(fl) + t == FlagText(fl.zero, '0') + t1;
    var f0 := NO_FLAGS.(zero := fl.zero);
    var f1 := f0.(left := fl.left);
    var f2 := f1.(plus := fl.plus);
    var f3 := f2.(space := fl.space);
    ReadFlag(fl.zero, '0', t1, NO_FLAGS);
    ReadFlag(fl.left, '-', t2, f0);
    ReadFlag(fl.plus, '+', t3, f1);
    ReadFlag(fl.space, ' ', t4, f2);
    ReadFlag(fl.hash, '#', t, f3);
    FlagsDone(t, fl);
  }

  lemma FlagsDone(t: string, fl: Flags)
    requires t == "" || !IsFlag(t[0])
    ensures ReadFlags(t, fl) == (fl, t)
  {
  }

  /** What a number is when more digits are read behind it. */
  function Accumulated(s: string, n: nat): (m: nat)
    requires AllDigits(s, 10)
  {
    if s == "" then n else (Accumulated(s[..|s| - 1], n) * 10 + DigitValue(s[|s| - 1])) % U32
  }

  lemma DecimalDigit(c: char)
    ensures DigitValue(c) < 10 <==> IsDigit(c)
    ensures IsDigit(c) ==> DigitValue(c) == (c - '0') as nat
  {
  }

  lemma {:induction false} ReadDigits(s: string, t: string, n: nat)
    requires AllDigits(s, 10)
    ensures ReadDecimal(s + t, n) == ReadDecimal(t, Accumulated(s, n))
    decreases |s|
  {
    if s == "" {
      assert s + t == t;
    } else {
      var k := |s| - 1;
      DecimalDigit(s[k]);
      assert s + t == s[..k] + ([s[k]] + t);
      ReadDigits(s[..k], [s[k]] + t, n);
      assert ([s[k]] + t)[1..] == t;
    }
  }

  lemma {:induction false} AccumulatedIs(s: string)
    requires AllDigits(s, 10)
    ensures Accumulated(s, 0) == NumberOf(s, 10) % U32
  {
    if s != "" {
      AccumulatedIs(s[..|s| - 1]);
      ModTimes(NumberOf(s[..|s| - 1], 10), DigitValue(s[|s| - 1]));
    }
  }

  lemma ModTimes(a: nat, d: nat)
    ensures (a % U32 * 10 + d) % U32 == (a * 10 + d) % U32
  {
  }

  lemma DecimalIs(n: nat)
    requires n < U32
    ensures AllDigits(Decimal(n), 10) && NumberOf(Decimal(n), 10) == n
    ensures n == 0 <==> Decimal(n) == ""
    ensures n > 0 ==> IsDigit(Decimal(n)[0]) && Decimal(n)[0] != '0'
  {
    hide DigitsOf, NumberOf, Power;
    NoDigits(10);
    if n > 0 {
      WordBelowPower(n);
      LongValuesFit(n, 10);
      DigitsRoundTrip(n, 10, false, NTOA);
      DigitsComplete(n, 10, false, NTOA);
      FirstDigit(n, 10, false, NTOA);
      DecimalDigit(Decimal(n)[0]);
    }
  }

  lemma WordBelowPower(n: nat)
    requires n < U32
    ensures n < Pow2(64)
  {
    hide Pow2;
    Pow2Values();
    Pow2Grows(32, 64);
  }

  lemma DecimalRoundTrip(n: nat, t: string)
    requires n < U32 && (t == "" || !IsDigit(t[0]))
    ensures ReadDecimal(Decimal(n) + t, 0) == (n, t)
  {
    hide Decimal, NumberOf, AllDigits, Accumulated;
    DecimalIs(n);
    ReadDigits(Decimal(n), t, 0);
    AccumulatedIs(Decimal(n));
  }

  lemma StartsWith(s: string, t: string)
    ensures s != "" ==> s + t != "" && (s + t)[0] == s[0]
    ensures s == "" ==> s + t == t
    ensures s != "" ==> (s + t)[1..] == s[1..] + t
  {
  }

  lemma WidthRoundTrip(n: nat, t: string, fl: Flags, args: seq<Arg>)
    requires n < U32 && t != "" && !IsDigit(t[0]) && t[0] != '*'
    ensures ReadWidth(Decimal(n) + t, fl, args) == Read((fl, n), t, args)
  {
    hide Decimal, ReadDecimal, AllDigits;
    DecimalIs(n);
    StartsWith(Decimal(n), t);
    DecimalRoundTrip(n, t);
  }

  lemma PrecisionRoundTrip(prec: Option<nat>, t: string, args: seq<Arg>)
    requires PrecOf(prec) < U32 && t != "" && !IsDigit(t[0]) && t[0] != '*' && t[0] != '.'
    ensures ReadPrecision(PrecisionText(prec) + t, args) == Read(prec, t, args)
  {
    hide Decimal, ReadDecimal, AllDigits;
    if prec.Some? {
      PointRead(prec.value, t, args);
    } else {
      assert "" + t == t;
    }
  }

  lemma PointRead(n: nat, t: string, args: seq<Arg>)
    requires n < U32 && t != "" && !IsDigit(t[0]) && t[0] != '*'
    ensures ReadPrecision("." + Decimal(n) + t, args) == Read(Some(n), t, args)
  {
    hide Decimal, ReadDecimal, AllDigits, NumberOf, IsDigit;
    var f, g := "." + Decimal(n) + t, Decimal(n) + t;
    DecimalIs(n);
    StartsWith(Decimal(n), t);
    assert f[0] == '.' && f[1..] == g && f[1] == g[0];
    if n == 0 {
      assert g == t;
    } else {
      DigitNotStar(g[0]);
      DecimalRoundTrip(n, t);
    }
  }

  lemma DigitNotStar(c: char)
    requires IsDigit(c)
    ensures c != '*' && c != '.'
  {
  }

  lemma SizeRoundTrip(size: Size, t: string)
    requires EndsDirective(t)
    ensures ReadSize(SizeText(size) + t) == (size, t)
  {
    var f := SizeText(size) + t;
    match size
    case Plain => assert f == t;
    case Short => assert f[1] == t[0] && f[1..] == t;
    case Char => assert f[2..] == t;
    case Long => assert f[1] == t[0] && f[1..] == t;
    case LongLong => assert f[2..] == t;
  }

  /** How the parts of a directive begin. */
  lemma PartsBegin(d: Directive, t: string)
    requires d.width < U32 && EndsDirective(t)
    ensures var s := SizeText(d.size) + t;
      var p := PrecisionText(d.prec) + s;
      var w := Decimal(d.width) + p;
      && s != "" && !IsDigit(s[0]) && s[0] != '*' && s[0] != '.' && !IsFlag(s[0])
      && p != "" && !IsDigit(p[0]) && p[0] != '*' && !IsFlag(p[0])
      && w != "" && !IsFlag(w[0])
  {
    hide Decimal, AllDigits;
    DecimalIs(d.width);
    StartsWith(SizeText(d.size), t);
    var s := SizeText(d.size) + t;
    StartsWith(PrecisionText(d.prec), s);
    StartsWith(Decimal(d.width), PrecisionText(d.prec) + s);
  }

  /** Reading a directive that was written out gives it back, and leaves what follows. */
  lemma DirectiveRoundTrip(d: Directive, t: string, args: seq<Arg>)
    requires d.width < U32 && PrecOf(d.prec) < U32 && EndsDirective(t)
    ensures ReadDirective(Show(d) + t, args) == Read(d, t, args)
  {
    hide Decimal, ReadDecimal, AllDigits, FlagsText, PrecisionText, SizeText, ReadFlags, ReadWidth, ReadPrecision,
      ReadSize;
    var s := SizeText(d.size) + t;
    var p := PrecisionText(d.prec) + s;
    var w := Decimal(d.width) + p;
    assert Show(d) + t == FlagsText(d.fl) + w;
    PartsBegin(d, t);
    FlagsRoundTrip(d.fl, w);
    WidthRoundTrip(d.width, p, d.fl, args);
    PrecisionRoundTrip(d.prec, s, args);
    SizeRoundTrip(d.size, t);
  }

  /** A width given as an argument means what the number would mean, with the '-' flag when it is
      negative. */
  lemma WidthArgument(w: int, t: string, fl: Flags, args: seq<Arg>)
    requires -0x8000_0000 <= w < 0x8000_0000 && t != "" && !IsDigit(t[0]) && t[0] != '*'
    ensures var r := ReadWidth(Decimal(if w < 0 then -w else w) + t, fl.(left := fl.left || w < 0), args);
      ReadWidth("*" + t, fl, [Int(w)] + args) == r
  {
    hide Decimal, ReadDecimal;
    SignedIs(w);
    WidthRoundTrip(if w < 0 then -w else w, t, fl.(left := fl.left || w < 0), args);
    assert ("*" + t)[1..] == t && ([Int(w)] + args)[1..] == args;
    assert fl.(left := fl.left) == fl;
  }

  /** A precision given as an argument, a negative one counting as zero. */
  lemma PrecisionArgument(p: int, t: string, args: seq<Arg>)
    requires -0x8000_0000 <= p < 0x8000_0000 && t != "" && !IsDigit(t[0]) && t[0] != '*' && t[0] != '.'
    ensures ReadPrecision(".*" + t, [Int(p)] + args) == ReadPrecision(PrecisionText(Some(Max(p, 0))) + t, args)
  {
    hide Decimal, ReadDecimal;
    SignedIs(p);
    PrecisionRoundTrip(Some(Max(p, 0)), t, args);
    assert (".*" + t)[2..] == t && (".*" + t)[1] == '*' && ([Int(p)] + args)[1..] == args;
  }

  lemma SignedIs(v: int)
    requires -0x8000_0000 <= v < 0x8000_0000
    ensures AsSigned(v, U32) == v
  {
  }
}
