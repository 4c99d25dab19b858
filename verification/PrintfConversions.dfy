/** What each conversion of the small printf prints: the base of x, X, o, b, u, d and i, the case of
    the letters, where sign, zeros and spaces go, and the fields of c, s and p. */
module PrintfConversions {
  import opened Arith
  import opened PrintfText
  import opened PrintfFormat
  import opened PrintfNumbers
  import opened PrintfPrefix
  import opened PrintfLength
  import opened PrintfShow

  // ----- where things go -----

  /** Without '#': spaces in front unless the field is aligned to the left or filled with zeros,
      the sign, zeros, the digits, and spaces behind in a field aligned to the left. */
  lemma IntegerLayout(value: nat, negative: bool, base: nat, upper: bool, fl: Flags, prec: Option<nat>, width: nat)
    returns (a: nat, z: nat, digits: string, b: nat)
    requires 2 <= base <= 36 && !fl.hash
    ensures var sign := if negative then "-" else if fl.plus then "+" else if fl.space then " " else "";
      IntegerText(value, negative, base, upper, fl, prec, width)
      == Repeat(' ', a) + ((if z + |digits| < 32 then sign else "") + (Repeat('0', z) + digits)) + Repeat(' ', b)
    ensures (fl.left || fl.zero ==> a == 0) && (!fl.left ==> b == 0) && (fl.left ==> z == 0)
    ensures z > 0 ==> z + |digits| <= PrecOf(prec) || (fl.zero && z + |digits| <= width)
    ensures |digits| <= 32 && AllDigits(digits, base) && (value < Power(base, 32) ==> NumberOf(digits, base) == value)
    ensures forall i :: 0 <= i < |digits| ==> CaseOk(digits[i], upper)
  {
    hide NumberText, ValueDigits, NumberOf, AllDigits, Power, PaddedLength, IntegerText, CountOf, CaseOk, Field;
    digits := ValueDigits(value, base, upper, prec);
    ValueDigitsAre(value, base, upper, prec);
    ValueCase(value, base, upper, prec);
    IntegerTextIs(value, negative, base, upper, fl, prec, width);
    z := NumberIs(digits, negative, base, upper, fl, prec, width);
    ZerosAre(|digits|, negative, fl, prec, width);
    a, b := FieldIs(NumberText(digits, negative, base, upper, fl, prec, width), fl, width);
  }

  lemma ZerosAre(d: nat, negative: bool, fl: Flags, prec: Option<nat>, width: nat)
    requires d <= NTOA
    ensures var n := PaddedLength(d, negative, fl, prec, width);
      && (fl.left ==> n == d) && (n > d ==> n <= PrecOf(prec) || (fl.zero && n <= width))
  {
  }

  // ----- the case of letters -----

  /** A decimal digit or a letter of the right case. */
  predicate CaseOk(c: char, upper: bool) {
    '0' <= c <= '9' || (if upper then 'A' <= c <= 'Z' else 'a' <= c <= 'z')
  }

  lemma {:induction false} DigitsCase(value: nat, base: nat, upper: bool, room: nat)
    requires 2 <= base <= 36
    ensures forall i :: 0 <= i < |DigitsOf(value, base, upper, room)| ==>
      CaseOk(DigitsOf(value, base, upper, room)[i], upper)
    decreases room
  {
    DigitsStep(value, base, upper, room);
    if room > 0 && value >= base {
      DigitsCase(value / base, base, upper, room - 1);
    }
  }

  lemma ValueCase(value: nat, base: nat, upper: bool, prec: Option<nat>)
    requires 2 <= base <= 36
    ensures forall i :: 0 <= i < |ValueDigits(value, base, upper, prec)| ==>
      CaseOk(ValueDigits(value, base, upper, prec)[i], upper)
  {
    DigitsCase(value, base, upper, NTOA);
  }

  // ----- integers -----

  /** The number of values of an argument: hh, h, none or l, ll. */
  function Values(size: Size): (m: nat) {
    match size
    case Char => 0x100
    case Short => 0x1_0000
    case Plain => 0x1_0000_0000
    case Long => 0x1_0000_0000
    case LongLong => 0x1_0000_0000_0000_0000
  }

  /** The flags that an unsigned conversion obeys. */
  function UnsignedFlags(d: Directive, hash: bool): (fl: Flags) {
    Flags(d.fl.zero && d.prec.None?, d.fl.left, false, false, hash)
  }

  lemma UnsignedIs(c: char, d: Directive, args: seq<Arg>, signedChar: bool, base: nat)
    requires ((c == 'x' || c == 'X') && base == 16) || (c == 'o' && base == 8) || (c == 'b' && base == 2)
      || (c == 'u' && base == 10)
    ensures Conversion(c, d, args, signedChar) == IntegerText(IntOf(args) % Values(d.size), false, base, c == 'X',
              UnsignedFlags(d, d.fl.hash && c != 'u'), d.prec, d.width)
  {
    hide IntegerText;
  }

  /** Without '#', x and X are read back in base 16, o in base 8, b in base 2 and u in base 10: the
      argument modulo the number of values of its size; in base 2 from 2^32 on it is not. */
  lemma UnsignedRoundTrip(c: char, d: Directive, args: seq<Arg>, signedChar: bool)
    requires ((c == 'x' || c == 'X' || c == 'o' || c == 'b') && !d.fl.hash) || c == 'u'
    ensures var base := if c == 'x' || c == 'X' then 16 else if c == 'o' then 8 else if c == 'b' then 2 else 10;
      var value := IntOf(args) % Values(d.size);
      ReadNumber(Conversion(c, d, args, signedChar), base) == Some((false, value))
      <==> (c == 'b' ==> value < 0x1_0000_0000)
  {
    hide IntegerText, ReadNumber, Conversion, Power;
    var base := if c == 'x' || c == 'X' then 16 else if c == 'o' then 8 else if c == 'b' then 2 else 10;
    var value: nat := IntOf(args) % Values(d.size);
    UnsignedIs(c, d, args, signedChar, base);
    IntegerRoundTrip(value, false, base, c == 'X', UnsignedFlags(d, false), d.prec, d.width);
    Bounds(value, base);
  }

  lemma Bounds(value: nat, base: nat)
    requires value < 0x1_0000_0000_0000_0000 && (base == 2 || 8 <= base)
    ensures value < Power(base, 32) <==> (base == 2 ==> value < 0x1_0000_0000)
    ensures 8 <= base ==> value < Power(base, 31)
  {
    hide Power, Pow2;
    Pow2Add(32, 32);
    Pow2Values();
    if base == 2 {
      TwoPower(32);
    } else {
      LongValuesFit(value, base);
    }
  }

  lemma {:induction false} TwoPower(n: nat)
    ensures Power(2, n) == Pow2(n)
  {
    if n > 0 {
      TwoPower(n - 1);
    }
  }

  /** With '#', x and X are read back in base 16 behind 0x and 0X, o in base 8 behind 0 and b in
      base 2 behind 0b, unless digits are taken away or the prefix has no place. */
  lemma HashRoundTrip(c: char, d: Directive, args: seq<Arg>, signedChar: bool)
    requires d.fl.hash && (c == 'x' || c == 'X' || c == 'o' || c == 'b') && IntOf(args) % Values(d.size) != 0
    ensures var base := if c == 'x' || c == 'X' then 16 else if c == 'o' then 8 else 2;
      var value := IntOf(args) % Values(d.size);
      && PrefixOf(base, c == 'X')
         == (if c == 'x' then "0x" else if c == 'X' then "0X" else if c == 'o' then "0" else "0b")
      && (ReadPrefixed(Conversion(c, d, args, signedChar), base, c == 'X') == Some((false, value))
          <==> PrefixFits(Min(NTOA, DigitCount(value, base)), false, base, UnsignedFlags(d, true), d.prec, d.width))
  {
    hide IntegerText, ReadPrefixed, Conversion, PrefixFits, DigitCount;
    var base := if c == 'x' || c == 'X' then 16 else if c == 'o' then 8 else 2;
    var value: nat := IntOf(args) % Values(d.size);
    UnsignedIs(c, d, args, signedChar, base);
    PrefixRoundTrip(value, false, base, c == 'X', UnsignedFlags(d, true), d.prec, d.width);
  }

  /** v is the value of a signed argument: the one in the range of its size that differs from it by
      a multiple of the number of values; for hh on a target with unsigned char, the remainder. */
  predicate IsSignedValue(v: int, size: Size, args: seq<Arg>, signedChar: bool) {
    && (IntOf(args) - v) % Values(size) == 0
    && if size == Char && !signedChar then 0 <= v < 0x100 else -(Values(size) / 2) <= v < Values(size) / 2
  }

  lemma SignedIs(v: int, size: Size, args: seq<Arg>, signedChar: bool)
    requires IsSignedValue(v, size, args, signedChar)
    ensures SignedArg(size, args, signedChar) == v
  {
    hide IntOf;
    var n, m := IntOf(args), Values(size);
    var k := (n - v) / m;
    assert n - v == k * m + (n - v) % m;
    if size == Char && !signedChar {
      ModIs(n, m, k, v);
    } else {
      ModIs(n + m / 2, m, k, v + m / 2);
    }
  }

  lemma ModIs(n: int, m: nat, k: int, r: nat)
    requires r < m && n == k * m + r
    ensures n % m == r
  {
    var q := n / m;
    assert n == q * m + n % m;
    if q < k {
      MulGap(q, k, m);
    } else if k < q {
      MulGap(k, q, m);
    }
  }

  lemma MulGap(a: int, b: int, m: nat)
    requires a < b
    ensures a * m + m <= b * m
  {
    MulMono(1, b - a, m);
    assert (b - a) * m == b * m - a * m;
  }

  /** d and i print a value in base 10, with a sign as the flags say; the 0 flag counts without a
      precision only. */
  lemma SignedText(c: char, d: Directive, args: seq<Arg>, signedChar: bool, v: int)
    requires (c == 'd' || c == 'i') && IsSignedValue(v, d.size, args, signedChar)
    ensures Conversion(c, d, args, signedChar) == IntegerText(if v < 0 then -v else v, v < 0, 10, false,
              Flags(d.fl.zero && d.prec.None?, d.fl.left, d.fl.plus, d.fl.space, false), d.prec, d.width)
  {
    hide IntegerText, SignedArg, IsSignedValue;
    SignedIs(v, d.size, args, signedChar);
  }

  /** d and i are read back in base 10 with their sign, if it has a place: always but for precisions
      from 32 on and zeros beyond 32 places. */
  lemma SignedRoundTrip(c: char, d: Directive, args: seq<Arg>, signedChar: bool, v: int)
    requires (c == 'd' || c == 'i') && IsSignedValue(v, d.size, args, signedChar)
    ensures ReadNumber(Conversion(c, d, args, signedChar), 10) == Some((v < 0, if v < 0 then -v else v))
       <==> (v < 0 && !d.fl.left ==> PrecOf(d.prec) < 32 && (d.fl.zero && d.prec.None? ==> d.width <= 32))
  {
    hide IntegerText, ReadNumber, Power, Conversion, IsSignedValue;
    SignedText(c, d, args, signedChar, v);
    SignedBound(v, d.size, args, signedChar);
    var value: nat := if v < 0 then -v else v;
    var fl := Flags(d.fl.zero && d.prec.None?, d.fl.left, d.fl.plus, d.fl.space, false);
    IntegerRoundTrip(value, v < 0, 10, false, fl, d.prec, d.width);
    Bounds(value, 10);
  }

  lemma SignedBound(v: int, size: Size, args: seq<Arg>, signedChar: bool)
    requires IsSignedValue(v, size, args, signedChar)
    ensures -0x8000_0000_0000_0000 <= v < 0x8000_0000_0000_0000
  {
  }

  /** The letters of x are a to f, those of X are A to F. */
  lemma HexLetters(c: char, d: Directive, args: seq<Arg>, signedChar: bool, i: nat)
    requires (c == 'x' || c == 'X') && !d.fl.hash && i < |Conversion(c, d, args, signedChar)|
    ensures var h := Conversion(c, d, args, signedChar)[i];
      h == ' ' || '0' <= h <= '9' || (if c == 'x' then 'a' <= h <= 'f' else 'A' <= h <= 'F')
  {
    hide IntegerText, Conversion, NumberOf, Power, Repeat;
    UnsignedIs(c, d, args, signedChar, 16);
    var value: nat := IntOf(args) % Values(d.size);
    var a, z, digits, b := IntegerLayout(value, false, 16, c == 'X', UnsignedFlags(d, false), d.prec, d.width);
    forall k | 0 <= k < |digits| ensures DigitValue(digits[k]) < 16 && CaseOk(digits[k], c == 'X') {
    }
  }

  // ----- characters, strings, pointers -----

  /** A text in a field: spaces behind it with the - flag, in front of it without. */
  predicate InField(s: string, t: string, left: bool, width: nat) {
    var n := if |t| < width then width - |t| else 0;
    if left then s == t + Repeat(' ', n) else s == Repeat(' ', n) + t
  }

  lemma FieldOf(t: string, fl: Flags, width: nat)
    requires !fl.zero
    ensures InField(Field(t, fl, width), t, fl.left, width)
  {
  }

  /** c prints one character, the argument modulo 256. */
  lemma CharacterField(d: Directive, args: seq<Arg>, signedChar: bool)
    ensures InField(Conversion('c', d, args, signedChar), [(IntOf(args) % 256) as char], d.fl.left, d.width)
  {
    hide Repeat;
    FieldOf([CharOf(args)], d.fl.(zero := false), d.width);
  }

  /** s prints a string, or as much of it as the precision says. */
  lemma StringField(d: Directive, args: seq<Arg>, signedChar: bool, t: string)
    requires t == if d.prec.Some? && d.prec.value <= |StrOf(args)| then StrOf(args)[..d.prec.value] else StrOf(args)
    ensures InField(Conversion('s', d, args, signedChar), t, d.fl.left, d.width)
  {
    hide Repeat;
    assert StrOf(args)[..|StrOf(args)|] == StrOf(args);
    FieldOf(t, d.fl.(zero := false), d.width);
  }

  /** p prints eight upper-case hexadecimal digits. */
  lemma PointerDigits(d: Directive, args: seq<Arg>, signedChar: bool)
    requires d.fl in {NO_FLAGS, NO_FLAGS.(zero := true)} && d.prec.None?
    ensures var t := Conversion('p', d, args, signedChar);
      && |t| == 8 && ReadNumber(t, 16) == Some((false, IntOf(args) % 0x1_0000_0000))
      && forall i :: 0 <= i < 8 ==> '0' <= t[i] <= '9' || 'A' <= t[i] <= 'F'
  {
    hide IntegerText, ReadNumber, NumberOf, Power, Repeat;
    var fl: Flags := NO_FLAGS.(zero := true);
    var value: nat := IntOf(args) % 0x1_0000_0000;
    var a, z, digits, b := IntegerLayout(value, false, 16, true, fl, None, 8);
    IntegerRoundTrip(value, false, 16, true, fl, None, 8);
    Bounds(value, 16);
    PointerLength(value);
    var t := Conversion('p', d, args, signedChar);
    assert t == IntegerText(value, false, 16, true, fl, None, 8);
    forall k | 0 <= k < |digits| ensures DigitValue(digits[k]) < 16 && CaseOk(digits[k], true) {
    }
  }

  lemma PointerLength(value: nat)
    requires value < 0x1_0000_0000
    ensures |IntegerText(value, false, 16, true, NO_FLAGS.(zero := true), None, 8)| == 8
  {
    hide IntegerText, DigitCount;
    Pow2Values();
    CountBound(value, 16, 8);
    EightDigits();
    TextLength(value, false, 16, true, NO_FLAGS.(zero := true), None, 8);
  }

  lemma EightDigits()
    ensures Power(16, 8) == 0x1_0000_0000
  {
    assert Power(16, 4) == 0x1_0000;
  }

  // ----- whole formats -----

  /** A directive and its conversion character in a format. */
  lemma OneDirective(d: Directive, c: char, rest: string, args: seq<Arg>, signedChar: bool)
    requires d.width < U32 && PrecOf(d.prec) < U32 && EndsDirective([c] + rest) && !IsFloat(c)
    requires WellFormed(rest, AfterConversion(c, args))
    ensures var f := "%" + (Show(d) + ([c] + rest));
      && WellFormed(f, args)
      && Render(f, args, signedChar)
         == Conversion(c, d, args, signedChar) + Render(rest, AfterConversion(c, args), signedChar)
  {
    hide Show, ReadDirective, Conversion, AfterConversion, EndsDirective;
    var t := [c] + rest;
    DirectiveRoundTrip(d, t, args);
    var f := "%" + (Show(d) + t);
    assert f[1..] == Show(d) + t && t[1..] == rest;
  }

  /** Integers, characters, strings and pointers use up one argument, everything else none. */
  lemma ArgumentsUsed(c: char, arg: Arg, args: seq<Arg>)
    requires !IsFloat(c)
    ensures AfterConversion(c, [arg] + args) == if c in "diuxXobcsp" then args else [arg] + args
    ensures c !in "diuxXobcsp" ==> forall d, signedChar :: Conversion(c, d, args, signedChar) == [c]
  {
    assert ([arg] + args)[1..] == args;
  }

  /** The flag characters and the letters for the size of an argument. */
  lemma FlagLetters()
    ensures ReadFlags("0d", NO_FLAGS) == (NO_FLAGS.(zero := true), "d")
    ensures ReadFlags("-d", NO_FLAGS) == (NO_FLAGS.(left := true), "d")
    ensures ReadFlags("+d", NO_FLAGS) == (NO_FLAGS.(plus := true), "d")
    ensures ReadFlags(" d", NO_FLAGS) == (NO_FLAGS.(space := true), "d")
    ensures ReadFlags("#d", NO_FLAGS) == (NO_FLAGS.(hash := true), "d")
  {
  }

  lemma SizeLetters()
    ensures ReadSize("d") == (Plain, "d") && ReadSize("hd") == (Short, "d") && ReadSize("hhd") == (Char, "d")
    ensures ReadSize("ld") == (Long, "d") && ReadSize("lld") == (LongLong, "d")
    ensures ReadSize("td") == (Long, "d") && ReadSize("zd") == (Long, "d") && ReadSize("jd") == (LongLong, "d")
  {
  }

  /** The flags in front of the width, the precision and the size. */
  lemma SampleDirective()
    ensures ReadDirective("-+5.3hd", [])
         == Read(Directive(Flags(false, true, true, false, false), 5, Some(3), Short), "d", [])
  {
    hide ReadDirective;
    var d := Directive(Flags(false, true, true, false, false), 5, Some(3), Short);
    DirectiveRoundTrip(d, "d", []);
    assert Show(d) + "d" == "-+5.3hd";
  }
}
