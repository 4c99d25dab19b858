/** What integer conversions of the small printf mean: which value and sign can be read back
    from the text.  The scratch buffer of 32 places sets the limits. */
module PrintfNumbers {
  import opened Arith
  import opened PrintfText

  // ----- numbers and digit strings -----

  /** The value of a digit character; 36 for other characters. */
  function DigitValue(c: char): (n: nat) {
    if '0' <= c <= '9' then (c - '0') as nat
    else if 'a' <= c <= 'z' then (c - 'a') as nat + 10
    else if 'A' <= c <= 'Z' then (c - 'A') as nat + 10
    else 36
  }

  lemma DigitRoundTrip(d: nat, upper: bool)
    requires d < 36
    ensures DigitValue(Digit(d, upper)) == d
  {
  }

  /** The number that a digit string denotes. */
  function NumberOf(s: string, base: nat): (n: nat) {
    if s == "" then 0 else NumberOf(s[..|s| - 1], base) * base + DigitValue(s[|s| - 1])
  }

  predicate AllDigits(s: string, base: nat) {
    forall i :: 0 <= i < |s| ==> DigitValue(s[i]) < base
  }

  lemma NumberSnoc(s: string, c: char, base: nat)
    ensures NumberOf(s + [c], base) == NumberOf(s, base) * base + DigitValue(c)
    ensures AllDigits(s, base) && DigitValue(c) < base ==> AllDigits(s + [c], base)
  {
    assert (s + [c])[..|s|] == s;
  }

  lemma NoDigits(base: nat)
    ensures NumberOf("", base) == 0 && AllDigits("", base)
  {
  }

  lemma OneDigit(c: char, base: nat)
    ensures NumberOf([c], base) == DigitValue(c) && (DigitValue(c) < base ==> AllDigits([c], base))
  {
    assert [c][..0] == "";
    assert NumberOf("", base) * base == 0;
  }

  function Power(base: nat, n: nat): (p: nat)
    ensures 0 < base ==> 0 < p
  {
    if n == 0 then 1 else Product(Power(base, n - 1), base)
  }

  function Product(a: nat, b: nat): (p: nat)
    ensures p == a * b && (0 < a && 0 < b ==> 0 < p)
  {
    MulPositive(a, b);
    a * b
  }

  lemma MulPositive(a: nat, b: nat)
    ensures 0 <= a * b && (0 < a && 0 < b ==> 0 < a * b)
  {
    if 0 < a {
      MulMono(1, a, b);
    }
  }

  lemma DigitsStep(value: nat, base: nat, upper: bool, room: nat)
    requires 2 <= base <= 36
    ensures DigitsOf(value, base, upper, room) ==
      if room == 0 then "" else if value < base then [Digit(value, upper)]
      else DigitsOf(value / base, base, upper, room - 1) + [Digit(value % base, upper)]
  {
  }

  /** The last digit of a remainder modulo p * base. */
  lemma ModStep(value: nat, base: nat, p: nat)
    requires 0 < base && 0 < p && 0 < p * base
    ensures value % (p * base) == value / base % p * base + value % base
    ensures value < p * base <==> value / base < p
  {
    var q, r := Divide(value, base);
    var k, m := Divide(q, p);
    Regroup(k, p, m, base);
    MulLess(m, p, base);
    DivModUnique(value, p * base, k, m * base + r);
    if q < p {
      MulLess(q, p, base);
    } else {
      MulMono(p, q, base);
    }
  }

  lemma Regroup(k: nat, p: nat, m: nat, base: nat)
    ensures (k * p + m) * base == k * (p * base) + m * base
  {
  }

  lemma SmallMod(value: nat, m: nat)
    requires value < m
    ensures value % m == value
  {
  }

  lemma PowerStep(base: nat, n: nat)
    requires 0 < base
    ensures Power(base, n + 1) == Power(base, n) * base && 0 < Power(base, n)
    ensures base <= Power(base, n + 1)
  {
    MulMono(1, Power(base, n), base);
  }

  /** The digits of a value in a number of places denote the value modulo the base to the number
      of places. */
  lemma {:induction false} DigitsRoundTrip(value: nat, base: nat, upper: bool, room: nat)
    requires 2 <= base <= 36
    ensures 0 < Power(base, room) && AllDigits(DigitsOf(value, base, upper, room), base)
    ensures NumberOf(DigitsOf(value, base, upper, room), base) == value % Power(base, room)
    decreases room
  {
    hide Digit, DigitValue, NumberOf, AllDigits, DigitsOf, Power, Product;
    NoDigits(base);
    DigitsStep(value, base, upper, room);
    if room == 0 {
      NoPower(base, value);
    } else {
      PowerStep(base, room - 1);
      if value < base {
        SmallMod(value, Power(base, room));
        DigitRoundTrip(value, upper);
        OneDigit(Digit(value, upper), base);
      } else {
        ModStep(value, base, Power(base, room - 1));
        DigitsRoundTrip(value / base, base, upper, room - 1);
        LastDigit(value, base, upper, DigitsOf(value / base, base, upper, room - 1));
      }
    }
  }

  lemma NoPower(base: nat, value: nat)
    ensures Power(base, 0) == 1 && value % 1 == 0
  {
  }

  lemma LastDigit(value: nat, base: nat, upper: bool, s: string)
    requires 2 <= base <= 36 && AllDigits(s, base)
    ensures NumberOf(s + [Digit(value % base, upper)], base) == NumberOf(s, base) * base + value % base
    ensures AllDigits(s + [Digit(value % base, upper)], base)
  {
    hide Digit, DigitValue, NumberOf, AllDigits;
    DigitRoundTrip(value % base, upper);
    NumberSnoc(s, Digit(value % base, upper), base);
  }

  /** All places suffice exactly for the values below the base to the number of places. */
  lemma DigitsComplete(value: nat, base: nat, upper: bool, room: nat)
    requires 2 <= base <= 36
    ensures NumberOf(DigitsOf(value, base, upper, room), base) == value <==> value < Power(base, room)
    ensures NumberOf(DigitsOf(value, base, upper, room), base) <= value
  {
    hide NumberOf, DigitsOf, Power;
    DigitsRoundTrip(value, base, upper, room);
    var k, r := Divide(value, Power(base, room));
    if value < Power(base, room) {
      SmallMod(value, Power(base, room));
    } else {
      MulMono(0, k, Power(base, room));
    }
  }

  /** How many digits a value has. */
  function DigitCount(value: nat, base: nat): (n: nat)
    requires 2 <= base
    ensures 1 <= n
  {
    if value < base then 1 else
      Shrinks(value, base);
      1 + DigitCount(value / base, base)
  }

  lemma Shrinks(value: nat, base: nat)
    requires 2 <= base <= value
    ensures 0 < value / base < value
  {
    var q, r := Divide(value, base);
    if q > 0 {
      MulMono(2, base, q);
    }
  }

  lemma {:induction false} DigitsLength(value: nat, base: nat, upper: bool, room: nat)
    requires 2 <= base <= 36
    ensures |DigitsOf(value, base, upper, room)| == Min(room, DigitCount(value, base))
    decreases room
  {
    hide Digit, DigitsOf;
    DigitsStep(value, base, upper, room);
    if room > 0 && value >= base {
      DigitsLength(value / base, base, upper, room - 1);
    }
  }

  lemma {:induction false} CountBound(value: nat, base: nat, n: nat)
    requires 2 <= base && 0 < n
    ensures DigitCount(value, base) <= n <==> value < Power(base, n)
    decreases n
  {
    hide Power, Product;
    PowerStep(base, n - 1);
    if value >= base {
      Shrinks(value, base);
      ModStep(value, base, Power(base, n - 1));
      if n > 1 {
        CountBound(value / base, base, n - 1);
      } else {
        NoPower(base, value);
      }
    }
  }

  /** The first digit of a value that fits is not zero, unless the value is. */
  lemma {:induction false} FirstDigit(value: nat, base: nat, upper: bool, room: nat)
    requires 2 <= base <= 36 && 0 < value && 0 < room && value < Power(base, room)
    ensures DigitsOf(value, base, upper, room) != ""
    ensures 0 < DigitValue(DigitsOf(value, base, upper, room)[0])
    decreases room
  {
    hide Digit, DigitValue, DigitsOf, Power, Product;
    DigitsStep(value, base, upper, room);
    if value < base {
      DigitRoundTrip(value, upper);
    } else {
      PowerStep(base, room - 1);
      ModStep(value, base, Power(base, room - 1));
      Shrinks(value, base);
      if room == 1 {
        NoPower(base, value);
        assert false;
      }
      FirstDigit(value / base, base, upper, room - 1);
    }
  }

  // ----- reading a number back -----

  function SkipSpaces(s: string): (t: string)
    ensures |t| <= |s|
  {
    if s != "" && s[0] == ' ' then SkipSpaces(s[1..]) else s
  }

  function DropSpaces(s: string): (t: string)
    ensures |t| <= |s|
  {
    if s != "" && s[|s| - 1] == ' ' then DropSpaces(s[..|s| - 1]) else s
  }

  /** A text without the spaces around it. */
  function Trimmed(s: string): (t: string) {
    DropSpaces(SkipSpaces(s))
  }

  /** Whether a text starts with a minus sign, and what is behind its sign, if it has one. */
  function SplitSign(t: string): (r: (bool, string)) {
    if t != "" && (t[0] == '-' || t[0] == '+') then (t[0] == '-', t[1..]) else (false, t)
  }

  /** Sign and value of a number with spaces around it; None if there is anything else. */
  function ReadNumber(s: string, base: nat): (r: Option<(bool, nat)>) {
    var (minus, u) := SplitSign(Trimmed(s));
    if AllDigits(u, base) then Some((minus, NumberOf(u, base))) else None
  }

  lemma {:induction false} SkipsAll(n: nat, s: string)
    requires s == "" || s[0] != ' '
    ensures SkipSpaces(Repeat(' ', n) + s) == s
  {
    if n == 0 {
      assert Repeat(' ', 0) + s == s;
    } else {
      var t := Repeat(' ', n) + s;
      assert t[1..] == Repeat(' ', n - 1) + s;
      SkipsAll(n - 1, s);
    }
  }

  lemma {:induction false} DropsAll(n: nat, s: string)
    requires s == "" || s[|s| - 1] != ' '
    ensures DropSpaces(s + Repeat(' ', n)) == s
  {
    if n == 0 {
      assert s + Repeat(' ', 0) == s;
    } else {
      var t := s + Repeat(' ', n);
      assert t[..|t| - 1] == s + Repeat(' ', n - 1);
      DropsAll(n - 1, s);
    }
  }

  lemma {:induction false} RepeatJoin(c: char, m: nat, n: nat)
    ensures Repeat(c, m) + Repeat(c, n) == Repeat(c, m + n)
  {
    if n == 0 {
      assert Repeat(c, m) + Repeat(c, 0) == Repeat(c, m);
    } else {
      RepeatJoin(c, m, n - 1);
      assert Repeat(c, m) + Repeat(c, n) == Repeat(c, m) + Repeat(c, n - 1) + [c];
    }
  }

  /** Spaces around a text that has none at its ends are taken off. */
  lemma TrimsAll(a: nat, s: string, b: nat)
    requires s == "" || (s[0] != ' ' && s[|s| - 1] != ' ')
    ensures Trimmed(Repeat(' ', a) + s + Repeat(' ', b)) == s
  {
    hide Repeat, SkipSpaces, DropSpaces;
    if s == "" {
      RepeatJoin(' ', a, b);
      SkipsAll(a + b, "");
      assert Repeat(' ', a) + s + Repeat(' ', b) == Repeat(' ', a + b) + "";
      DropsAll(0, "");
      assert "" + Repeat(' ', 0) == "";
    } else {
      assert Repeat(' ', a) + s + Repeat(' ', b) == Repeat(' ', a) + (s + Repeat(' ', b));
      SkipsAll(a, s + Repeat(' ', b));
      DropsAll(b, s);
    }
  }

  lemma {:induction false} LeadingZeros(n: int, s: string, base: nat)
    requires 2 <= base && AllDigits(s, base)
    ensures AllDigits(Repeat('0', n) + s, base) && NumberOf(Repeat('0', n) + s, base) == NumberOf(s, base)
    decreases |s|, n
  {
    var t := Repeat('0', n) + s;
    if s == "" {
      assert t == Repeat('0', n);
      if n > 0 {
        LeadingZeros(n - 1, s, base);
        assert Repeat('0', n - 1) + s == Repeat('0', n - 1);
        assert t[..|t| - 1] == Repeat('0', n - 1);
      }
    } else {
      LeadingZeros(n, s[..|s| - 1], base);
      assert t[..|t| - 1] == Repeat('0', n) + s[..|s| - 1];
    }
  }

  // ----- the parts of a conversion -----

  lemma AtLeastIs(s: string, n: nat)
    requires |s| <= NTOA
    ensures var k := Max(|s|, Min(n, NTOA)) - |s|;
      AtLeast(s, n) == Repeat('0', k) + s && |AtLeast(s, n)| == k + |s| <= NTOA
  {
  }

  /** How many digits a conversion of d digits has, leading zeros included. */
  function PaddedLength(d: nat, negative: bool, fl: Flags, prec: Option<nat>, width: nat): (n: nat)
    requires d <= NTOA
    ensures d <= n <= NTOA
  {
    if fl.left then d
    else Max(Max(d, Min(PrecOf(prec), NTOA)), if fl.zero then Min(ZeroWidth(negative, fl, width), NTOA) else 0)
  }

  lemma PaddedIs(digits: string, negative: bool, fl: Flags, prec: Option<nat>, width: nat) returns (z: nat)
    requires |digits| <= NTOA
    ensures Padded(digits, negative, fl, prec, width) == Repeat('0', z) + digits
    ensures z + |digits| == PaddedLength(|digits|, negative, fl, prec, width)
  {
    hide AtLeast, ZeroWidth;
    var n := PaddedLength(|digits|, negative, fl, prec, width);
    z := n - |digits|;
    if fl.left {
      assert Repeat('0', 0) + digits == digits;
    } else {
      AtLeastIs(digits, PrecOf(prec));
      if fl.zero {
        AtLeastTwice(digits, PrecOf(prec), ZeroWidth(negative, fl, width));
      }
    }
  }

  lemma AtLeastTwice(s: string, m: nat, n: nat)
    requires |s| <= NTOA
    ensures var k := Max(Max(|s|, Min(m, NTOA)), Min(n, NTOA)) - |s|; AtLeast(AtLeast(s, m), n) == Repeat('0', k) + s
  {
    hide AtLeast;
    var t := AtLeast(s, m);
    AtLeastIs(s, m);
    AtLeastIs(t, n);
    var j, k := |AtLeast(t, n)| - |t|, |t| - |s|;
    RepeatJoin('0', j, k);
    ZerosApart(j, k, s);
  }

  lemma ZerosApart(j: nat, k: nat, s: string)
    ensures Repeat('0', j) + (Repeat('0', k) + s) == Repeat('0', j) + Repeat('0', k) + s
  {
  }

  /** The spaces around a number. */
  lemma FieldIs(s: string, fl: Flags, width: nat) returns (a: nat, b: nat)
    ensures Field(s, fl, width) == Repeat(' ', a) + s + Repeat(' ', b)
    ensures |Field(s, fl, width)| == if !fl.left && fl.zero then |s| else Max(width, |s|)
    ensures (fl.left || fl.zero ==> a == 0) && (!fl.left ==> b == 0)
  {
    a, b := 0, 0;
    if fl.left {
      b := if |s| < width then width - |s| else 0;
    } else if !fl.zero {
      a := if |s| < width then width - |s| else 0;
    }
    assert Repeat(' ', 0) + s == s && s + Repeat(' ', 0) == s;
    assert Repeat(' ', a) + s + Repeat(' ', 0) == Repeat(' ', a) + s;
  }

  /** Without '#', a number is a sign, if there is a place left for it, zeros and the digits. */
  lemma NumberIs(digits: string, negative: bool, base: nat, upper: bool, fl: Flags, prec: Option<nat>, width: nat)
    returns (z: nat)
    requires |digits| <= NTOA && !fl.hash
    ensures z + |digits| == PaddedLength(|digits|, negative, fl, prec, width)
    ensures NumberText(digits, negative, base, upper, fl, prec, width)
         == (if z + |digits| < NTOA then SignText(negative, fl) else "") + (Repeat('0', z) + digits)
  {
    hide Padded, PaddedLength, SignText;
    z := PaddedIs(digits, negative, fl, prec, width);
    var p := Repeat('0', z) + digits;
    assert "" + p == p;
  }

  lemma IntegerTextIs(value: nat, negative: bool, base: nat, upper: bool, fl: Flags, prec: Option<nat>, width: nat)
    requires 2 <= base <= 36 && (fl.hash ==> 0 < value)
    ensures IntegerText(value, negative, base, upper, fl, prec, width)
         == Field(NumberText(ValueDigits(value, base, upper, prec), negative, base, upper, fl, prec, width), fl, width)
  {
    assert !fl.hash ==> fl.(hash := false) == fl;
  }

  lemma ValueDigitsAre(value: nat, base: nat, upper: bool, prec: Option<nat>)
    requires 2 <= base <= 36
    ensures var digits := ValueDigits(value, base, upper, prec);
      && AllDigits(digits, base) && NumberOf(digits, base) <= value && |digits| == Min(NTOA, CountOf(value, base, prec))
      && (NumberOf(digits, base) == value <==> value < Power(base, NTOA))
  {
    hide Power, DigitsOf, NumberOf, AllDigits;
    NoDigits(base);
    DigitsRoundTrip(value, base, upper, NTOA);
    DigitsComplete(value, base, upper, NTOA);
    DigitsLength(value, base, upper, NTOA);
  }

  /** The number of digits that C11 asks for: none for a zero with an explicit precision. */
  function CountOf(value: nat, base: nat, prec: Option<nat>): (n: nat)
    requires 2 <= base
  {
    if prec.Some? && value == 0 then 0 else DigitCount(value, base)
  }

  // ----- the value that is read back -----

  /** A value within the places of the scratch buffer, which also holds a minus sign if there
      is one. */
  ghost predicate ReadsBack(value: nat, negative: bool, base: nat, fl: Flags, prec: Option<nat>, width: nat)
    requires 2 <= base
  {
    && value < Power(base, NTOA)
    && (negative ==>
      && value < Power(base, NTOA - 1)
      && (fl.left || (PrecOf(prec) < NTOA && (fl.zero ==> width <= NTOA))))
  }

  lemma NotSpaces(y: string, base: nat)
    requires 2 <= base <= 36 && AllDigits(y, base)
    ensures Solid(y) && forall i :: 0 <= i < |y| ==> y[i] != ' ' && y[i] != '-' && y[i] != '+'
  {
    assert DigitValue(' ') == 36 && DigitValue('-') == 36 && DigitValue('+') == 36;
  }

  /** A text that does not end in a space, nor start with one or with a sign. */
  predicate Solid(y: string) {
    y != "" ==> y[|y| - 1] != ' ' && y[0] != ' ' && y[0] != '-' && y[0] != '+'
  }

  lemma ReadsPlain(a: nat, y: string, b: nat)
    requires Solid(y)
    ensures SplitSign(Trimmed(Repeat(' ', a) + y + Repeat(' ', b))) == (false, y)
  {
    hide Repeat, Trimmed;
    TrimsAll(a, y, b);
  }

  lemma ReadsSigned(a: nat, c: char, y: string, b: nat)
    requires Solid(y) && (c == '-' || c == '+')
    ensures SplitSign(Trimmed(Repeat(' ', a) + ([c] + y) + Repeat(' ', b))) == (c == '-', y)
  {
    hide Repeat, Trimmed;
    var t := [c] + y;
    assert y != "" ==> t[|t| - 1] == y[|y| - 1];
    TrimsAll(a, t, b);
    assert t[1..] == y;
  }

  /** Any sign is read as it was written. */
  lemma ReadsAny(a: nat, negative: bool, fl: Flags, y: string, b: nat)
    requires Solid(y)
    ensures SplitSign(Trimmed(Repeat(' ', a) + (SignText(negative, fl) + y) + Repeat(' ', b))) == (negative, y)
  {
    hide SplitSign, Trimmed, Solid;
    var sign := SignText(negative, fl);
    if sign == "" {
      assert sign + y == y;
      ReadsPlain(a, y, b);
    } else if sign == " " {
      assert Repeat(' ', a) + (sign + y) == Repeat(' ', a + 1) + y;
      ReadsPlain(a + 1, y, b);
    } else {
      ReadsSigned(a, sign[0], y, b);
    }
  }

  /** What is read of a number in its field, whether its sign has a place or not. */
  lemma ReadsField(a: nat, negative: bool, fl: Flags, y: string, b: nat, room: bool)
    requires Solid(y)
    ensures SplitSign(Trimmed(Repeat(' ', a) + ((if room then SignText(negative, fl) else "") + y) + Repeat(' ', b)))
         == (negative && room, y)
  {
    hide SignText, SplitSign, Trimmed, Repeat, Solid;
    if room {
      ReadsAny(a, negative, fl, y, b);
    } else {
      assert "" + y == y;
      ReadsPlain(a, y, b);
    }
  }

  /** Zero has no prefix. */
  lemma ZeroWithoutHash(negative: bool, base: nat, upper: bool, fl: Flags, prec: Option<nat>, width: nat)
    requires 2 <= base <= 36
    ensures IntegerText(0, negative, base, upper, fl, prec, width)
         == IntegerText(0, negative, base, upper, fl.(hash := false), prec, width)
  {
    hide NumberText, ValueDigits;
  }

  /** Reading the text of an integer conversion without '#', or of zero, gives back its sign and
      its value if and only if both fit the scratch buffer. */
  lemma IntegerRoundTrip(value: nat, negative: bool, base: nat, upper: bool, fl: Flags, prec: Option<nat>, width: nat)
    requires 2 <= base <= 36 && (fl.hash ==> value == 0)
    ensures ReadNumber(IntegerText(value, negative, base, upper, fl, prec, width), base) == Some((negative, value))
       <==> ReadsBack(value, negative, base, fl, prec, width)
  {
    hide NumberText, ValueDigits, Field, NumberOf, AllDigits, Power, PaddedLength, SignText, IntegerText,
      CountOf, SplitSign, Trimmed;
    if fl.hash {
      ZeroWithoutHash(negative, base, upper, fl, prec, width);
    }
    var fl' := fl.(hash := false);
    var digits := ValueDigits(value, base, upper, prec);
    ValueDigitsAre(value, base, upper, prec);
    IntegerTextIs(value, negative, base, upper, fl', prec, width);
    var z := NumberIs(digits, negative, base, upper, fl', prec, width);
    var a, b := FieldIs(NumberText(digits, negative, base, upper, fl', prec, width), fl', width);
    LeadingZeros(z, digits, base);
    var y := Repeat('0', z) + digits;
    if value < Power(base, NTOA) {
      SignRoom(value, negative, base, fl', prec, width);
    }
    NotSpaces(y, base);
    ReadsField(a, negative, fl', y, b, z + |digits| < NTOA);
  }

  /** When a place is left for a minus sign. */
  lemma SignRoom(value: nat, negative: bool, base: nat, fl: Flags, prec: Option<nat>, width: nat)
    requires 2 <= base && value < Power(base, NTOA)
    ensures Min(NTOA, CountOf(value, base, prec)) <= NTOA
    ensures negative ==>
      (PaddedLength(Min(NTOA, CountOf(value, base, prec)), negative, fl, prec, width) < NTOA
       <==> ReadsBack(value, negative, base, fl, prec, width))
  {
    hide Power, DigitCount;
    CountBound(value, base, NTOA - 1);
    PowerStep(base, NTOA - 2);
  }

  lemma {:induction false} PowerAtLeast(base: nat, n: nat)
    requires 8 <= base
    ensures Pow2(3 * n) <= Power(base, n)
  {
    hide Product, Power, Pow2;
    if n == 0 {
      NoPower(base, 0);
      NoPow2();
    } else {
      PowerAtLeast(base, n - 1);
      PowerStep(base, n - 1);
      EightTimes(n - 1);
      BothGrow(Pow2(3 * (n - 1)), Power(base, n - 1), 8, base);
    }
  }

  lemma NoPow2()
    ensures Pow2(0) == 1
  {
  }

  lemma EightTimes(n: nat)
    ensures Pow2(3 * (n + 1)) == Pow2(3 * n) * 8
  {
    Pow2Add(3 * n, 3);
    assert Pow2(3) == 8;
  }

  lemma BothGrow(a: nat, b: nat, c: nat, d: nat)
    requires a <= b && c <= d
    ensures a * c <= b * d
  {
    MulMono(a, b, c);
    MulMono(c, d, b);
  }

  /** Every 64-bit value fits in base 8 and above, with a sign. */
  lemma LongValuesFit(value: nat, base: nat)
    requires 8 <= base && value < Pow2(64)
    ensures value < Power(base, NTOA - 1) <= Power(base, NTOA)
  {
    hide Power, Product, Pow2;
    PowerAtLeast(base, NTOA - 1);
    Pow2Grows(64, 93);
    PowerStep(base, NTOA - 1);
    MulMono(1, base, Power(base, NTOA - 1));
  }
}
