/** The '#' flag of the small printf: when the text of a conversion in base 2, 8 or 16 can be read
    back.  To make room for the prefix the code takes leading places away when they fill the
    width, whether they are padding or digits, and the scratch buffer may lack room for it. */
module PrintfPrefix {
  import opened Arith
  import opened PrintfText
  import opened PrintfNumbers

  const HASH := Flags(false, false, false, false, true)

  function PrefixOf(base: nat, upper: bool): (p: string)
    ensures |p| == if base == 16 || base == 2 then 2 else 1
  {
    if base == 16 then (if upper then "0X" else "0x") else if base == 2 then "0b" else "0"
  }

  /** The value of a number behind its prefix. */
  function AfterPrefix(u: string, base: nat, upper: bool): (r: Option<nat>) {
    var p := PrefixOf(base, upper);
    if p <= u && AllDigits(u[|p|..], base) then Some(NumberOf(u[|p|..], base)) else None
  }

  /** Sign and value of a number behind its prefix, with spaces around it. */
  function ReadPrefixed(s: string, base: nat, upper: bool): (r: Option<(bool, nat)>) {
    var (minus, u) := SplitSign(Trimmed(s));
    var n := AfterPrefix(u, base, upper);
    if n.Some? then Some((minus, n.value)) else None
  }

  /** The places taken away. */
  function TakenAway(base: nat): (n: nat) {
    if base == 16 then 2 else 1
  }

  /** Whether n places, leading zeros included, are taken for places that the prefix can have. */
  predicate FillsWidth(n: nat, prec: Option<nat>, width: nat) {
    prec.None? && n == width
  }

  /** How many places are kept. */
  function KeptPlaces(n: nat, base: nat, prec: Option<nat>, width: nat): (k: int) {
    if FillsWidth(n, prec, width) then n - TakenAway(base) else n
  }

  /** The width that the places fill is the one that leaves a place for the sign. */
  function PlacesKept(d: nat, negative: bool, base: nat, fl: Flags, prec: Option<nat>, width: nat): (k: int)
    requires d <= NTOA
  {
    KeptPlaces(PaddedLength(d, negative, fl, prec, width), base, prec, ZeroWidth(negative, fl, width))
  }

  /** Of the places with d digits the leading ones can be taken away if they are zeros; the prefix
      then needs its own places, but for the leading zero of base 8, which may be there already,
      and a minus sign needs one more. */
  ghost predicate PrefixFits(d: nat, negative: bool, base: nat, fl: Flags, prec: Option<nat>, width: nat)
    requires d <= NTOA
  {
    var kept := PlacesKept(d, negative, base, fl, prec, width);
    && d <= kept
    && (kept + |PrefixOf(base, false)| <= NTOA || (base == 8 && d < kept))
    && (negative ==> kept + |PrefixOf(base, false)| < NTOA)
  }

  /** A conversion with '#' of a value that is not zero. */
  ghost predicate Prefixed(value: nat, base: nat, fl: Flags) {
    0 < value && fl.hash && (base == 2 || base == 8 || base == 16)
  }

  // ----- leading digits -----

  lemma {:induction false} NumberFront(c: char, s: string, base: nat) returns (p: nat)
    requires 0 < base
    ensures 0 < p && NumberOf([c] + s, base) == DigitValue(c) * p + NumberOf(s, base)
  {
    var t := [c] + s;
    if s == "" {
      assert t[..0] == "";
      p := 1;
    } else {
      var q := NumberFront(c, s[..|s| - 1], base);
      p := q * base;
      assert t[..|t| - 1] == [c] + s[..|s| - 1];
      MulPositive(q, base);
      FrontTimes(DigitValue(c), q, base, NumberOf(s[..|s| - 1], base));
    }
  }

  lemma FrontTimes(a: nat, q: nat, base: nat, n: nat)
    ensures (a * q + n) * base == a * (q * base) + n * base
  {
  }

  /** A number without its first digit: smaller when that digit is not zero. */
  lemma FirstLost(s: string, base: nat)
    requires 0 < base && s != ""
    ensures NumberOf(s[1..], base) <= NumberOf(s, base)
    ensures 0 < DigitValue(s[0]) ==> NumberOf(s[1..], base) < NumberOf(s, base)
  {
    hide NumberOf, DigitValue;
    var p := NumberFront(s[0], s[1..], base);
    assert s == [s[0]] + s[1..];
    MulPositive(DigitValue(s[0]), p);
  }

  /** The digits of a value that is not zero, and what is lost without the first one or two. */
  lemma DigitsLost(value: nat, base: nat, upper: bool, prec: Option<nat>)
    requires 2 <= base <= 36 && 0 < value
    ensures var d := ValueDigits(value, base, upper, prec);
      && d != "" && AllDigits(d, base) && (NumberOf(d, base) == value || |d| == NTOA)
      && (NumberOf(d, base) == value ==> 0 < DigitValue(d[0]))
      && NumberOf(d, base) <= value && NumberOf(d[1..], base) < value
      && (|d| > 1 ==> NumberOf(d[2..], base) < value)
  {
    hide Power, DigitsOf, NumberOf, AllDigits, DigitValue;
    var d := ValueDigits(value, base, upper, prec);
    ValueDigitsAre(value, base, upper, prec);
    CountBound(value, base, NTOA);
    FirstLost(d, base);
    if value < Power(base, NTOA) {
      FirstDigit(value, base, upper, NTOA);
    }
    if |d| > 1 {
      FirstLost(d[1..], base);
      assert d[1..][1..] == d[2..];
    }
  }

  // ----- the text -----

  /** What is kept of the places, and the places that are put out: prefix and all, or less of the
      prefix when the scratch buffer is full. */
  lemma HashedIs(p: string, base: nat, upper: bool, prec: Option<nat>, width: nat) returns (kept: string)
    requires p != "" && |p| <= NTOA && (base == 2 || base == 8 || base == 16)
    ensures kept == if FillsWidth(|p|, prec, width) then p[Min(|p|, TakenAway(base))..] else p
    ensures var h := Hashed(p, base, upper, prec, width);
      && (|kept| + |PrefixOf(base, upper)| <= NTOA ==> h == PrefixOf(base, upper) + kept)
      && (|kept| + |PrefixOf(base, upper)| > NTOA && base != 8 ==> h == PrefixOf(base, upper)[1..] + kept || h == kept)
      && (|kept| + |PrefixOf(base, upper)| > NTOA ==> |kept| >= NTOA - 1 && (h == kept ==> |kept| == NTOA))
      && (|kept| + |PrefixOf(base, upper)| > NTOA && base == 8 ==> h == kept)
      && |h| == Min(NTOA, |kept| + |PrefixOf(base, upper)|)
  {
    kept := if FillsWidth(|p|, prec, width) then p[Min(|p|, TakenAway(base))..] else p;
    if base == 16 {
      assert "0" + ([if upper then 'X' else 'x'] + kept) == PrefixOf(base, upper) + kept;
    } else if base == 2 {
      assert "0" + ("b" + kept) == PrefixOf(base, upper) + kept;
    }
  }

  /** With its whole prefix the number is read. */
  lemma ReadsWhole(base: nat, upper: bool, kept: string)
    requires (base == 2 || base == 8 || base == 16) && AllDigits(kept, base)
    ensures var t := PrefixOf(base, upper) + kept;
      Solid(t) && AfterPrefix(t, base, upper) == Some(NumberOf(kept, base))
  {
    hide NumberOf, AllDigits;
    NotSpaces(kept, base);
    var p := PrefixOf(base, upper);
    var t := p + kept;
    assert t[|t| - 1] == if kept == "" then p[|p| - 1] else kept[|kept| - 1];
    assert t[|p|..] == kept;
  }

  /** With half of its prefix, or without it, it is not read in bases 2 and 16. */
  lemma ReadsHalf(base: nat, upper: bool, kept: string, t: string)
    requires (base == 2 || base == 16) && AllDigits(kept, base) && |kept| >= 2
    requires t == PrefixOf(base, upper)[1..] + kept || t == kept
    ensures Solid(t) && AfterPrefix(t, base, upper) == None
  {
    hide NumberOf, AllDigits;
    NotSpaces(kept, base);
    NotPrefix(kept, base);
    assert t[|t| - 1] == kept[|kept| - 1];
    if t == kept {
      assert t[1] != PrefixOf(base, upper)[1];
    } else {
      assert t[0] == PrefixOf(base, upper)[1];
    }
  }

  lemma NotPrefix(y: string, base: nat)
    requires (base == 2 || base == 16) && AllDigits(y, base)
    ensures forall i :: 0 <= i < |y| ==> y[i] != PrefixOf(base, false)[1] && y[i] != PrefixOf(base, true)[1]
  {
    assert DigitValue('x') == 33 && DigitValue('X') == 33 && DigitValue('b') == 11;
  }

  /** In base 8 a leading zero is as good as the prefix. */
  lemma ReadsOctal(upper: bool, kept: string)
    requires AllDigits(kept, 8) && kept != ""
    ensures Solid(kept)
    ensures AfterPrefix(kept, 8, upper) == if kept[0] == '0' then Some(NumberOf(kept[1..], 8)) else None
  {
    hide NumberOf, DigitValue;
    NotSpaces(kept, 8);
  }

  /** Places taken from the front of z zeros and the digits. */
  lemma KeptIs(z: nat, digits: string, k: nat)
    requires k <= z + |digits|
    ensures (Repeat('0', z) + digits)[k..] == if k <= z then Repeat('0', z - k) + digits else digits[k - z..]
  {
  }

  lemma TailDigits(s: string, k: nat, base: nat)
    requires AllDigits(s, base) && k <= |s|
    ensures AllDigits(s[k..], base)
  {
  }

  /** The value of what is kept of the places behind the first k: all of it, or less when digits
      were taken. */
  lemma TailValue(value: nat, base: nat, upper: bool, prec: Option<nat>, z: nat, k: nat, kept: string)
    requires 2 <= base <= 36 && 0 < value && k <= 2
    requires var p := Repeat('0', z) + ValueDigits(value, base, upper, prec); k <= |p| && kept == p[k..]
    ensures var digits := ValueDigits(value, base, upper, prec);
      && AllDigits(kept, base)
      && (k <= z ==> NumberOf(kept, base) == NumberOf(digits, base))
      && (z < k ==> NumberOf(kept, base) < value)
  {
    hide NumberOf, ValueDigits, AllDigits, Repeat, DigitValue;
    var digits := ValueDigits(value, base, upper, prec);
    DigitsLost(value, base, upper, prec);
    KeptIs(z, digits, k);
    if k <= z {
      LeadingZeros(z - k, digits, base);
    } else {
      TailDigits(digits, k - z, base);
    }
  }

  lemma KeptValue(value: nat, base: nat, upper: bool, prec: Option<nat>, z: nat, width: nat, kept: string)
    requires 0 < value && (base == 2 || base == 8 || base == 16)
    requires var p := Repeat('0', z) + ValueDigits(value, base, upper, prec);
      kept == if FillsWidth(|p|, prec, width) then p[Min(|p|, TakenAway(base))..] else p
    ensures var d := |ValueDigits(value, base, upper, prec)|;
      var rest := KeptPlaces(z + d, base, prec, width);
      && AllDigits(kept, base) && |kept| == Max(0, rest)
      && (d <= rest && d < NTOA ==> NumberOf(kept, base) == value)
      && (rest < d ==> NumberOf(kept, base) < value)
  {
    hide NumberOf, ValueDigits, AllDigits, Repeat, DigitValue;
    var digits := ValueDigits(value, base, upper, prec);
    DigitsLost(value, base, upper, prec);
    var p := Repeat('0', z) + digits;
    var k := if FillsWidth(|p|, prec, width) then Min(|p|, TakenAway(base)) else 0;
    assert kept == p[k..];
    TailValue(value, base, upper, prec, z, k, kept);
  }

  /** The places of a conversion with '#' and what is kept of them. */
  ghost predicate PlacesOf(digits: string, negative: bool, base: nat, fl: Flags, prec: Option<nat>, width: nat,
                           z: nat, kept: string)
    requires |digits| <= NTOA
  {
    var p := Repeat('0', z) + digits;
    && z + |digits| == PaddedLength(|digits|, negative, fl, prec, width)
    && kept == if FillsWidth(|p|, prec, ZeroWidth(negative, fl, width)) then p[Min(|p|, TakenAway(base))..] else p
  }

  /** The text of a conversion with '#': spaces, the sign if it has a place, what is put out of the
      kept places, spaces. */
  lemma PrefixedText(value: nat, negative: bool, base: nat, upper: bool, fl: Flags, prec: Option<nat>, width: nat)
    returns (a: nat, z: nat, kept: string, h: string, b: nat)
    requires Prefixed(value, base, fl)
    ensures var digits := ValueDigits(value, base, upper, prec);
      var t := IntegerText(value, negative, base, upper, fl, prec, width);
      && PlacesOf(digits, negative, base, fl, prec, width, z, kept) && 1 <= |digits|
      && h == Hashed(Repeat('0', z) + digits, base, upper, prec, ZeroWidth(negative, fl, width))
      && t == Repeat(' ', a) + ((if |h| < NTOA then SignText(negative, fl) else "") + h) + Repeat(' ', b)
      && |t| == (var m := |h| + (if |h| < NTOA then |SignText(negative, fl)| else 0);
                 if !fl.left && fl.zero then m else Max(width, m))
  {
    hide NumberText, ValueDigits, Field, NumberOf, AllDigits, IntegerText, Hashed, Repeat, PaddedLength, SignText,
      ZeroWidth, FillsWidth;
    var digits := ValueDigits(value, base, upper, prec);
    DigitsLost(value, base, upper, prec);
    IntegerTextIs(value, negative, base, upper, fl, prec, width);
    z := PaddedIs(digits, negative, fl, prec, width);
    var p := Repeat('0', z) + digits;
    kept := if FillsWidth(|p|, prec, ZeroWidth(negative, fl, width)) then p[Min(|p|, TakenAway(base))..] else p;
    h := Hashed(p, base, upper, prec, ZeroWidth(negative, fl, width));
    HashedText(digits, negative, base, upper, fl, prec, width, h);
    a, b := FieldIs(NumberText(digits, negative, base, upper, fl, prec, width), fl, width);
  }

  /** A conversion with '#' reads back if and only if digits are not taken away and the prefix,
      and a minus sign, have a place. */
  lemma PrefixRoundTrip(value: nat, negative: bool, base: nat, upper: bool, fl: Flags, prec: Option<nat>, width: nat)
    requires Prefixed(value, base, fl)
    ensures ReadPrefixed(IntegerText(value, negative, base, upper, fl, prec, width), base, upper)
            == Some((negative, value))
       <==> PrefixFits(Min(NTOA, DigitCount(value, base)), negative, base, fl, prec, width)
  {
    hide ValueDigits, AfterPrefix, SplitSign, Trimmed, NumberOf, AllDigits, IntegerText, Hashed, Repeat, PlacesKept,
      DigitCount, SignText, PlacesOf, PrefixFits, Solid;
    HowManyDigits(value, base, upper, prec);
    var a, z, kept, h, b := PrefixedText(value, negative, base, upper, fl, prec, width);
    PrefixDecides(value, negative, base, upper, fl, prec, width, z, kept, h);
    ReadsField(a, negative, fl, h, b, |h| < NTOA);
  }

  /** What is read, from the parts of the text. */
  lemma PrefixDecides(value: nat, negative: bool, base: nat, upper: bool, fl: Flags, prec: Option<nat>, width: nat,
                      z: nat, kept: string, h: string)
    requires Prefixed(value, base, fl)
    requires var digits := ValueDigits(value, base, upper, prec);
      && PlacesOf(digits, negative, base, fl, prec, width, z, kept) && 1 <= |digits|
      && h == Hashed(Repeat('0', z) + digits, base, upper, prec, ZeroWidth(negative, fl, width))
    ensures Solid(h)
    ensures AfterPrefix(h, base, upper) == Some(value) && (negative ==> |h| < NTOA)
       <==> PrefixFits(|ValueDigits(value, base, upper, prec)|, negative, base, fl, prec, width)
  {
    hide ValueDigits, AfterPrefix, NumberOf, AllDigits, Hashed, Repeat, PaddedLength, FillsWidth, ZeroWidth, Solid,
      PrefixOf, KeptPlaces;
    var digits := ValueDigits(value, base, upper, prec);
    KeptValue(value, base, upper, prec, z, ZeroWidth(negative, fl, width), kept);
    ReadsKept(Repeat('0', z) + digits, base, upper, prec, ZeroWidth(negative, fl, width), kept, h);
    if |kept| + |PrefixOf(base, upper)| > NTOA && base == 8 {
      FullOctal(value, upper, prec, z, kept);
    }
  }

  /** What is read of the kept places and their prefix. */
  lemma ReadsKept(p: string, base: nat, upper: bool, prec: Option<nat>, width: nat, kept: string, h: string)
    requires p != "" && |p| <= NTOA && (base == 2 || base == 8 || base == 16)
    requires kept == (if FillsWidth(|p|, prec, width) then p[Min(|p|, TakenAway(base))..] else p)
    requires AllDigits(kept, base) && h == Hashed(p, base, upper, prec, width)
    ensures Solid(h) && |h| == Min(NTOA, |kept| + |PrefixOf(base, upper)|)
    ensures AfterPrefix(h, base, upper) ==
      if |kept| + |PrefixOf(base, upper)| <= NTOA then Some(NumberOf(kept, base))
      else if base == 8 && kept[0] == '0' then Some(NumberOf(kept[1..], 8)) else None
  {
    hide AfterPrefix, NumberOf, AllDigits, Hashed, FillsWidth, Solid, PrefixOf;
    var kept' := HashedIs(p, base, upper, prec, width);
    if |kept| + |PrefixOf(base, upper)| <= NTOA {
      ReadsWhole(base, upper, kept);
    } else if base != 8 {
      ReadsHalf(base, upper, kept, h);
    } else {
      ReadsOctal(upper, kept);
    }
  }

  lemma HowManyDigits(value: nat, base: nat, upper: bool, prec: Option<nat>)
    requires 2 <= base <= 36 && 0 < value
    ensures |ValueDigits(value, base, upper, prec)| == Min(NTOA, DigitCount(value, base))
  {
    ValueDigitsAre(value, base, upper, prec);
  }

  /** Thirty-two places in base 8: zeros in front make the prefix. */
  lemma FullOctal(value: nat, upper: bool, prec: Option<nat>, z: nat, kept: string)
    requires 0 < value && |kept| == NTOA && kept == Repeat('0', z) + ValueDigits(value, 8, upper, prec)
    ensures (kept[0] == '0' && NumberOf(kept[1..], 8) == value) <==> 0 < z
  {
    hide NumberOf, ValueDigits, AllDigits, Repeat, DigitValue;
    var digits := ValueDigits(value, 8, upper, prec);
    DigitsLost(value, 8, upper, prec);
    KeptIs(z, digits, 1);
    if 0 < z {
      LeadingZeros(z - 1, digits, 8);
    } else {
      assert kept == digits;
    }
  }

  lemma HashedText(digits: string, negative: bool, base: nat, upper: bool, fl: Flags, prec: Option<nat>, width: nat,
                   h: string)
    requires fl.hash
    requires h == Hashed(Padded(digits, negative, fl, prec, width), base, upper, prec, ZeroWidth(negative, fl, width))
    ensures NumberText(digits, negative, base, upper, fl, prec, width)
         == (if |h| < NTOA then SignText(negative, fl) else "") + h
  {
    hide Padded, Hashed, ZeroWidth, SignText;
    assert "" + h == h;
  }

  /** For instance, 0x1234 by "%#4x" is 0x34. */
  lemma HexDigitsTaken()
    ensures IntegerText(0x1234, false, 16, false, HASH, None, 4) == "0x34"
  {
    assert DigitsOf(0x1234, 16, false, NTOA) == "1234";
  }

  /** 15 by "%#2o" is 07. */
  lemma OctalDigitTaken()
    ensures IntegerText(15, false, 8, false, HASH, None, 2) == "07"
  {
    assert DigitsOf(15, 8, false, NTOA) == "17";
  }

  /** 5 by "%#3b" is 0b01. */
  lemma BinaryDigitTaken()
    ensures IntegerText(5, false, 2, false, HASH, None, 3) == "0b01"
  {
    assert DigitsOf(5, 2, false, NTOA) == "101";
  }

  /** 1 by "%#.31x" has half of its prefix. */
  lemma PrefixCut()
    ensures IntegerText(1, false, 16, false, HASH, Some(31), 0)[0] == 'x'
  {
    assert DigitsOf(1, 16, false, NTOA) == "1";
  }
}
