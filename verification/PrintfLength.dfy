/** How long the text of an integer conversion of the small printf is, with and without '#', and
    exactly when that is the length that section 7.21.6.1 of C11 asks for. */
module PrintfLength {
  import opened Arith
  import opened PrintfText
  import opened PrintfNumbers
  import opened PrintfPrefix

  /** The bases in which '#' has a meaning; conversions in other bases drop it. */
  predicate HashBase(base: nat, fl: Flags) {
    fl.hash ==> base == 2 || base == 8 || base == 16
  }

  /** Zero has no prefix. */
  predicate HasPrefix(value: nat, fl: Flags) {
    fl.hash && value > 0
  }

  function PrefixLength(value: nat, base: nat, fl: Flags): (n: nat) {
    if HasPrefix(value, fl) then |PrefixOf(base, false)| else 0
  }

  // ----- the length that C11 asks for -----

  /** Digits, zeros and prefix: '#' puts two places in front of base 16, and of base 2 as in C23,
      and makes the first digit of base 8 a zero unless the precision does. */
  function NeededPlaces(value: nat, base: nat, fl: Flags, prec: Option<nat>): (n: nat)
    requires 2 <= base
  {
    var d, p := CountOf(value, base, prec), PrecOf(prec);
    if !fl.hash then Max(d, p)
    else if base == 8 then Max(if value == 0 then 1 else d + 1, p)
    else if value == 0 then Max(d, p)
    else 2 + Max(d, p)
  }

  function NeededLength(value: nat, negative: bool, base: nat, fl: Flags, prec: Option<nat>): (n: nat)
    requires 2 <= base
  {
    |SignText(negative, fl)| + NeededPlaces(value, base, fl, prec)
  }

  // ----- the length that there is -----

  /** The places that the code asks for before it fills up the width: in a field aligned to the
      left the precision has no effect, and the prefix of base 8 comes on top of the precision. */
  function AskedLength(value: nat, negative: bool, base: nat, fl: Flags, prec: Option<nat>): (n: nat)
    requires 2 <= base
  {
    var d := CountOf(value, base, prec);
    |SignText(negative, fl)| + (if fl.left then d else Max(d, PrecOf(prec))) + PrefixLength(value, base, fl)
  }

  /** The places of the number itself, leading zeros included. */
  function NumberPlaces(value: nat, negative: bool, base: nat, fl: Flags, prec: Option<nat>, width: nat): (n: int)
    requires 2 <= base
  {
    var n := PaddedLength(Min(NTOA, CountOf(value, base, prec)), negative, fl, prec, width);
    if HasPrefix(value, fl) then Max(0, KeptPlaces(n, base, prec, ZeroWidth(negative, fl, width))) else n
  }

  /** Sign, prefix and number, as far as the scratch buffer reaches. */
  function NumberLength(value: nat, negative: bool, base: nat, fl: Flags, prec: Option<nat>, width: nat): (n: int)
    requires 2 <= base
  {
    Min(NTOA, |SignText(negative, fl)| + NumberPlaces(value, negative, base, fl, prec, width)
              + PrefixLength(value, base, fl))
  }

  /** The length of the text, whatever the arguments. */
  lemma TextLength(value: nat, negative: bool, base: nat, upper: bool, fl: Flags, prec: Option<nat>, width: nat)
    requires 2 <= base <= 36 && HashBase(base, fl)
    ensures var m := NumberLength(value, negative, base, fl, prec, width);
      |IntegerText(value, negative, base, upper, fl, prec, width)| == if fl.zero && !fl.left then m else Max(width, m)
  {
    hide IntegerText, PaddedLength, SignText, CountOf, ZeroWidth, KeptPlaces;
    if HasPrefix(value, fl) {
      HashedLength(value, negative, base, upper, fl, prec, width);
    } else {
      if fl.hash {
        ZeroWithoutHash(negative, base, upper, fl, prec, width);
      }
      PlainLength(value, negative, base, upper, fl.(hash := false), prec, width);
      SamePlaces(value, negative, base, fl, prec, width);
    }
  }

  lemma SamePlaces(value: nat, negative: bool, base: nat, fl: Flags, prec: Option<nat>, width: nat)
    requires 2 <= base
    ensures var x := fl.(hash := false);
      && SignText(negative, x) == SignText(negative, fl)
      && PaddedLength(Min(NTOA, CountOf(value, base, prec)), negative, x, prec, width)
         == PaddedLength(Min(NTOA, CountOf(value, base, prec)), negative, fl, prec, width)
  {
  }

  lemma PlainLength(value: nat, negative: bool, base: nat, upper: bool, fl: Flags, prec: Option<nat>, width: nat)
    requires 2 <= base <= 36 && !fl.hash
    ensures var n := PaddedLength(Min(NTOA, CountOf(value, base, prec)), negative, fl, prec, width);
      var m := Min(NTOA, |SignText(negative, fl)| + n);
      |IntegerText(value, negative, base, upper, fl, prec, width)| == if fl.zero && !fl.left then m else Max(width, m)
  {
    hide NumberText, ValueDigits, Field, NumberOf, AllDigits, Power, PaddedLength, SignText, IntegerText, CountOf;
    var digits := ValueDigits(value, base, upper, prec);
    ValueDigitsAre(value, base, upper, prec);
    IntegerTextIs(value, negative, base, upper, fl, prec, width);
    var z := NumberIs(digits, negative, base, upper, fl, prec, width);
    var a, b := FieldIs(NumberText(digits, negative, base, upper, fl, prec, width), fl, width);
  }

  lemma HashedLength(value: nat, negative: bool, base: nat, upper: bool, fl: Flags, prec: Option<nat>, width: nat)
    requires Prefixed(value, base, fl)
    ensures var n := PaddedLength(Min(NTOA, CountOf(value, base, prec)), negative, fl, prec, width);
      var k := Max(0, KeptPlaces(n, base, prec, ZeroWidth(negative, fl, width)));
      var m := Min(NTOA, |SignText(negative, fl)| + k + |PrefixOf(base, false)|);
      |IntegerText(value, negative, base, upper, fl, prec, width)| == if fl.zero && !fl.left then m else Max(width, m)
  {
    hide ValueDigits, Hashed, IntegerText, PaddedLength, SignText, ZeroWidth, DigitCount, PrefixOf, Repeat;
    HowManyDigits(value, base, upper, prec);
    var a, z, kept, h, b := PrefixedText(value, negative, base, upper, fl, prec, width);
    var p := Repeat('0', z) + ValueDigits(value, base, upper, prec);
    var kept' := HashedIs(p, base, upper, prec, ZeroWidth(negative, fl, width));
  }

  // ----- when they agree -----

  /** The conditions of a field filled up with zeros, within 32 places.  With '#' the zeros leave no
      place for the prefix but the places taken away: enough in bases 8 and 16, one too few in
      base 2, and none with a precision. */
  ghost predicate ZerosFit(value: nat, negative: bool, base: nat, fl: Flags, prec: Option<nat>, width: nat)
    requires 2 <= base
  {
    var asked, needed := AskedLength(value, negative, base, fl, prec), NeededLength(value, negative, base, fl, prec);
    var places := |SignText(negative, fl)| + Max(CountOf(value, base, prec), PrecOf(prec));
    if asked < needed then needed <= width
    else if !HasPrefix(value, fl) then true
    else if prec.Some? then width == NTOA || needed == NTOA || (width <= places && asked == needed)
    else width < places || (if base == 2 then needed == width + 1 || width == NTOA else needed <= width)
  }

  /** The conditions under which a text has the length of C11.  32 places are all there is; without
      zeros the width can make up for places that are missing, but for a number that fills it
      exactly '#' takes places away, and in base 8 there can be a zero too many. */
  ghost predicate LengthFits(value: nat, negative: bool, base: nat, fl: Flags, prec: Option<nat>, width: nat)
    requires 2 <= base
  {
    var asked, needed := AskedLength(value, negative, base, fl, prec), NeededLength(value, negative, base, fl, prec);
    if fl.zero && !fl.left then
      width <= NTOA && needed <= NTOA && ZerosFit(value, negative, base, fl, prec, width)
    else if needed < asked then
      needed < width || needed == NTOA || (needed == width && NTOA < needed)
    else
      || needed <= width
      || (needed <= NTOA && asked == needed
          && !(HasPrefix(value, fl) && prec.None? && CountOf(value, base, prec) == width))
  }

  /** A conversion has the length of C11 if and only if the conditions hold. */
  lemma IntegerLength(value: nat, negative: bool, base: nat, upper: bool, fl: Flags, prec: Option<nat>, width: nat)
    requires 2 <= base <= 36 && HashBase(base, fl)
    ensures |IntegerText(value, negative, base, upper, fl, prec, width)|
            == Max(width, NeededLength(value, negative, base, fl, prec))
       <==> LengthFits(value, negative, base, fl, prec, width)
  {
    hide IntegerText, NumberLength, NeededLength, LengthFits;
    TextLength(value, negative, base, upper, fl, prec, width);
    if !fl.zero || fl.left {
      SpacesAgree(value, negative, base, fl, prec, width);
    } else if !HasPrefix(value, fl) {
      ZerosAgree(value, negative, base, fl, prec, width);
    } else if prec.Some? {
      PrecisionAgrees(value, negative, base, fl, prec, width);
    } else {
      WidthAgrees(value, negative, base, fl, prec, width);
    }
  }

  lemma CountAtLeast(value: nat, base: nat, prec: Option<nat>)
    requires 2 <= base
    ensures CountOf(value, base, prec) == 0 <==> value == 0 && prec.Some?
    ensures value == 0 && prec.None? ==> CountOf(value, base, prec) == 1
  {
  }

  lemma ZeroWidthIs(negative: bool, fl: Flags, width: nat)
    ensures ZeroWidth(negative, fl, width) ==
      if fl.zero && !fl.left then Max(0, width - |SignText(negative, fl)|) else width
  {
  }

  lemma SpacesAgree(value: nat, negative: bool, base: nat, fl: Flags, prec: Option<nat>, width: nat)
    requires 2 <= base && HashBase(base, fl) && !(fl.zero && !fl.left)
    ensures Max(width, NumberLength(value, negative, base, fl, prec, width))
            == Max(width, NeededLength(value, negative, base, fl, prec))
       <==> LengthFits(value, negative, base, fl, prec, width)
  {
    hide CountOf, SignText, ZeroWidth, PrefixOf;
    CountAtLeast(value, base, prec);
    ZeroWidthIs(negative, fl, width);
  }

  lemma ZerosAgree(value: nat, negative: bool, base: nat, fl: Flags, prec: Option<nat>, width: nat)
    requires 2 <= base && HashBase(base, fl) && fl.zero && !fl.left && !HasPrefix(value, fl)
    ensures NumberLength(value, negative, base, fl, prec, width)
            == Max(width, NeededLength(value, negative, base, fl, prec))
       <==> LengthFits(value, negative, base, fl, prec, width)
  {
    hide CountOf, SignText, ZeroWidth, PrefixOf;
    CountAtLeast(value, base, prec);
    ZeroWidthIs(negative, fl, width);
  }

  lemma PrecisionAgrees(value: nat, negative: bool, base: nat, fl: Flags, prec: Option<nat>, width: nat)
    requires Prefixed(value, base, fl) && fl.zero && !fl.left && prec.Some?
    ensures NumberLength(value, negative, base, fl, prec, width)
            == Max(width, NeededLength(value, negative, base, fl, prec))
       <==> LengthFits(value, negative, base, fl, prec, width)
  {
    hide CountOf, SignText, ZeroWidth, PrefixOf;
    CountAtLeast(value, base, prec);
    ZeroWidthIs(negative, fl, width);
  }

  lemma WidthAgrees(value: nat, negative: bool, base: nat, fl: Flags, prec: Option<nat>, width: nat)
    requires Prefixed(value, base, fl) && fl.zero && !fl.left && prec.None?
    ensures NumberLength(value, negative, base, fl, prec, width)
            == Max(width, NeededLength(value, negative, base, fl, prec))
       <==> LengthFits(value, negative, base, fl, prec, width)
  {
    hide CountOf, SignText, ZeroWidth, PrefixOf;
    CountAtLeast(value, base, prec);
    ZeroWidthIs(negative, fl, width);
  }

  /** Padding with zeros reaches the width if and only if that is at most 32. */
  lemma ZerosReachWidth(value: nat, negative: bool, base: nat, upper: bool, fl: Flags, prec: Option<nat>, width: nat)
    requires 2 <= base <= 36 && HashBase(base, fl) && fl.zero && !fl.left
    ensures width <= |IntegerText(value, negative, base, upper, fl, prec, width)| <==> width <= NTOA
  {
    hide IntegerText, CountOf, SignText, ZeroWidth, PrefixOf;
    TextLength(value, negative, base, upper, fl, prec, width);
    CountAtLeast(value, base, prec);
    ZeroWidthIs(negative, fl, width);
  }

  const ZERO_HASH := Flags(true, false, false, false, true)

  /** For instance, "%-.3d" prints 5 as 5, and "%040d" prints it with 31 zeros in front. */
  lemma PrecisionIgnored()
    ensures IntegerText(5, false, 10, false, Flags(false, true, false, false, false), Some(3), 0) == "5"
    ensures |IntegerText(5, false, 10, false, Flags(true, false, false, false, false), None, 40)| == 32
  {
    assert DigitsOf(5, 10, false, NTOA) == "5";
    TextLength(5, false, 10, false, Flags(true, false, false, false, false), None, 40);
  }

  /** 0x1234 by "%#4x" has 4 places, where C11 asks for 6. */
  lemma PrefixTooShort()
    ensures |IntegerText(0x1234, false, 16, false, HASH, None, 4)| == 4
    ensures NeededLength(0x1234, false, 16, HASH, None) == 6
  {
    HexDigitsTaken();
    assert DigitCount(0x1234, 16) == 1 + DigitCount(0x123, 16) == 2 + DigitCount(0x12, 16);
  }

  /** 15 by "%#.5o" is 000017, one place more than C11 asks for. */
  lemma OctalZeroAdded()
    ensures IntegerText(15, false, 8, false, HASH, Some(5), 0) == "000017"
    ensures NeededLength(15, false, 8, HASH, Some(5)) == 5
  {
    assert DigitsOf(15, 8, false, NTOA) == "17";
    assert DigitCount(15, 8) == 1 + DigitCount(1, 8);
  }

  /** 5 by "%#08b" has 9 places. */
  lemma BinaryZerosTooLong()
    ensures |IntegerText(5, false, 2, false, ZERO_HASH, None, 8)| == 9
    ensures NeededLength(5, false, 2, ZERO_HASH, None) == 5
  {
    assert DigitCount(5, 2) == 1 + DigitCount(2, 2) == 2 + DigitCount(1, 2);
    TextLength(5, false, 2, false, ZERO_HASH, None, 8);
  }

  /** 0 by "%#.0o" is nothing, where C11 asks for 0. */
  lemma OctalZeroLost()
    ensures IntegerText(0, false, 8, false, HASH, Some(0), 0) == ""
    ensures NeededLength(0, false, 8, HASH, Some(0)) == 1
  {
  }
}
