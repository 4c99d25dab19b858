/** The text that the small printf of the SDK (Third_Party/vsprintf/new_printf.c) produces, as a
    function of the format and the arguments: integers, characters and strings. */
module PrintfText {
  import opened Arith

  /** Capacity of the scratch buffer for one number. */
  const NTOA: nat := 32

  datatype Flags = Flags(zero: bool, left: bool, plus: bool, space: bool, hash: bool)

  datatype Size = Plain | Short | Char | Long | LongLong

  // ----- digits -----

  function Digit(d: nat, upper: bool): (c: char)
    requires d < 36
  {
    if d < 10 then '0' + d as char else (if upper then 'A' else 'a') + (d - 10) as char
  }

  /** The last room digits of a value. */
  function DigitsOf(value: nat, base: nat, upper: bool, room: nat): (s: string)
    requires 2 <= base <= 36
    ensures |s| <= room
  {
    if room == 0 then ""
    else if value < base then [Digit(value, upper)]
    else DigitsOf(value / base, base, upper, room - 1) + [Digit(value % base, upper)]
  }

  // ----- fields -----

  /** Zeros in front, up to n characters but not beyond the scratch buffer. */
  function AtLeast(s: string, n: nat): (t: string) {
    Repeat('0', (if n < NTOA then n else NTOA) - |s|) + s
  }

  function SignText(negative: bool, fl: Flags): (s: string)
    ensures |s| <= 1
  {
    if negative then "-" else if fl.plus then "+" else if fl.space then " " else ""
  }

  /** The prefix of the '#' flag, after leading padding was removed to make room for it. */
  function Hashed(s: string, base: nat, upper: bool, prec: Option<nat>, width: nat): (t: string) {
    var s1 := if prec.None? && s != "" && |s| == width
      then (if base == 16 && |s| > 1 then s[2..] else s[1..]) else s;
    var s2 := if |s1| < NTOA && base == 16 then [if upper then 'X' else 'x'] + s1
      else if |s1| < NTOA && base == 2 then "b" + s1 else s1;
    if |s2| < NTOA then "0" + s2 else s2
  }

  function PrecOf(prec: Option<nat>): (n: nat) {
    if prec.Some? then prec.value else 0
  }

  /** The width that zeros fill, which leaves a place for the sign. */
  function ZeroWidth(negative: bool, fl: Flags, width: nat): (n: nat) {
    if !fl.left && width > 0 && fl.zero && (negative || fl.plus || fl.space) then width - 1 else width
  }

  /** Digits with leading zeros; no leading zeros in a field that is aligned to the left. */
  function Padded(digits: string, negative: bool, fl: Flags, prec: Option<nat>, width: nat): (s: string) {
    if fl.left then digits
    else if fl.zero then AtLeast(AtLeast(digits, PrecOf(prec)), ZeroWidth(negative, fl, width))
    else AtLeast(digits, PrecOf(prec))
  }

  /** A number with its sign, before it is padded with spaces. */
  function NumberText(digits: string, negative: bool, base: nat, upper: bool, fl: Flags, prec: Option<nat>, width: nat)
    : (s: string)
  {
    var p := Padded(digits, negative, fl, prec, width);
    var h := if fl.hash then Hashed(p, base, upper, prec, ZeroWidth(negative, fl, width)) else p;
    if |h| < NTOA then SignText(negative, fl) + h else h
  }

  /** Spaces behind, in front, or none because zeros were used. */
  function Field(s: string, fl: Flags, width: nat): (t: string) {
    if fl.left then s + Repeat(' ', width - |s|) else if fl.zero then s else Repeat(' ', width - |s|) + s
  }

  /** The digits of a conversion; none for a zero with an explicit precision. */
  function ValueDigits(value: nat, base: nat, upper: bool, prec: Option<nat>): (s: string)
    requires 2 <= base <= 36
    ensures |s| <= NTOA
  {
    if prec.Some? && value == 0 then "" else DigitsOf(value, base, upper, NTOA)
  }

  /** An integer conversion. */
  function IntegerText(value: nat, negative: bool, base: nat, upper: bool, fl: Flags, prec: Option<nat>, width: nat)
    : (s: string)
    requires 2 <= base <= 36
  {
    var digits := ValueDigits(value, base, upper, prec);
    var fl' := if value == 0 then fl.(hash := false) else fl;
    Field(NumberText(digits, negative, base, upper, fl', prec, width), fl, width)
  }
}
