/** Formats of the small printf: directives, and the text of a whole format.  The text depends
    on the format and the arguments only, not on the size of the output buffer. */
module PrintfFormat {
  import opened Arith
  import opened PrintfText

  /** An argument; pointers are integers, strings are without their terminator. */
  datatype Arg = Int(v: int) | Str(s: string)

  function IntOf(args: seq<Arg>): (n: int) {
    if args != [] && args[0].Int? then args[0].v else 0
  }

  function StrOf(args: seq<Arg>): (t: string) {
    if args != [] && args[0].Str? then args[0].s else ""
  }

  function Others(args: seq<Arg>): (s: seq<Arg>) {
    if args == [] then [] else args[1..]
  }

  /** v as an n-bit signed integer, for a modulus of two to the n. */
  function AsSigned(v: int, modulus: int): (n: int)
    requires 0 < modulus
  {
    (v + modulus / 2) % modulus - modulus / 2
  }

  function AsUnsigned(v: int, modulus: int): (n: nat)
    requires 0 < modulus
  {
    v % modulus
  }

  const U8: int := 0x100
  const U16: int := 0x1_0000
  const U32: int := 0x1_0000_0000
  const U64: int := 0x1_0000_0000_0000_0000

  function Modulus(size: Size): (m: int)
    ensures 0 < m
  {
    match size
    case Plain => U32
    case Long => U32
    case LongLong => U64
    case Short => U16
    case Char => U8
  }

  // ----- the parts of a directive -----

  predicate IsDigit(c: char) {
    '0' <= c <= '9'
  }

  /** What is left of a format, and of the arguments, behind a part that was read. */
  datatype Read<T> = Read(value: T, rest: string, args: seq<Arg>)

  const NO_FLAGS := Flags(false, false, false, false, false)

  function ReadFlags(f: string, fl: Flags): (r: (Flags, string))
    ensures |r.1| <= |f|
  {
    if f == "" then (fl, f)
    else if f[0] == '0' then ReadFlags(f[1..], fl.(zero := true))
    else if f[0] == '-' then ReadFlags(f[1..], fl.(left := true))
    else if f[0] == '+' then ReadFlags(f[1..], fl.(plus := true))
    else if f[0] == ' ' then ReadFlags(f[1..], fl.(space := true))
    else if f[0] == '#' then ReadFlags(f[1..], fl.(hash := true))
    else (fl, f)
  }

  /** A decimal number in unsigned 32-bit arithmetic. */
  function ReadDecimal(f: string, n: nat): (r: (nat, string))
    ensures |r.1| <= |f|
  {
    if f != "" && IsDigit(f[0]) then ReadDecimal(f[1..], (n * 10 + (f[0] - '0') as nat) % U32) else (n, f)
  }

  /** The width: a number, or an argument whose minus sign means the '-' flag. */
  function ReadWidth(f: string, fl: Flags, args: seq<Arg>): (r: Read<(Flags, nat)>)
    ensures |r.rest| <= |f|
  {
    if f != "" && IsDigit(f[0]) then
      var (n, rest) := ReadDecimal(f, 0);
      Read((fl, n), rest, args)
    else if f != "" && f[0] == '*' then
      var w := AsSigned(IntOf(args), U32);
      Read(if w < 0 then (fl.(left := true), -w) else (fl, w), f[1..], Others(args))
    else Read((fl, 0), f, args)
  }

  /** The precision: none, a number, or an argument that counts as zero when negative. */
  function ReadPrecision(f: string, args: seq<Arg>): (r: Read<Option<nat>>)
    ensures |r.rest| <= |f|
  {
    if f == "" || f[0] != '.' then Read(None, f, args)
    else if |f| > 1 && IsDigit(f[1]) then
      var (n, rest) := ReadDecimal(f[1..], 0);
      Read(Some(n), rest, args)
    else if |f| > 1 && f[1] == '*' then
      var p := AsSigned(IntOf(args), U32);
      Read(Some(if p > 0 then p else 0), f[2..], Others(args))
    else Read(Some(0), f[1..], args)
  }

  function ReadSize(f: string): (r: (Size, string))
    ensures |r.1| <= |f|
  {
    if f == "" then (Plain, f)
    else if f[0] == 'l' then (if |f| > 1 && f[1] == 'l' then (LongLong, f[2..]) else (Long, f[1..]))
    else if f[0] == 'h' then (if |f| > 1 && f[1] == 'h' then (Char, f[2..]) else (Short, f[1..]))
    else if f[0] == 't' || f[0] == 'z' then (Long, f[1..])
    else if f[0] == 'j' then (LongLong, f[1..])
    else (Plain, f)
  }

  datatype Directive = Directive(fl: Flags, width: nat, prec: Option<nat>, size: Size)

  /** Everything between '%' and the conversion character. */
  function ReadDirective(f: string, args: seq<Arg>): (r: Read<Directive>)
    ensures |r.rest| <= |f|
  {
    var (fl0, f1) := ReadFlags(f, NO_FLAGS);
    var w := ReadWidth(f1, fl0, args);
    var p := ReadPrecision(w.rest, w.args);
    var (size, f2) := ReadSize(p.rest);
    Read(Directive(w.value.0, w.value.1, p.value, size), f2, p.args)
  }

  // ----- conversions -----

  predicate IsInteger(c: char) {
    c == 'd' || c == 'i' || c == 'u' || c == 'x' || c == 'X' || c == 'o' || c == 'b'
  }

  predicate IsSigned(c: char) {
    c == 'd' || c == 'i'
  }

  predicate IsFloat(c: char) {
    c == 'f' || c == 'F' || c == 'e' || c == 'E' || c == 'g' || c == 'G'
  }

  function BaseOf(c: char): (b: nat)
    ensures 2 <= b <= 36
  {
    if c == 'x' || c == 'X' then 16 else if c == 'o' then 8 else if c == 'b' then 2 else 10
  }

  /** The flags that matter for an integer: '#' not for decimal, signs only for signed
      conversions, '0' only without a precision. */
  function IntegerFlags(c: char, fl: Flags, prec: Option<nat>): (x: Flags) {
    Flags(fl.zero && prec.None?, fl.left, fl.plus && IsSigned(c), fl.space && IsSigned(c), fl.hash && BaseOf(c) != 10)
  }

  /** An argument of a signed conversion, cut to its size; whether a plain char is signed depends
      on the target. */
  function SignedArg(size: Size, args: seq<Arg>, signedChar: bool): (v: int) {
    if size == Char && !signedChar then AsUnsigned(IntOf(args), U8) else AsSigned(IntOf(args), Modulus(size))
  }

  /** Magnitude and sign of an integer argument. */
  function IntegerArg(c: char, size: Size, args: seq<Arg>, signedChar: bool): (r: (nat, bool)) {
    if IsSigned(c) then
      var v := SignedArg(size, args, signedChar);
      (if v > 0 then v else -v, v < 0)
    else (AsUnsigned(IntOf(args), Modulus(size)), false)
  }

  function CharOf(args: seq<Arg>): (c: char) {
    AsUnsigned(IntOf(args), U8) as char
  }

  function Truncated(s: string, prec: Option<nat>): (t: string) {
    if prec.Some? && prec.value < |s| then s[..prec.value] else s
  }

  /** The text of one conversion. */
  function Conversion(c: char, d: Directive, args: seq<Arg>, signedChar: bool): (s: string) {
    if IsInteger(c) then
      var (value, negative) := IntegerArg(c, d.size, args, signedChar);
      IntegerText(value, negative, BaseOf(c), c == 'X', IntegerFlags(c, d.fl, d.prec), d.prec, d.width)
    else if c == 'c' then Field([CharOf(args)], d.fl.(zero := false), d.width)
    else if c == 's' then Field(Truncated(StrOf(args), d.prec), d.fl.(zero := false), d.width)
    else if c == 'p' then IntegerText(AsUnsigned(IntOf(args), U32), false, 16, true, d.fl.(zero := true), d.prec, 8)
    else [c]
  }

  function AfterConversion(c: char, args: seq<Arg>): (s: seq<Arg>) {
    if IsInteger(c) || c == 'c' || c == 's' || c == 'p' then Others(args) else args
  }

  // ----- formats -----

  /** Each '%' has a conversion character, which is not a floating-point one. */
  predicate WellFormed(f: string, args: seq<Arg>)
    decreases |f|
  {
    if f == "" then true
    else if f[0] != '%' then WellFormed(f[1..], args)
    else
      var d := ReadDirective(f[1..], args);
      d.rest != "" && !IsFloat(d.rest[0]) && WellFormed(d.rest[1..], AfterConversion(d.rest[0], d.args))
  }

  /** The text of a format. */
  function Render(f: string, args: seq<Arg>, signedChar: bool): (s: string)
    requires WellFormed(f, args)
    decreases |f|
  {
    if f == "" then ""
    else if f[0] != '%' then [f[0]] + Render(f[1..], args, signedChar)
    else
      var d := ReadDirective(f[1..], args);
      Conversion(d.rest[0], d.value, d.args, signedChar)
        + Render(d.rest[1..], AfterConversion(d.rest[0], d.args), signedChar)
  }
}
