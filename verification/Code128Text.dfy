/** The text of a Code 128 symbol: what the code sets A, B and C, the shift and the code set
    switches mean, written as a function of the codes. */
module Code128Text {
  import opened Arith

  datatype CodeSet = A | B | C

  const FNC3: Byte := 0x60
  const FNC2: Byte := 0x61
  const SHIFT: Byte := 0x62
  const CODE_C: Byte := 0x63
  const CODE_B: Byte := 0x64
  const CODE_A: Byte := 0x65
  const FNC1: Byte := 0x66
  const START_A: Byte := 0x67
  const START_C: Byte := 0x69
  const STOP_FWD: Byte := 0x6a
  const STOP_REV: Byte := 0x6b

  /** The character of a code below 0x60: code set A ends with the control characters, code set
      B with the lower case letters. */
  function Character(cs: CodeSet, v: Byte): (b: Byte)
    requires v < 0x60
  {
    if cs == A && v >= 0x40 then v - 0x40 else v + 0x20
  }

  /** The code set that a shift selects for one character. */
  function Shifted(cs: CodeSet, shift: bool): (r: CodeSet) {
    if !shift then cs else if cs == A then B else A
  }

  /** Two decimal digits. */
  function Digits(v: Byte): (d: seq<Byte>)
    requires v < 100
    ensures |d| == 2
  {
    [0x30 + v / 10, 0x30 + v % 10]
  }

  function AllDigits(c: seq<Byte>): (d: seq<Byte>)
    requires forall i :: 0 <= i < |c| ==> c[i] < 100
    ensures |d| == 2 * |c|
  {
    if c == [] then [] else AllDigits(c[..|c| - 1]) + Digits(c[|c| - 1])
  }

  function Front(p: seq<Byte>, t: Option<seq<Byte>>): (o: Option<seq<Byte>>) {
    match t
    case None => None
    case Some(s) => Some(p + s)
  }

  function NextSet(cs: CodeSet, v: Byte): (r: CodeSet) {
    if v == CODE_A then A else if v == CODE_B then B else if v == CODE_C then C else cs
  }

  function NextShift(shift: bool, v: Byte): (b: bool) {
    v == SHIFT || (shift && v != CODE_A && v != CODE_B && v != CODE_C)
  }

  /** The text of the codes c, read in a code set; a start, stop or unknown code fails. */
  function Text(c: seq<Byte>, cs: CodeSet, shift: bool): (o: Option<seq<Byte>>) {
    if c == [] then Some([])
    else if cs == C && c[0] < 100 then Front(Digits(c[0]), Text(c[1..], cs, shift))
    else if c[0] < 0x60 then Front([Character(Shifted(cs, shift), c[0])], Text(c[1..], cs, false))
    else if c[0] <= FNC1 then Text(c[1..], NextSet(cs, c[0]), NextShift(shift, c[0]))
    else None
  }

  /** How many codes stand for two digits. */
  function Pairs(c: seq<Byte>, cs: CodeSet, shift: bool): (n: nat) {
    if c == [] then 0
    else if cs == C && c[0] < 100 then 1 + Pairs(c[1..], cs, shift)
    else if c[0] < 0x60 then Pairs(c[1..], cs, false)
    else if c[0] <= FNC1 then Pairs(c[1..], NextSet(cs, c[0]), NextShift(shift, c[0]))
    else 0
  }

  function StartSet(v: Byte): (r: CodeSet) {
    if v == START_A then A else if v == START_C then C else B
  }

  /** The codes in the opposite order. */
  function Reversed(s: seq<Byte>): (r: seq<Byte>)
    ensures |r| == |s| && forall i :: 0 <= i < |s| ==> r[i] == s[|s| - 1 - i]
  {
    seq(|s|, i requires 0 <= i < |s| => s[|s| - 1 - i])
  }

  /** The text of a whole symbol: start code, data codes, check code, stop code. */
  function SymbolText(c: seq<Byte>, stop: Byte): (o: Option<seq<Byte>>)
    requires |c| >= 3
  {
    if c[|c| - 1] == stop && START_A <= c[0] <= START_C then Text(c[1..|c| - 2], StartSet(c[0]), false) else None
  }

  /** The codes that will be expanded on the way to the text. */
  function SymbolPairs(c: seq<Byte>, stop: Byte): (n: nat)
    requires |c| >= 3
  {
    if c[|c| - 1] == stop && START_A <= c[0] <= START_C then Pairs(c[1..|c| - 2], StartSet(c[0]), false) else 0
  }

  /** Only codes that the checksum can handle occur in a symbol that has a text. */
  lemma {:induction false} TextCodes(c: seq<Byte>, cs: CodeSet, shift: bool)
    requires Text(c, cs, shift).Some?
    ensures forall i :: 0 <= i < |c| ==> c[i] < 103
  {
    if c != [] {
      var cs', shift' := if (cs == C && c[0] < 100) || c[0] < 0x60 then cs else NextSet(cs, c[0]),
        if cs == C && c[0] < 100 then shift else if c[0] < 0x60 then false else NextShift(shift, c[0]);
      TextCodes(c[1..], cs', shift');
      forall i | 0 <= i < |c| ensures c[i] < 103 {
        if i > 0 {
          assert c[i] == c[1..][i - 1];
        }
      }
    }
  }

  /** The length of a text: a character for each data code below 0x60 outside code set C, two
      digits for each pair. */
  lemma {:induction false} TextLength(c: seq<Byte>, cs: CodeSet, shift: bool)
    requires Text(c, cs, shift).Some?
    ensures |Text(c, cs, shift).value| <= |c| + Pairs(c, cs, shift)
  {
    if c != [] {
      var cs', shift' := if (cs == C && c[0] < 100) || c[0] < 0x60 then cs else NextSet(cs, c[0]),
        if cs == C && c[0] < 100 then shift else if c[0] < 0x60 then false else NextShift(shift, c[0]);
      TextLength(c[1..], cs', shift');
    }
  }
}
