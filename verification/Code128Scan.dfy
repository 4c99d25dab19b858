/** A whole Code 128 scan as a function of the characters read: when a symbol starts, when it
    ends, and what is found, for both scan directions. */
module Code128Scan {
  import opened Arith
  import opened Code128Check
  import opened Code128Text

  const BUFFER_MAX: nat := 0x100

  /** The codes read so far, in the order of the scan. */
  datatype Scan = Idle | Reading(reverse: bool, codes: seq<Byte>)

  /** The configured limits of the length of a text; no upper limit when it is zero. */
  datatype Limits = Limits(min: int, max: int)

  predicate LengthOk(n: int, l: Limits) {
    n >= l.min && !(l.max > 0 && n > l.max)
  }

  predicate IsStart(c: int) {
    START_A <= c <= STOP_REV && c != STOP_FWD
  }

  /** The last code of a scan: a stop code, or a start code when the stop code came first. */
  predicate Completes(reverse: bool, c: int) {
    if reverse then START_A <= c <= START_C else c == STOP_FWD
  }

  function StopOf(reverse: bool): (b: Byte) {
    if reverse then STOP_REV else STOP_FWD
  }

  /** The codes in the order from start to stop code. */
  function InOrder(reverse: bool, codes: seq<Byte>): (c: seq<Byte>)
    ensures |c| == |codes|
  {
    if reverse then Reversed(codes) else codes
  }

  /** The text of a symbol whose check code and length are right. */
  ghost function Result(c: seq<Byte>, stop: Byte, l: Limits): (o: Option<seq<Byte>>)
    requires |c| >= 3
  {
    var t := SymbolText(c, stop);
    if CheckOk(c) && t.Some? && LengthOk(|t.value|, l) then t else None
  }

  /** Whether all pairs of the symbol can be expanded within the buffer. */
  ghost predicate ExpansionFits(c: seq<Byte>, stop: Byte)
    requires |c| >= 3
  {
    |c| + SymbolPairs(c, stop) <= BUFFER_MAX
  }

  /** The character ends a symbol that has no room for its expansion. */
  ghost predicate Overflows(s: Scan, c: int)
    requires c < 0x80
  {
    && s.Reading? && 0 <= c && 2 <= |s.codes| < BUFFER_MAX && Completes(s.reverse, c)
    && !ExpansionFits(InOrder(s.reverse, s.codes + [c]), StopOf(s.reverse))
  }

  /** An overflow of a symbol whose check code can be relied on happens exactly when that is right. */
  ghost predicate OverflowExact(s: Scan, c: int, fits: bool)
    requires c < 0x80
  {
    Overflows(s, c) && Clean(InOrder(s.reverse, s.codes + [c])) ==>
      (fits <==> !CheckOk(InOrder(s.reverse, s.codes + [c])))
  }

  /** What follows a character c; free says that the buffer may be taken. */
  ghost function Next(s: Scan, c: int, free: bool): (r: Scan)
    requires c < 0x80
  {
    match s
    case Idle => if IsStart(c) && free then Reading(c == STOP_REV, [c]) else Idle
    case Reading(reverse, codes) =>
      if c < 0 || |codes| >= BUFFER_MAX || (|codes| >= 2 && Completes(reverse, c)) then Idle
      else Reading(reverse, codes + [c])
  }

  /** What is found with character c. */
  ghost function Found(s: Scan, c: int, l: Limits): (o: Option<seq<Byte>>)
    requires c < 0x80
  {
    match s
    case Idle => None
    case Reading(reverse, codes) =>
      if 0 <= c && 2 <= |codes| < BUFFER_MAX && Completes(reverse, c) then
        Result(InOrder(reverse, codes + [c]), StopOf(reverse), l)
      else None
  }

  /** The state after all characters of a sequence, the buffer being free. */
  ghost function After(s: Scan, cs: seq<Byte>): (r: Scan)
    requires forall i :: 0 <= i < |cs| ==> cs[i] < 0x80
  {
    if cs == [] then s else Next(After(s, cs[..|cs| - 1]), cs[|cs| - 1], true)
  }

  /** A scan that starts and does not complete is still reading, with all codes in the buffer. */
  lemma {:induction false} StillReading(cs: seq<Byte>)
    requires 1 <= |cs| <= BUFFER_MAX && IsStart(cs[0]) && forall i :: 0 <= i < |cs| ==> cs[i] < 0x80
    requires forall i :: 2 <= i < |cs| ==> !Completes(cs[0] == STOP_REV, cs[i])
    ensures After(Idle, cs) == Reading(cs[0] == STOP_REV, cs)
  {
    hide After, Completes;
    var n := |cs| - 1;
    AfterStep(cs);
    if n == 0 {
      AfterStep(cs[..0]);
      assert cs == [cs[0]];
    } else {
      StillReading(cs[..n]);
      assert cs == cs[..n] + [cs[n]];
    }
  }

  lemma AfterStep(cs: seq<Byte>)
    requires forall i :: 0 <= i < |cs| ==> cs[i] < 0x80
    ensures After(Idle, cs) == if cs == [] then Idle else Next(After(Idle, cs[..|cs| - 1]), cs[|cs| - 1], true)
  {
  }

  /** A printed symbol: start code, data, check code. */
  ghost predicate IsSymbol(c: seq<Byte>) {
    2 <= |c| < BUFFER_MAX && START_A <= c[0] <= START_C && forall i :: 1 <= i < |c| ==> c[i] < 103
  }

  /** A symbol gives the same result whether it is scanned from its start or from its stop code,
      and that is its text when the check code is right. */
  lemma BothDirections(c: seq<Byte>, l: Limits)
    requires IsSymbol(c)
    ensures After(Idle, c) == Reading(false, c)
    ensures After(Idle, Reversed(c[1..] + [STOP_REV])) == Reading(true, Reversed(c[1..] + [STOP_REV]))
    ensures Found(Reading(false, c), STOP_FWD, l) == Found(Reading(true, Reversed(c[1..] + [STOP_REV])), c[0], l)
    ensures Found(Reading(false, c), STOP_FWD, l) == Result(c + [STOP_FWD], STOP_FWD, l)
  {
    hide Text, CheckOk, After, Result, Reversed;
    StillReading(c);
    BackwardScan(c);
    var back := Reversed(c[1..] + [STOP_REV]);
    StillReading(back);
    SameResult(c, l);
  }

  /** The codes of a symbol from its stop code on. */
  lemma BackwardScan(c: seq<Byte>)
    requires IsSymbol(c)
    ensures var back := Reversed(c[1..] + [STOP_REV]);
      && back[0] == STOP_REV && InOrder(true, back + [c[0]]) == c + [STOP_REV]
      && (forall i :: 0 <= i < |back| ==> back[i] < 0x80) && forall i :: 1 <= i < |back| ==> back[i] < 103
  {
    var t := c[1..] + [STOP_REV];
    var back := Reversed(t);
    forall i | 1 <= i < |back| ensures back[i] < 103 {
      assert back[i] == t[|t| - 1 - i] == c[|t| - i];
    }
    assert InOrder(true, back + [c[0]]) == c + [STOP_REV];
  }

  /** The stop code itself has no influence. */
  lemma SameResult(c: seq<Byte>, l: Limits)
    requires IsSymbol(c)
    ensures Result(c + [STOP_FWD], STOP_FWD, l) == Result(c + [STOP_REV], STOP_REV, l)
  {
    hide Text;
    var f, r := c + [STOP_FWD], c + [STOP_REV];
    assert f[1..|f| - 2] == r[1..|r| - 2];
    WeightsEqual(f, r, 1, |f| - 3);
  }

  // ----- symbols that are too long -----

  lemma {:induction false} PairsOfSetC(c: seq<Byte>)
    requires forall i :: 0 <= i < |c| ==> c[i] < 100
    ensures Pairs(c, C, false) == |c|
  {
    if c != [] {
      PairsOfSetC(c[1..]);
    }
  }

  /** A symbol of code set C alone fits exactly when it has at most 126 data codes; a longer one
      is accepted by the scan all the same, up to 253. */
  lemma DigitsThatFit(c: seq<Byte>, check: Byte)
    requires 1 <= |c| && c[0] == START_C && forall i :: 1 <= i < |c| ==> c[i] < 100
    ensures ExpansionFits(c + [check] + [STOP_FWD], STOP_FWD) <==> |c| - 1 <= 126
  {
    var all := c + [check] + [STOP_FWD];
    assert all[1..|all| - 2] == c[1..];
    PairsOfSetC(c[1..]);
  }

  lemma {:induction false} WeightsOfZeros(c: seq<Byte>, i: nat, m: nat)
    requires m < |c| && forall k :: i <= k <= m ==> c[k] == 0
    ensures Weights(c, i, m) == 0
    decreases m + 1 - i
  {
    if i <= m {
      WeightsOfZeros(c, i + 1, m);
    }
  }

  /** A symbol that is too long: 127 times the pair 00 with the right check code.  The scan accepts
      all of its codes, and its stop code makes the expansion overflow. */
  lemma LongSymbol() returns (c: seq<Byte>)
    ensures IsSymbol(c) && Clean(c + [STOP_FWD]) && CheckOk(c + [STOP_FWD])
    ensures After(Idle, c) == Reading(false, c) && Overflows(Reading(false, c), STOP_FWD)
  {
    hide Weights, Pairs, Text, After;
    var data: seq<Byte> := seq(127, _ => 0);
    c := [START_C] + data + [2];
    var all := c + [STOP_FWD];
    WeightsOfZeros(all, 1, |all| - 3);
    StillReading(c);
    DigitsThatFit([START_C] + data, 2);
    assert all == [START_C] + data + [2] + [STOP_FWD];
  }
}
