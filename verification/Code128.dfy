/** The back end of ZBar's Code 128 decoder (Third_Party/ZBAR/src/code128.c, with size_buf of
    decoder.h): checksum validation and the conversion of the codes to text in place. */
module Code128 {
  import opened Arith
  import opened Code128Check
  import opened Code128Text
  import opened Code128Scan

  const BUFFER_MIN: nat := 0x20
  const BUFFER_INCR: nat := 0x10

  // ----- the code set byte of postprocess -----

  /** 0, 1, 2 for the code sets A, B, C; bit 0x80 for a pending shift. */
  ghost predicate IsCharset(charset: Byte) {
    charset <= 2 || charset == 0x80 || charset == 0x81
  }

  function SetOf(charset: Byte): (r: CodeSet) {
    if charset == 0 || charset == 0x80 then A else if charset == 2 then C else B
  }

  function ShiftOf(charset: Byte): (b: bool) {
    charset >= 0x80
  }

  /** Whether bit 0x2 is set. */
  function IsSetC(charset: Byte): (b: bool) {
    charset / 2 % 2 == 1
  }

  /** The checksum loop has added the data codes above i. */
  ghost predicate Summed(c: seq<Byte>, i: nat, acc: int, sum: int) {
    && |c| >= 3 && i <= |c| - 3 && 0 <= acc && 0 <= sum
    && acc % 103 == Tail(c, i + 1, |c| - 3) % 103
    && sum % 103 == (c[0] + Tails(c, i + 1, |c| - 3)) % 103
    && (Clean(c) ==> acc < 103 && sum < 103)
  }

  /** Subtraction in place of division. */
  function Less103(x: int): (v: int) {
    if x >= 103 then x - 103 else x
  }

  lemma SumStart(c: seq<Byte>)
    requires |c| >= 3
    ensures Summed(c, |c| - 3, 0, Less103(c[0]))
  {
  }

  lemma AddSame(a: int, b: int, v: int)
    requires a % 103 == b % 103
    ensures (a + v) % 103 == (b + v) % 103
  {
  }

  lemma Less103Is(x: int)
    ensures Less103(x) % 103 == x % 103 && (x < 206 ==> Less103(x) < 103) && (0 <= x ==> 0 <= Less103(x))
  {
  }

  lemma SumArith(acc: int, sum: int, v: int, t: int, s: int)
    requires acc % 103 == t % 103 && sum % 103 == s % 103 && 0 <= acc && 0 <= sum && 0 <= v
    ensures var acc' := Less103(acc + v); var sum' := Less103(sum + acc');
      && 0 <= acc' && 0 <= sum' && acc' % 103 == (v + t) % 103 && sum' % 103 == (s + (v + t)) % 103
      && (acc < 103 && v < 103 ==> acc' < 103) && (acc' < 103 && sum < 103 ==> sum' < 103)
  {
    hide Less103;
    var acc' := Less103(acc + v);
    AddSame(acc, t, v);
    Less103Is(acc + v);
    AddSame(sum, s, acc');
    AddSame(acc', v + t, s);
    Less103Is(sum + acc');
  }

  lemma SumStep(c: seq<Byte>, i: nat, acc: int, sum: int)
    requires Summed(c, i, acc, sum) && 0 < i
    ensures var acc' := Less103(acc + c[i]); Summed(c, i - 1, acc', Less103(sum + acc'))
  {
    hide Less103;
    SumArith(acc, sum, c[i], Tail(c, i + 1, |c| - 3), c[0] + Tails(c, i + 1, |c| - 3));
  }

  lemma SumEnd(c: seq<Byte>, acc: int, sum: int)
    requires Summed(c, 0, acc, sum)
    ensures sum == c[|c| - 2] ==> Weighted(c) % 103 == c[|c| - 2] % 103
    ensures Clean(c) ==> (sum == c[|c| - 2] <==> CheckOk(c))
  {
    hide Weights, Tails, Tail, Clean;
    TailsAreWeights(c, 1, |c| - 3);
    SmallRemainder(sum, Weighted(c));
  }

  lemma SmallRemainder(sum: int, w: nat)
    requires 0 <= sum && sum % 103 == w % 103
    ensures sum < 103 ==> sum == w % 103
  {
  }

  /** In a clean symbol no assertion of the loop can fail. */
  lemma SumClean(c: seq<Byte>, i: nat, acc: int, sum: int)
    requires Summed(c, i, acc, sum)
    ensures Clean(c) ==> acc < 103 && sum < 103
  {
  }

  lemma AllDigitsNext(c: seq<Byte>, k: nat)
    requires k <= |c| && forall i :: 0 <= i < |c| ==> c[i] < 100
    ensures AllDigits(c[..0]) == []
    ensures k < |c| ==> AllDigits(c[..k + 1]) == AllDigits(c[..k]) + Digits(c[k])
  {
    if k < |c| {
      assert c[..k + 1][..k] == c[..k];
    }
  }

  /** Part of the way through an expansion: i of the codes from start to end, which were moved
      up by their number, have become digits at dst; all the rest is as before. */
  ghost predicate Expanding(b: seq<Byte>, before: seq<Byte>, dst: nat, start: nat, end: nat, i: nat) {
    && dst < start <= end <= |before| && i <= end - start && |before| + (end - start) <= |b|
    && (forall k :: start <= k < end ==> before[k] < 100)
    && b[..dst] == before[..dst]
    && b[end + i..|before| + (end - start)] == before[start + i..]
    && b[dst..dst + 2 * i] == AllDigits(before[start..start + i])
  }

  /** The codes from start on are moved up by delta places. */
  ghost predicate Moved(b: seq<Byte>, before: seq<Byte>, start: nat, delta: nat) {
    && start <= |before| && |before| + delta <= |b|
    && b[..start] == before[..start] && b[start + delta..|before| + delta] == before[start..]
  }

  /** The two digits of v at place j. */
  function WithDigits(b: seq<Byte>, j: nat, v: Byte): (s: seq<Byte>)
    requires j + 1 < |b| && v < 100
  {
    b[j := 0x30 + v / 10][j + 1 := 0x30 + v % 10]
  }

  lemma ExpandStart(b: seq<Byte>, before: seq<Byte>, dst: nat, start: nat, end: nat)
    requires dst < start <= end <= |before| && Moved(b, before, start, end - start)
    requires forall k :: start <= k < end ==> before[k] < 100
    ensures Expanding(b, before, dst, start, end, 0)
  {
    assert b[..dst] == b[..start][..dst] && before[..dst] == before[..start][..dst];
  }

  lemma ExpandRead(b: seq<Byte>, before: seq<Byte>, dst: nat, start: nat, end: nat, i: nat)
    requires Expanding(b, before, dst, start, end, i) && i < end - start
    ensures dst + 2 * i + 1 < |b| && end + i < |b| && b[end + i] == before[start + i] < 100
  {
    assert b[end + i] == b[end + i..|before| + (end - start)][0] == before[start + i..][0];
  }

  lemma ExpandStep(b: seq<Byte>, a: seq<Byte>, before: seq<Byte>, dst: nat, start: nat, end: nat, i: nat, v: Byte)
    requires Expanding(b, before, dst, start, end, i) && i < end - start && dst + 2 * i + 1 < |b|
    requires v == before[start + i] < 100 && a == WithDigits(b, dst + 2 * i, v)
    ensures Expanding(a, before, dst, start, end, i + 1)
  {
    hide AllDigits;
    var n, j := |before| + (end - start), dst + 2 * i;
    assert a[..dst] == b[..dst];
    assert a[end + i + 1..n] == b[end + i..n][1..] && before[start + i + 1..] == before[start + i..][1..];
    assert a[dst..j + 2] == b[dst..j] + [0x30 + v / 10, 0x30 + v % 10];
    AllDigitsNext(before[start..end], i);
    assert before[start..end][..i] == before[start..start + i];
    assert before[start..end][..i + 1] == before[start..start + i + 1];
  }

  // ----- the conversion, step by step -----

  /** Set C codes that were passed over and wait for their expansion. */
  ghost function Pending(b: seq<Byte>, i: nat, cexp: nat, charset: Byte): (p: seq<Byte>)
    requires i <= |b|
    ensures IsSetC(charset) && cexp <= i ==> |p| == i - cexp
    ensures !IsSetC(charset) ==> p == []
  {
    if IsSetC(charset) && cexp <= i then b[cexp..i] else []
  }

  /** What a conversion is to reach: the text of the symbol, and the number of codes when all pairs
      are expanded; plain says that no data code has bit 0x80. */
  datatype Goal = Goal(whole: Option<seq<Byte>>, room: nat, plain: bool)

  ghost function GoalOf(c: seq<Byte>, stop: Byte): (r: Goal)
    requires |c| >= 3
  {
    Goal(SymbolText(c, stop), |c| + SymbolPairs(c, stop), forall k :: 1 <= k < |c| - 2 ==> c[k] < 0x80)
  }

  /** The codes before place i of a symbol of n codes have become the text before place j, except
      for the pending ones, and what is written stays behind what is read. */
  ghost predicate Progress(b: seq<Byte>, n: nat, i: nat, j: nat, cexp: nat, charset: Byte, g: Goal) {
    && n <= |b| && j < i <= n - 2 && IsCharset(charset)
    && (IsSetC(charset) ==> j < cexp <= i)
    && (forall k :: 0 <= k < |Pending(b, i, cexp, charset)| ==> Pending(b, i, cexp, charset)[k] < 100)
    && n + |Pending(b, i, cexp, charset)| + Pairs(b[i..n - 2], SetOf(charset), ShiftOf(charset)) == g.room
    && (g.plain ==> forall k :: i <= k < n - 2 ==> b[k] < 0x80)
    && g.whole == Front(b[..j] + AllDigits(Pending(b, i, cexp, charset)),
                        Text(b[i..n - 2], SetOf(charset), ShiftOf(charset)))
  }

  lemma ProgressBounds(b: seq<Byte>, n: nat, i: nat, j: nat, cexp: nat, charset: Byte, g: Goal)
    requires Progress(b, n, i, j, cexp, charset, g)
    ensures n <= |b| && j < i <= n - 2 && IsCharset(charset)
    ensures IsSetC(charset) ==> j < cexp <= i && n + (i - cexp) <= g.room && forall k :: cexp <= k < i ==> b[k] < 100
  {
    if IsSetC(charset) {
      var p := Pending(b, i, cexp, charset);
      assert forall k :: cexp <= k < i ==> b[k] == p[k - cexp];
    }
  }

  lemma ProgressStart(b: seq<Byte>, n: nat, stop: Byte)
    requires 3 <= n <= |b| && START_A <= b[0] <= START_C && b[n - 1] == stop
    ensures Progress(b, n, 1, 0, if b[0] == START_C then 1 else 0, b[0] - START_A, GoalOf(b[..n], stop))
  {
    hide Text, Pairs;
    assert b[..n][1..n - 2] == b[1..n - 2];
    NoPending(b, 1, b[0] - START_A);
    FrontNothing(Text(b[1..n - 2], StartSet(b[0]), false));
    assert b[..0] + AllDigits([]) == [];
    assert SetOf(b[0] - START_A) == StartSet(b[0]) && !ShiftOf(b[0] - START_A);
    assert Pending(b, 1, if b[0] == START_C then 1 else 0, b[0] - START_A) == [];
  }

  lemma NoPending(b: seq<Byte>, i: nat, charset: Byte)
    requires i <= |b|
    ensures Pending(b, i, i, charset) == [] && Pending(b, i, 0, if IsSetC(charset) then 0 else charset) == []
    ensures AllDigits([]) == []
  {
  }

  lemma FrontNothing(t: Option<seq<Byte>>)
    ensures Front([], t) == t
  {
    if t.Some? {
      assert [] + t.value == t.value;
    }
  }

  lemma FrontTwice(p: seq<Byte>, q: seq<Byte>, t: Option<seq<Byte>>)
    ensures Front(p, Front(q, t)) == Front(p + q, t)
  {
    if t.Some? {
      assert p + (q + t.value) == p + q + t.value;
    }
  }

  lemma Unread(b: seq<Byte>, i: nat, m: nat)
    requires i < m <= |b|
    ensures b[i..m] != [] && b[i..m][0] == b[i] && b[i..m][1..] == b[i + 1..m]
  {
  }

  /** A set C code is left for later. */
  lemma ProgressDefer(b: seq<Byte>, n: nat, i: nat, j: nat, cexp: nat, charset: Byte, g: Goal)
    requires Progress(b, n, i, j, cexp, charset, g) && i < n - 2 && IsSetC(charset) && b[i] < 100
    ensures Progress(b, n, i + 1, j, cexp, charset, g)
  {
    hide AllDigits, Digits, Text, Pairs, Front;
    Unread(b, i, n - 2);
    var p, v := Pending(b, i, cexp, charset), b[i];
    assert Pending(b, i + 1, cexp, charset) == p + [v];
    DigitStep(p, v);
    PairRead(b[i..n - 2]);
    FrontTwice(b[..j] + AllDigits(p), Digits(v), Text(b[i + 1..n - 2], C, false));
    assert b[..j] + AllDigits(p) + Digits(v) == b[..j] + (AllDigits(p) + Digits(v));
  }

  lemma PairRead(c: seq<Byte>)
    requires c != [] && c[0] < 100
    ensures Text(c, C, false) == Front(Digits(c[0]), Text(c[1..], C, false))
    ensures Pairs(c, C, false) == 1 + Pairs(c[1..], C, false)
  {
  }

  lemma DigitStep(p: seq<Byte>, v: Byte)
    requires v < 100 && forall k :: 0 <= k < |p| ==> p[k] < 100
    ensures AllDigits(p + [v]) == AllDigits(p) + Digits(v)
  {
    assert (p + [v])[..|p|] == p;
  }

  /** A code of set A or B becomes its character. */
  lemma ProgressLetter(b: seq<Byte>, a: seq<Byte>, n: nat, i: nat, j: nat, cexp: nat, charset: Byte, g: Goal)
    requires Progress(b, n, i, j, cexp, charset, g) && i < n - 2 && !IsSetC(charset) && b[i] < 0x60
    requires a == b[j := Character(Shifted(SetOf(charset), ShiftOf(charset)), b[i])]
    ensures Progress(a, n, i + 1, j + 1, cexp, charset % 0x80, g)
  {
    Unread(b, i, n - 2);
    var ch := Character(Shifted(SetOf(charset), ShiftOf(charset)), b[i]);
    var rest := Text(b[i + 1..n - 2], SetOf(charset), false);
    assert a[i + 1..n - 2] == b[i + 1..n - 2];
    assert a[..j + 1] == b[..j] + [ch];
    assert b[..j] + AllDigits([]) == b[..j] && a[..j + 1] + AllDigits([]) == a[..j + 1];
    FrontTwice(b[..j], [ch], rest);
  }

  /** The pending codes become digits. */
  lemma ProgressExpand(b: seq<Byte>, a: seq<Byte>, n: nat, i: nat, j: nat, cexp: nat, charset: Byte, g: Goal)
    requires Progress(b, n, i, j, cexp, charset, g) && IsSetC(charset) && cexp <= i
    requires Expanding(a, b[..n], j, cexp, i, i - cexp)
    ensures var d := i - cexp; Progress(a, n + d, i + d, j + 2 * d, i + d, charset, g) && a[i + d] == b[i]
  {
    hide Text, Pairs, AllDigits, Expanding;
    var d := i - cexp;
    ExpandedParts(b, a, n, i, j, cexp);
    PendingIs(b, i, cexp, charset);
    NoPending(a, i + d, charset);
    assert a[..j + 2 * d] + [] == a[..j + 2 * d];
  }

  lemma PendingIs(b: seq<Byte>, i: nat, cexp: nat, charset: Byte)
    requires cexp <= i <= |b| && IsSetC(charset)
    ensures Pending(b, i, cexp, charset) == b[cexp..i]
  {
  }

  /** The text in front of an expansion and its digits. */
  lemma ExpandedText(b: seq<Byte>, a: seq<Byte>, n: nat, i: nat, j: nat, cexp: nat)
    requires 2 <= n <= |b| && j < cexp <= i <= n - 2 && Expanding(a, b[..n], j, cexp, i, i - cexp)
    ensures forall k :: cexp <= k < i ==> b[k] < 100
    ensures j + 2 * (i - cexp) <= |a| && a[..j + 2 * (i - cexp)] == b[..j] + AllDigits(b[cexp..i])
  {
    hide AllDigits;
    var d, c := i - cexp, b[..n];
    forall k | cexp <= k < i ensures b[k] < 100 {
      assert c[k] == b[k];
    }
    assert c[cexp..cexp + d] == b[cexp..i] && c[..j] == b[..j];
    assert a[..j + 2 * d] == a[..j] + a[j..j + 2 * d];
  }

  /** The codes behind an expansion have moved up. */
  lemma ExpandedTail(b: seq<Byte>, a: seq<Byte>, n: nat, i: nat, j: nat, cexp: nat)
    requires 2 <= n <= |b| && j < cexp <= i <= n - 2 && Expanding(a, b[..n], j, cexp, i, i - cexp)
    ensures var d := i - cexp; n + d <= |a| && a[i + d..n + d] == b[i..n]
  {
    hide AllDigits;
    assert b[..n][i..] == b[i..n];
  }

  lemma MovedUp(a: seq<Byte>, b: seq<Byte>, p: nat, i: nat, n: nat)
    requires i <= n - 2 && n <= |b| && p + n - i <= |a| && a[p..p + n - i] == b[i..n]
    ensures a[p] == b[i] && a[p..p + n - i - 2] == b[i..n - 2]
    ensures forall k :: p <= k < p + n - i - 2 ==> a[k] == b[k - p + i]
  {
    var s, t := a[p..p + n - i], b[i..n];
    forall k | p <= k < p + n - i ensures a[k] == b[k - p + i] {
      assert s[k - p] == t[k - p];
    }
    var u, v := a[p..p + n - i - 2], b[i..n - 2];
    forall k | 0 <= k < |u| ensures u[k] == v[k] {
      assert u[k] == a[p + k] && v[k] == b[i + k];
    }
    assert u == v;
  }

  lemma ExpandedParts(b: seq<Byte>, a: seq<Byte>, n: nat, i: nat, j: nat, cexp: nat)
    requires 2 <= n <= |b| && j < cexp <= i <= n - 2 && Expanding(a, b[..n], j, cexp, i, i - cexp)
    ensures var d := i - cexp;
      && n + d <= |a| && (forall k :: cexp <= k < i ==> b[k] < 100)
      && a[i + d] == b[i] && a[i + d..n + d - 2] == b[i..n - 2]
      && a[..j + 2 * d] == b[..j] + AllDigits(b[cexp..i])
      && forall k :: i + d <= k < n + d - 2 ==> a[k] == b[k - d]
  {
    hide AllDigits, Expanding;
    ExpandedText(b, a, n, i, j, cexp);
    ExpandedTail(b, a, n, i, j, cexp);
    MovedUp(a, b, i + (i - cexp), i, n);
  }

  /** What a shift, a function code or a code set switch does to the code set byte. */
  function NextCharset(charset: Byte, v: Byte): (b: Byte)
    requires FNC3 <= v <= FNC1 && IsCharset(charset)
  {
    if v < CODE_C then (if v == SHIFT && charset < 0x80 then charset + 0x80 else charset)
    else if v == FNC1 then charset
    else CODE_A - v
  }

  lemma ProgressControl(b: seq<Byte>, n: nat, i: nat, j: nat, charset: Byte, g: Goal)
    requires Progress(b, n, i, j, i, charset, g) && i < n - 2
    requires FNC3 <= b[i] <= FNC1 && (IsSetC(charset) ==> b[i] >= 100)
    ensures Progress(b, n, i + 1, j, i + 1, NextCharset(charset, b[i]), g)
  {
    Unread(b, i, n - 2);
    NoPending(b, i, charset);
    NoPending(b, i + 1, NextCharset(charset, b[i]));
  }

  /** Outside code set C the place of pending codes does not matter. */
  lemma ProgressCexp(b: seq<Byte>, n: nat, i: nat, j: nat, cexp: nat, cexp': nat, charset: Byte, g: Goal)
    requires Progress(b, n, i, j, cexp, charset, g) && !IsSetC(charset)
    ensures Progress(b, n, i, j, cexp', charset, g)
  {
    hide Text, Pairs;
  }

  lemma ProgressFails(b: seq<Byte>, n: nat, i: nat, j: nat, cexp: nat, charset: Byte, g: Goal)
    requires Progress(b, n, i, j, cexp, charset, g) && i < n - 2 && b[i] > FNC1
    ensures g.whole == None && (b[i] >= 0x80 ==> !g.plain) && g.room == n + |Pending(b, i, cexp, charset)|
  {
    Unread(b, i, n - 2);
  }

  lemma ProgressEnd(b: seq<Byte>, n: nat, i: nat, j: nat, charset: Byte, g: Goal)
    requires Progress(b, n, i, j, i, charset, g) && i == n - 2
    ensures g.whole == Some(b[..j]) && g.room == n
  {
    NoPending(b, i, charset);
    assert b[i..n - 2] == [];
    assert b[..j] + [] + [] == b[..j];
  }

  class Decoder {
    var buf: array<Byte>
    var bufAlloc: nat
    var buflen: nat
    /** Number of codes in the buffer. */
    var character: nat
    /** True when the symbol was scanned from its stop code on. */
    var direction: bool
    /** True between symbols, where the source has character == -1. */
    var idle: bool
    /** Whether the buffer is in use, by this or by another symbology. */
    var lock: bool
    var limits: Limits
    /** Counts the elements of a character, in three bits. */
    var element: nat

    ghost predicate Valid()
      reads this
    {
      buf.Length == bufAlloc && BUFFER_MIN <= bufAlloc <= BUFFER_MAX && character <= bufAlloc && element < 8
    }

    /** The codes of the symbol from start to stop code. */
    ghost function Codes(): (c: seq<Byte>)
      reads this, buf
      requires character <= buf.Length
      ensures |c| == character
    {
      InOrder(direction, buf[..character])
    }

    ghost function Scanned(): (r: Scan)
      reads this, buf
      requires character <= buf.Length
    {
      if idle then Idle else Reading(direction, buf[..character])
    }

    constructor (l: Limits)
      ensures Valid() && Scanned() == Idle && !lock && limits == l && fresh(buf)
    {
      buf := new Byte[BUFFER_MIN];
      bufAlloc, buflen, character, direction := BUFFER_MIN, 0, 0, false;
      idle, lock, limits, element := true, false, l, 0;
    }

    /** size_buf, with a realloc that succeeds. */
    method SizeBuf(len: nat) returns (failed: bool)
      requires Valid()
      modifies this`buf, this`bufAlloc
      ensures Valid() && (buf == old(buf) || fresh(buf))
      ensures old(bufAlloc) <= bufAlloc && buf[..old(bufAlloc)] == old(buf[..])
      ensures failed == (len > BUFFER_MAX) && (failed ==> buf == old(buf))
      ensures !failed ==> len <= bufAlloc && (len < bufAlloc || len == BUFFER_MAX || len >= old(bufAlloc) + BUFFER_INCR)
      ensures !failed ==> bufAlloc == old(bufAlloc) || bufAlloc - old(bufAlloc) >= BUFFER_INCR || bufAlloc == BUFFER_MAX
      ensures len < old(bufAlloc) ==> buf == old(buf)
    {
      if len < bufAlloc {
        return false;
      }
      if len > BUFFER_MAX {
        return true;
      }
      var size := len;
      if size < bufAlloc + BUFFER_INCR {
        size := bufAlloc + BUFFER_INCR;
        if size > BUFFER_MAX {
          size := BUFFER_MAX;
        }
      }
      var bigger := new Byte[size];
      forall i | 0 <= i < bufAlloc {
        bigger[i] := buf[i];
      }
      assert bigger[..bufAlloc] == buf[..];
      buf, bufAlloc := bigger, size;
      return false;
    }

    // ----- the checksum -----

    lemma CodeIs(i: nat)
      requires i < character <= buf.Length
      ensures Codes()[i] == buf[if direction then character - 1 - i else i]
    {
    }

    /** validate_checksum: zero when the check code is right. */
    method ValidateChecksum() returns (err: Byte)
      requires Valid()
      ensures character < 3 ==> err != 0
      ensures character >= 3 && err == 0 ==> Weighted(Codes()) % 103 == Codes()[character - 2] % 103
      ensures character >= 3 && Clean(Codes()) ==> (err == 0 <==> CheckOk(Codes()))
    {
      hide Summed, Clean, Weighted, CheckOk, Codes;
      if character < 3 {
        return 1;
      }
      ghost var c := Codes();
      var idx := if direction then character - 1 else 0;
      CodeIs(0);
      var sum: int := buf[idx];
      if sum >= 103 {
        sum := sum - 103;
      }
      var i, acc: int := character - 3, 0;
      SumStart(c);
      while i > 0
        invariant 0 <= i <= character - 3 && Summed(c, i, acc, sum)
      {
        SumClean(c, i, acc, sum);
        if !(sum < 103) {
          return 255;
        }
        idx := if direction then character - 1 - i else i;
        CodeIs(i);
        SumStep(c, i, acc, sum);
        SumClean(c, i - 1, Less103(acc + c[i]), Less103(sum + Less103(acc + c[i])));
        acc := acc + buf[idx];
        if acc >= 103 {
          acc := acc - 103;
        }
        if !(acc < 103) {
          return 255;
        }
        sum := sum + acc;
        if sum >= 103 {
          sum := sum - 103;
        }
        i := i - 1;
      }
      SumEnd(c, acc, sum);
      idx := if direction then 1 else character - 2;
      var check := buf[idx];
      CodeIs(character - 2);
      err := if sum != check then 1 else 0;
    }

    // ----- conversion to text -----

    /** postprocess_c: makes room and turns the codes from start to end into digits at dst.  It
        ignores a failure to make room; fits is false then, and what follows is not modelled. */
    method PostprocessC(start: nat, end: nat, dst: nat) returns (delta: nat, fits: bool)
      requires Valid() && dst < start <= end <= character
      requires forall k :: start <= k < end ==> buf[k] < 100
      modifies this`buf, this`bufAlloc, this`character, buf
      ensures Valid() && (buf == old(buf) || fresh(buf))
      ensures fits <==> old(character) + (end - start) <= BUFFER_MAX
      ensures fits ==> delta == end - start && character == old(character) + delta
      ensures fits ==> Expanding(buf[..], old(buf[..character]), dst, start, end, delta)
    {
      hide AllDigits, Digits, Expanding, WithDigits, Moved;
      ghost var before := buf[..character];
      delta := end - start;
      var newlen := character + delta;
      fits := MakeRoom(start, delta);
      if !fits {
        return;
      }
      character := newlen;
      ExpandStart(buf[..], before, dst, start, end);
      var i, j := 0, dst;
      while i < delta
        invariant 0 <= i <= delta && j == dst + 2 * i && Valid() && character == newlen
        invariant buf == old(buf) || fresh(buf)
        invariant Expanding(buf[..], before, dst, start, end, i)
      {
        ExpandOne(before, start, end, dst, delta, i, j);
        i, j := i + 1, j + 2;
      }
    }

    /** The loop body of postprocess_c. */
    method ExpandOne(ghost before: seq<Byte>, start: nat, ghost end: nat, ghost dst: nat, delta: nat, i: nat, j: nat)
      requires Expanding(buf[..], before, dst, start, end, i) && start + delta == end && i < delta && j == dst + 2 * i
      modifies buf
      ensures Expanding(buf[..], before, dst, start, end, i + 1)
    {
      hide Expanding, WithDigits;
      ghost var b := buf[..];
      ExpandRead(b, before, dst, start, end, i);
      var code := buf[start + delta + i];
      WriteDigits(code, j);
      ExpandStep(b, buf[..], before, dst, start, end, i, code);
    }

    /** The two digits of one code, without a division. */
    method WriteDigits(code0: Byte, j: nat)
      requires code0 < 100 && j + 1 < buf.Length
      modifies buf
      ensures buf[..] == WithDigits(old(buf[..]), j, code0)
    {
      var code := code0;
      buf[j] := 0x30;
      if code >= 50 {
        code := code - 50;
        buf[j] := buf[j] + 5;
      }
      if code >= 30 {
        code := code - 30;
        buf[j] := buf[j] + 3;
      }
      if code >= 20 {
        code := code - 20;
        buf[j] := buf[j] + 2;
      }
      if code >= 10 {
        code := code - 10;
        buf[j] := buf[j] + 1;
      }
      // what both zasserts check
      assert buf[j] <= 0x39 && code <= 9;
      buf[j + 1] := 0x30 + code;
    }

    /** Grows the buffer and moves the codes from start on up by delta places. */
    method MakeRoom(start: nat, delta: nat) returns (fits: bool)
      requires Valid() && start <= character
      modifies this`buf, this`bufAlloc, buf
      ensures Valid() && (buf == old(buf) || fresh(buf))
      ensures fits <==> character + delta <= BUFFER_MAX
      ensures fits ==> character + delta <= bufAlloc && Moved(buf[..], old(buf[..character]), start, delta)
    {
      hide Moved;
      ghost var before := buf[..];
      var failed := SizeBuf(character + delta);
      fits := !failed;
      if fits {
        assert before[..character] == buf[..|before|][..character] == buf[..character];
        MoveUp(start, delta);
      }
    }

    /** memmove of the codes from start on. */
    method MoveUp(start: nat, delta: nat)
      requires buf.Length == bufAlloc && start <= character && character + delta <= bufAlloc
      modifies buf
      ensures Moved(buf[..], old(buf[..character]), start, delta)
    {
      ghost var before := buf[..character];
      forall k | start + delta <= k < character + delta {
        buf[k] := buf[k - delta];
      }
      assert buf[start + delta..character + delta] == before[start..];
    }

    /** Reverses the codes in place. */
    method ReverseBuffer()
      requires Valid()
      modifies buf
      ensures buf[..character] == Reversed(old(buf[..character]))
    {
      hide Reversed, HalfReversed;
      ghost var before := buf[..];
      var i := 0;
      HalfReversedStart(before, character);
      while i < character / 2
        invariant 0 <= i <= character / 2 && HalfReversed(buf[..], before, character, i)
      {
        var j := character - 1 - i;
        HalfReversedStep(buf[..], before, character, i);
        var code := buf[i];
        buf[i] := buf[j];
        buf[j] := code;
        i := i + 1;
      }
      HalfReversedEnd(buf[..], before, character);
    }

    /** Expands the pending codes of set C, if there are any; reading goes on at i'. */
    method Flush(i: nat, j: nat, cexp: nat, charset: Byte, ghost g: Goal) returns (i': nat, j': nat, fits: bool)
      requires Valid() && Progress(buf[..], character, i, j, cexp, charset, g)
      modifies this`buf, this`bufAlloc, this`character, buf
      ensures Valid() && (buf == old(buf) || fresh(buf))
      ensures g.room <= BUFFER_MAX ==> fits
      ensures fits ==> Progress(buf[..], character, i', j', i', charset, g)
      ensures fits ==> i' - i == character - old(character) && i' <= character - 2 && buf[i'] == old(buf[i])
    {
      hide Progress, Expanding;
      ProgressBounds(buf[..], character, i, j, cexp, charset, g);
      i', j', fits := i, j, true;
      if IsSetC(charset) {
        assert cexp != 0;
        ghost var b, n := buf[..], character;
        var delta;
        delta, fits := PostprocessC(cexp, i, j);
        if !fits {
          return;
        }
        ProgressExpand(b, buf[..], n, i, j, cexp, charset, g);
        i' := i' + delta;
        j' := j' + delta * 2;
      } else {
        ProgressCexp(buf[..], character, i, j, cexp, i, charset, g);
      }
    }

    /** postprocess: the codes become the text of the symbol, in place; that stays inside the
        buffer exactly when all pairs find room. */
    method Postprocess() returns (err: Byte, fits: bool)
      requires Valid() && 3 <= character
      modifies this`buf, this`bufAlloc, this`buflen, this`character, buf
      ensures Valid() && (buf == old(buf) || fresh(buf)) && err <= 1
      ensures old(character) + SymbolPairs(old(Codes()), StopOf(direction)) <= BUFFER_MAX ==> fits
      ensures fits && (forall k :: 1 <= k < old(character) - 2 ==> old(Codes())[k] < 0x80) ==>
        old(character) + SymbolPairs(old(Codes()), StopOf(direction)) <= BUFFER_MAX
      ensures fits ==> (err == 0 <==> SymbolText(old(Codes()), StopOf(direction)).Some?)
      ensures fits && err == 0 ==> buflen == character < bufAlloc && buf[buflen] == 0
      ensures fits && err == 0 ==> SymbolText(old(Codes()), StopOf(direction)) == Some(buf[..buflen])
    {
      hide SymbolText, SymbolPairs, Progress, Reversed;
      ghost var codes, stop := Codes(), StopOf(direction);
      if direction {
        ReverseBuffer();
      }
      assert buf[..character] == codes;
      StopOrNone(codes, stop);
      if buf[character - 1] != (if direction then STOP_REV else STOP_FWD) {
        return 1, true;
      }
      var start := buf[0];
      if !(START_A <= start <= START_C) {
        return 1, true;
      }
      ProgressStart(buf[..], character, stop);
      err, fits := Convert(start - START_A, if start == START_C then 1 else 0, GoalOf(codes, stop));
    }

    /** A code of set A or B is written as its character. */
    method WriteLetter(i: nat, j: nat, cexp: nat, charset: Byte, ghost g: Goal) returns (charset': Byte)
      requires Valid() && Progress(buf[..], character, i, j, cexp, charset, g) && i < character - 2
      requires i < buf.Length && buf[i] < 0x60 && !IsSetC(charset)
      modifies buf
      ensures Progress(buf[..], character, i + 1, j + 1, cexp, charset', g)
    {
      hide Progress;
      ProgressBounds(buf[..], character, i, j, cexp, charset, g);
      ghost var b := buf[..];
      var code := buf[i] + 0x20;
      if (charset == 0 || charset == 0x81) && code >= 0x60 {
        code := code - 0x60;
      }
      buf[j] := code;
      ProgressLetter(b, buf[..], character, i, j, cexp, charset, g);
      charset' := if charset >= 0x80 then charset - 0x80 else charset;
    }

    /** The branch of the loop for codes from 0x60 on: expansion, then the control code itself. */
    method Control(i0: nat, j0: nat, cexp0: nat, charset0: Byte, ghost g: Goal)
      returns (i: nat, j: nat, cexp: nat, charset: Byte, failed: bool, fits: bool)
      requires Valid() && Progress(buf[..], character, i0, j0, cexp0, charset0, g) && i0 < character - 2
      requires FNC3 <= buf[i0] < 0x80 && !(IsSetC(charset0) && buf[i0] < 100)
      modifies this`buf, this`bufAlloc, this`character, buf
      ensures Valid() && (buf == old(buf) || fresh(buf))
      ensures g.room <= BUFFER_MAX ==> fits
      ensures fits && failed ==> g.whole == None && g.room <= BUFFER_MAX
      ensures fits && !failed ==>
        && i - i0 == character - old(character) && i < character - 2
        && Progress(buf[..], character, i + 1, j, cexp, charset, g)
    {
      hide Progress, Pending;
      ProgressBounds(buf[..], character, i0, j0, cexp0, charset0, g);
      var code := buf[i0];
      failed, cexp, charset := false, 0, charset0;
      i, j, fits := Flush(i0, j0, cexp0, charset, g);
      if !fits {
        return;
      }
      if code >= START_A {
        NoPending(buf[..], i, charset);
        ProgressFails(buf[..], character, i, j, i, charset, g);
        failed := true;
        return;
      }
      ProgressControl(buf[..], character, i, j, charset, g);
      charset := ControlCode(charset, code);
      if IsSetC(charset) {
        cexp := i + 1;
      } else {
        ProgressCexp(buf[..], character, i + 1, j, i + 1, cexp, charset, g);
      }
    }

    /** The conversion loop of postprocess, started in a code set. */
    method Convert(charset0: Byte, cexp0: nat, ghost g: Goal) returns (err: Byte, fits: bool)
      requires Valid() && Progress(buf[..], character, 1, 0, cexp0, charset0, g)
      modifies this`buf, this`bufAlloc, this`buflen, this`character, buf
      ensures Valid() && (buf == old(buf) || fresh(buf)) && err <= 1
      ensures (g.room <= BUFFER_MAX ==> fits) && (fits && g.plain ==> g.room <= BUFFER_MAX)
      ensures fits ==> (err == 0 <==> g.whole.Some?)
      ensures fits && err == 0 ==> buflen == character < bufAlloc && buf[buflen] == 0 && g.whole == Some(buf[..buflen])
    {
      hide Progress, Pending;
      ProgressBounds(buf[..], character, 1, 0, cexp0, charset0, g);
      var charset: Byte, cexp: nat := charset0, cexp0;
      var i, j: nat := 1, 0;
      while i < character - 2
        invariant 1 <= i <= character - 2 && Valid() && (buf == old(buf) || fresh(buf))
        invariant Progress(buf[..], character, i, j, cexp, charset, g)
        decreases character - i
      {
        ProgressBounds(buf[..], character, i, j, cexp, charset, g);
        var code := buf[i];
        if code >= 0x80 {
          ProgressFails(buf[..], character, i, j, cexp, charset, g);
          return 1, true;
        }
        if IsSetC(charset) && code < 100 {
          ProgressDefer(buf[..], character, i, j, cexp, charset, g);
        } else if code < 0x60 {
          charset := WriteLetter(i, j, cexp, charset, g);
          j := j + 1;
        } else {
          var failed;
          i, j, cexp, charset, failed, fits := Control(i, j, cexp, charset, g);
          if failed || !fits {
            return 1, fits;
          }
        }
        i := i + 1;
      }
      i, j, fits := Flush(i, j, cexp, charset, g);
      if !fits {
        return 1, false;
      }
      ProgressEnd(buf[..], character, i, j, charset, g);
      ProgressBounds(buf[..], character, i, j, i, charset, g);
      ghost var text := buf[..j];
      buflen := j;
      buf[j] := 0;
      assert buf[..j] == text;
      character := j;
      return 0, true;
    }

    /** The end of _zbar_decode_code128: validation, conversion, and the limits of the length. */
    method Finish() returns (found: bool, fits: bool)
      requires Valid() && 3 <= character
      modifies this`buf, this`bufAlloc, this`buflen, this`character, this`idle, this`lock, buf
      ensures Valid() && Scanned() == Idle && (buf == old(buf) || fresh(buf))
      ensures lock == (found && old(lock))
      ensures ExpansionFits(old(Codes()), StopOf(direction)) ==> fits
      ensures Clean(old(Codes())) ==>
        (fits <==> (CheckOk(old(Codes())) ==> ExpansionFits(old(Codes()), StopOf(direction))))
      ensures fits ==> (found <==> Result(old(Codes()), StopOf(direction), limits).Some?)
      ensures found ==> fits && buflen < bufAlloc && buf[buflen] == 0
                        && Result(old(Codes()), StopOf(direction), limits) == Some(buf[..buflen])
    {
      hide Codes, SymbolPairs, SymbolText, CheckOk, Clean, Weighted;
      ghost var c := Codes();
      TextIsClean(c, StopOf(direction));
      CleanIsPlain(c);
      var err := ValidateChecksum();
      fits := true;
      if err == 0 {
        err, fits := Postprocess();
      }
      found := fits && err == 0 && !(character < limits.min || (limits.max > 0 && character > limits.max));
      idle := true;
      if !found {
        lock := false;
      }
    }

    method GrowForOne() returns (overflow: bool)
      requires Valid() && BUFFER_MIN <= character
      modifies this`buf, this`bufAlloc
      ensures Valid() && (buf == old(buf) || fresh(buf)) && buf[..character] == old(buf[..character])
      ensures overflow == (character == BUFFER_MAX) && (!overflow ==> character < bufAlloc)
    {
      ghost var before := buf[..];
      overflow := SizeBuf(character + 1);
      assert before[..character] == buf[..|before|][..character] == buf[..character];
    }

    /** One more code in the buffer. */
    method Append(c: Byte)
      requires Valid() && character < bufAlloc
      modifies this`character, buf
      ensures Valid() && buf[..character] == old(buf[..character]) + [c]
    {
      ghost var before := buf[..character];
      buf[character] := c;
      character := character + 1;
      assert buf[..character] == before + [c];
    }

    /** _zbar_decode_code128 from the decoded character on; quiet says that the quiet zone before
        a start character is wide enough. */
    method Feed(c: int, quiet: bool) returns (found: bool, fits: bool)
      requires Valid() && -1 <= c < 0x80
      modifies this, buf
      ensures Valid() && (buf == old(buf) || fresh(buf)) && limits == old(limits)
      ensures element == if old(idle) && !idle && c == STOP_REV then 7 else old(element)
      ensures Scanned() == Next(old(Scanned()), c, quiet && !old(lock))
      ensures lock == if old(idle) then old(lock) || !idle else old(lock) && (found || !idle)
      ensures (fits || Overflows(old(Scanned()), c)) && OverflowExact(old(Scanned()), c, fits)
      ensures fits ==> (found <==> Found(old(Scanned()), c, limits).Some?)
      ensures found ==> fits && buflen < bufAlloc && buf[buflen] == 0
      ensures found ==> Found(old(Scanned()), c, limits) == Some(buf[..buflen])
    {
      hide ExpansionFits, SymbolText, CheckOk, Result, Clean;
      found, fits := false, true;
      if idle {
        if c < START_A || c > STOP_REV || c == STOP_FWD || !quiet || lock {
          return;
        }
        lock := true;
        idle, character := false, 0;
        direction := c == STOP_REV;
        if c == STOP_REV {
          element := 7;
        }
      } else {
        var overflow := c < 0;
        if !overflow && character >= BUFFER_MIN {
          overflow := GrowForOne();
        }
        if overflow {
          lock, idle := false, true;
          return;
        }
      }
      Append(c);
      if character > 2 && (if direction then c >= START_A && c <= START_C else c == STOP_FWD) {
        found, fits := Finish();
      }
    }

    /** _zbar_decode_code128 for one element: c is the character that the last six widths make, qz
        the width in front of them and s6 their sum.  The element counts when it is the last one of
        a character, and of the colour of the scan direction. */
    method Element(color: bool, c: int, qz: nat, s6: nat) returns (found: bool, fits: bool)
      requires Valid() && -1 <= c < 0x80
      modifies this, buf
      ensures Valid() && (buf == old(buf) || fresh(buf)) && limits == old(limits)
      ensures !old((idle || (element + 1) % 8 == 6) && color == direction) ==>
        && !found && fits && Scanned() == old(Scanned()) && lock == old(lock) && direction == old(direction)
        && element == if old(idle) then old(element) else (old(element) + 1) % 8
      ensures old((idle || (element + 1) % 8 == 6) && color == direction) ==>
        && Scanned() == Next(old(Scanned()), c, QuietZone(qz, s6) && !old(lock))
        && element == (if old(idle) && !idle && c == STOP_REV then 7 else 0)
        && (fits || Overflows(old(Scanned()), c)) && OverflowExact(old(Scanned()), c, fits)
        && (fits ==> (found <==> Found(old(Scanned()), c, limits).Some?))
      ensures found ==> fits && buflen < bufAlloc && buf[buflen] == 0
      ensures found ==> Found(old(Scanned()), c, limits) == Some(buf[..buflen])
    {
      hide Next, Found, Overflows, OverflowExact;
      if !idle {
        element := (element + 1) % 8;
        if element != 6 {
          return false, true;
        }
      }
      if color != direction {
        return false, true;
      }
      element := 0;
      found, fits := Feed(c, QuietZone(qz, s6));
    }
  }

  /** The quiet zone is missing, or at least three quarters of a character wide. */
  predicate QuietZone(qz: nat, s6: nat) {
    !(qz != 0 && qz < s6 * 3 / 4)
  }

  /** The outer i codes of the first n at both ends have changed places. */
  ghost predicate HalfReversed(a: seq<Byte>, b: seq<Byte>, n: nat, i: nat) {
    && |a| == |b| && n <= |a| && 2 * i <= n
    && (forall k :: 0 <= k < i || n - i <= k < n ==> a[k] == b[n - 1 - k])
    && forall k :: i <= k < n - i ==> a[k] == b[k]
  }

  lemma HalfReversedStart(b: seq<Byte>, n: nat)
    requires n <= |b|
    ensures HalfReversed(b, b, n, 0)
  {
  }

  lemma HalfReversedStep(a: seq<Byte>, b: seq<Byte>, n: nat, i: nat)
    requires HalfReversed(a, b, n, i) && i < n / 2
    ensures var j := n - 1 - i; n <= |a| && HalfReversed(a[i := a[j]][j := a[i]], b, n, i + 1)
  {
    var j := n - 1 - i;
    var c := a[i := a[j]][j := a[i]];
    assert a[i] == b[i] && a[j] == b[j] && n - 1 - j == i;
    forall k | 0 <= k < i + 1 || n - (i + 1) <= k < n ensures c[k] == b[n - 1 - k] {
      if k != i && k != j {
        assert c[k] == a[k];
      }
    }
  }

  lemma HalfReversedEnd(a: seq<Byte>, b: seq<Byte>, n: nat)
    requires HalfReversed(a, b, n, n / 2)
    ensures n <= |b| == |a| && a[..n] == Reversed(b[..n])
  {
    forall k | 0 <= k < n ensures a[..n][k] == Reversed(b[..n])[k] {
      if k == n / 2 {
        assert k < n - n / 2 ==> n - 1 - k == k;
      }
    }
  }

  lemma CleanIsPlain(c: seq<Byte>)
    requires |c| >= 3
    ensures Clean(c) ==> forall k :: 1 <= k < |c| - 2 ==> c[k] < 0x80
  {
  }

  /** Symbols with a text are clean, so that the checksum loop decides exactly. */
  lemma TextIsClean(c: seq<Byte>, stop: Byte)
    requires |c| >= 3
    ensures SymbolText(c, stop).Some? ==> Clean(c)
  {
    if SymbolText(c, stop).Some? {
      TextCodes(c[1..|c| - 2], StartSet(c[0]), false);
      forall i | 1 <= i <= |c| - 3 ensures c[i] < 103 {
        assert c[i] == c[1..|c| - 2][i - 1];
      }
    }
  }

  /** A shift, a function code or a code set switch. */
  method ControlCode(charset0: Byte, code: Byte) returns (charset: Byte)
    requires FNC3 <= code <= FNC1 && IsCharset(charset0)
    ensures charset == NextCharset(charset0, code)
  {
    charset := charset0;
    if code < CODE_C {
      if code == SHIFT {
        charset := if charset < 0x80 then charset + 0x80 else charset;
      }
    } else if code != FNC1 {
      assert CODE_C <= code <= CODE_A;
      var newset := CODE_A - code;
      if newset != charset {
        charset := newset;
      }
    }
  }

  lemma StopOrNone(c: seq<Byte>, stop: Byte)
    requires |c| >= 3
    ensures c[|c| - 1] != stop || !(START_A <= c[0] <= START_C) ==>
      SymbolText(c, stop) == None && SymbolPairs(c, stop) == 0
  {
  }
}
