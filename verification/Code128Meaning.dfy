/** What the codes of a Code 128 symbol mean, in numbers: the characters of the three code sets,
    the digits, shifts and switches, and where a symbol starts and ends. */
module Code128Meaning {
  import opened Arith
  import opened Code128Check
  import opened Code128Text
  import opened Code128Scan
  import Code128

  // ----- one code -----

  lemma FrontOnly(p: seq<Byte>, set0: CodeSet)
    ensures Front(p, Text([], set0, false)) == Some(p)
  {
    assert p + [] == p;
  }

  /** Set A has the characters 32 to 95 and then 0 to 31, set B those from 32 to 127. */
  lemma LetterMeans(v: Byte)
    requires v < 96
    ensures Text([v], A, false) == Some([if v < 64 then v + 32 else v - 64])
    ensures Text([v], B, false) == Some([v + 32])
  {
    var one: seq<Byte> := [v];
    assert one[1..] == [];
    FrontOnly([Character(A, v)], A);
    FrontOnly([Character(B, v)], B);
  }

  /** In set C a code below 100 is two decimal digits. */
  lemma PairMeans(v: Byte) returns (d: seq<Byte>)
    requires v < 100
    ensures Text([v], C, false) == Some(d) && |d| == 2
    ensures 48 <= d[0] <= 57 && 48 <= d[1] <= 57 && 10 * (d[0] - 48) + (d[1] - 48) == v
  {
    d := Digits(v);
    assert [v][1..] == [];
    FrontOnly(d, C);
  }

  // ----- a code in front of others -----

  /** One text after another, if both exist. */
  function Both(t: Option<seq<Byte>>, u: Option<seq<Byte>>): (o: Option<seq<Byte>>) {
    if t.Some? && u.Some? then Some(t.value + u.value) else None
  }

  /** A character, or a pair in set C, and the rest in the same set. */
  lemma ThenRest(v: Byte, c: seq<Byte>)
    ensures v < 96 ==> Text([v] + c, A, false) == Both(Text([v], A, false), Text(c, A, false))
    ensures v < 96 ==> Text([v] + c, B, false) == Both(Text([v], B, false), Text(c, B, false))
    ensures v < 100 ==> Text([v] + c, C, false) == Both(Text([v], C, false), Text(c, C, false))
  {
    var s, one: seq<Byte> := [v] + c, [v];
    assert s[0] == v && s[1..] == c && one[1..] == [];
    if v < 96 {
      FrontOnly([Character(A, v)], A);
      FrontOnly([Character(B, v)], B);
    }
    if v < 100 {
      FrontOnly(Digits(v), C);
    }
  }

  /** Code 98 reads the next character in the other one of the sets A and B. */
  lemma ShiftMeans(v: Byte, c: seq<Byte>)
    requires v < 96
    ensures Text([98, v] + c, A, false) == Both(Text([v], B, false), Text(c, A, false))
    ensures Text([98, v] + c, B, false) == Both(Text([v], A, false), Text(c, B, false))
  {
    var s, t, one: seq<Byte> := [98, v] + c, [v] + c, [v];
    assert s[0] == 98 && s[1..] == t && t[0] == v && t[1..] == c && one[1..] == [];
    FrontOnly([Character(A, v)], A);
    FrontOnly([Character(B, v)], B);
  }

  /** Codes 99, 100 and 101 switch to the sets C, B and A, from any set. */
  lemma SwitchMeans(set0: CodeSet, c: seq<Byte>)
    ensures set0 != C ==> Text([99] + c, set0, false) == Text(c, C, false)
    ensures Text([100] + c, set0, false) == Text(c, B, false)
    ensures Text([101] + c, set0, false) == Text(c, A, false)
  {
    assert ([99] + c)[1..] == ([100] + c)[1..] == ([101] + c)[1..] == c;
  }

  /** Codes 96, 97 and 102 add nothing; higher ones do not belong into a text. */
  lemma NothingMeant(v: Byte, set0: CodeSet, c: seq<Byte>)
    ensures v == 102 || (set0 != C && (v == 96 || v == 97)) ==> Text([v] + c, set0, false) == Text(c, set0, false)
    ensures v > 102 ==> Text([v] + c, set0, false) == None
  {
    assert ([v] + c)[1..] == c;
  }

  // ----- whole symbols -----

  /** The start codes 103, 104 and 105 select the sets A, B and C; the stop code is 106, or 107
      when it was scanned first. */
  lemma SymbolMeans(start: Byte, data: seq<Byte>, check: Byte, stop: Byte)
    requires stop == 106 || stop == 107
    ensures var t := SymbolText([start] + data + [check, stop], stop);
      t == if start == 103 then Text(data, A, false)
           else if start == 104 then Text(data, B, false)
           else if start == 105 then Text(data, C, false) else None
  {
    var c := [start] + data + [check, stop];
    assert c[1..|c| - 2] == data;
  }

  /** A scan starts with a start code, or with code 107 when it runs backwards. */
  lemma StartMeans(c: int, free: bool)
    requires c < 0x80
    ensures Next(Idle, c, free) ==
      if free && (c == 103 || c == 104 || c == 105) then Reading(false, [c])
      else if free && c == 107 then Reading(true, [c]) else Idle
  {
  }

  /** A scan goes on up to code 106, or up to a start code when it runs backwards; the codes of a
      backward scan are then read in the opposite order.  An unknown character or a symbol of more
      than 256 codes ends it, and nothing is found. */
  lemma EndMeans(reverse: bool, codes: seq<Byte>, c: int, l: Limits)
    requires c < 0x80 && |codes| >= 2
    ensures var last := if reverse then c == 103 || c == 104 || c == 105 else c == 106;
      && Next(Reading(reverse, codes), c, true)
         == (if c < 0 || |codes| >= 256 || last then Idle else Reading(reverse, codes + [c]))
      && Found(Reading(reverse, codes), c, l)
         == (if 0 <= c && |codes| < 256 && last
             then Result(if reverse then Reversed(codes + [c]) else codes + [c], if reverse then 107 else 106, l)
             else None)
  {
  }

  /** The limits of the length of a text; an upper limit of zero is none. */
  lemma LimitsMean(n: int, l: Limits)
    ensures LengthOk(n, l) <==> l.min <= n && (0 < l.max ==> n <= l.max)
  {
  }

  /** A quiet zone that is there must not be narrower than three quarters of the six widths, rounded
      down. */
  lemma QuietMeans(qz: nat, s6: nat)
    ensures Code128.QuietZone(qz, s6) <==> qz == 0 || 3 * s6 <= 4 * qz + 3
  {
  }

  /** The check code is the start code plus each data code times its position, modulo 103. */
  lemma CheckMeans(a: Byte, b: Byte, c: Byte, check: Byte)
    ensures CheckOk([a, b, c, check, 106]) <==> check == (a + b + 2 * c) % 103
  {
    var s: seq<Byte> := [a, b, c, check, 106];
    assert Weights(s, 3, 2) == 0;
    assert Weights(s, 2, 2) == 2 * c;
  }

  /** A symbol with the letter a, forwards and backwards. */
  lemma LetterSymbol()
    ensures After(Idle, [104, 65, 66]) == Reading(false, [104, 65, 66])
    ensures After(Idle, [107, 66, 65]) == Reading(true, [107, 66, 65])
    ensures Found(Reading(false, [104, 65, 66]), 106, Limits(0, 0)) == Some(['a' as int])
    ensures Found(Reading(true, [107, 66, 65]), 104, Limits(0, 0)) == Some(['a' as int])
  {
    hide After, Text, Weights;
    var front, back: seq<Byte> := [104, 65, 66], [107, 66, 65];
    StillReading(front);
    StillReading(back);
    var c, d: seq<Byte> := front + [106], Reversed(back + [104]);
    LetterMeans(65);
    OneWeight(c);
    OneWeight(d);
    assert c[1..|c| - 2] == [65] == d[1..|d| - 2];
  }

  lemma OneWeight(c: seq<Byte>)
    requires |c| == 4
    ensures Weights(c, 1, 1) == c[1]
  {
    assert Weights(c, 2, 1) == 0;
  }
}
