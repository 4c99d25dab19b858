/** The bytes of entropy-coded JPEG data and byte stuffing. */
module JpegBits {
  import opened Arith
  import opened BitStrings

  function BytesBits(s: seq<Byte>): (b: Bits) {
    if s == [] then [] else BytesBits(s[..|s| - 1]) + BitsOf(s[|s| - 1], 8)
  }

  /** Byte stuffing of entropy-coded data: a zero byte follows every 0xFF (T.81 section F.1.2.3). */
  function Stuffed(s: seq<Byte>): (t: seq<Byte>) {
    if s == [] then []
    else Stuffed(s[..|s| - 1]) + (if s[|s| - 1] == 0xFF then [0xFF, 0] else [s[|s| - 1]])
  }

  /** What a decoder reads: the zero byte behind each 0xFF is dropped (T.81 section F.2.2.5). */
  function Unstuffed(s: seq<Byte>): (t: seq<Byte>) {
    if s == [] then []
    else if s[0] == 0xFF && |s| > 1 && s[1] == 0 then [0xFF] + Unstuffed(s[2..])
    else [s[0]] + Unstuffed(s[1..])
  }

  /** No marker can appear in stuffed data: every 0xFF is followed by a zero byte. */
  ghost predicate NoMarkers(s: seq<Byte>) {
    forall i {:trigger ZeroFollows(s, i)} :: 0 <= i < |s| ==> ZeroFollows(s, i)
  }

  ghost predicate ZeroFollows(s: seq<Byte>, i: int)
    requires 0 <= i < |s|
  {
    s[i] == 0xFF ==> i + 1 < |s| && s[i + 1] == 0
  }

  lemma StuffedSnoc(s: seq<Byte>, c: Byte)
    ensures Stuffed(s + [c]) == Stuffed(s) + (if c == 0xFF then [0xFF, 0] else [c])
  {
    assert (s + [c])[..|s|] == s;
  }

  lemma {:induction false} StuffedHasNoMarkers(s: seq<Byte>)
    ensures NoMarkers(Stuffed(s))
  {
    if s != [] {
      var t, u := Stuffed(s[..|s| - 1]), Stuffed(s);
      StuffedHasNoMarkers(s[..|s| - 1]);
      forall i | 0 <= i < |u| ensures ZeroFollows(u, i) {
        if i < |t| {
          assert ZeroFollows(t, i);
        }
      }
    }
  }

  lemma NoMarkersTail(s: seq<Byte>, n: nat)
    requires NoMarkers(s) && n <= |s|
    ensures NoMarkers(s[n..])
  {
    forall i | 0 <= i < |s[n..]| ensures ZeroFollows(s[n..], i) {
      assert ZeroFollows(s, i + n);
    }
  }

  /** One step of unstuffing. */
  lemma UnstuffedStep(s: seq<Byte>)
    ensures |s| > 1 && s[0] == 0xFF && s[1] == 0 ==> Unstuffed(s) == [0xFF] + Unstuffed(s[2..])
    ensures s != [] && s[0] != 0xFF ==> Unstuffed(s) == [s[0]] + Unstuffed(s[1..])
    ensures s == [] ==> Unstuffed(s) == []
  {
  }

  lemma AllFollowed(s: seq<Byte>)
    requires NoMarkers(s) && s != [] && s[0] == 0xFF
    ensures |s| > 1 && s[1] == 0
  {
    assert ZeroFollows(s, 0);
  }

  lemma {:induction false} UnstuffedJoin(s: seq<Byte>, t: seq<Byte>)
    requires NoMarkers(s)
    ensures Unstuffed(s + t) == Unstuffed(s) + Unstuffed(t)
    decreases |s|
  {
    hide Unstuffed, NoMarkers;
    UnstuffedStep(s);
    UnstuffedStep(s + t);
    if s == [] {
      assert s + t == t;
    } else if s[0] == 0xFF {
      AllFollowed(s);
      assert (s + t)[2..] == s[2..] + t;
      NoMarkersTail(s, 2);
      UnstuffedJoin(s[2..], t);
    } else {
      assert (s + t)[1..] == s[1..] + t;
      NoMarkersTail(s, 1);
      UnstuffedJoin(s[1..], t);
    }
  }

  /** Unstuffing undoes stuffing. */
  lemma {:induction false} UnstuffStuffed(s: seq<Byte>)
    ensures Unstuffed(Stuffed(s)) == s
  {
    if s != [] {
      var t, c := s[..|s| - 1], s[|s| - 1];
      UnstuffStuffed(t);
      StuffedHasNoMarkers(t);
      var last: seq<Byte> := if c == 0xFF then [0xFF, 0] else [c];
      UnstuffedJoin(Stuffed(t), last);
      assert Unstuffed(last) == [c];
    }
  }
}
