/** The output side of the JPEG encoder: the capped byte buffer of tjei_write and the bit
    packer of tjei_write_bits. */
module JpegWriter {
  import opened Arith
  import opened BitStrings
  import opened JpegBits

  const TJEI_BUFFER_SIZE: nat := 1024

  // ----- arithmetic of the 32-bit bit buffer -----

  /** The loc most significant bits of the bit buffer. */
  ghost function TopBits(bitbuffer: nat, loc: nat): (b: Bits)
    requires loc <= 32
  {
    BitsOf(bitbuffer, 32)[..loc]
  }

  /** The buffer holds the loc-bit number v at its top and zeros below. */
  ghost predicate Holds(bitbuffer: nat, loc: nat, v: nat) {
    loc <= 32 && v < Pow2(loc) && bitbuffer == v * Pow2(32 - loc)
  }

  lemma HoldsTop(bitbuffer: nat, loc: nat, v: nat)
    requires Holds(bitbuffer, loc, v)
    ensures TopBits(bitbuffer, loc) == BitsOf(v, loc)
    ensures bitbuffer % Pow2(32 - loc) == 0 && bitbuffer < 0x1_0000_0000
  {
    BitsJoin(v, loc, 0, 32 - loc);
    Pow2Add(loc, 32 - loc);
    Pow2Values();
    DivModUnique(bitbuffer, Pow2(32 - loc), v, 0);
    MulLess(v, Pow2(loc), Pow2(32 - loc));
  }

  lemma HoldsWhat(bitbuffer: nat, loc: nat) returns (v: nat)
    requires loc <= 32 && bitbuffer < 0x1_0000_0000 && bitbuffer % Pow2(32 - loc) == 0
    ensures Holds(bitbuffer, loc, v)
  {
    hide Pow2;
    var p := Pow2(32 - loc);
    v := bitbuffer / p;
    assert bitbuffer == v * p + bitbuffer % p;
    Pow2Add(loc, 32 - loc);
    Pow2Values();
    if v >= Pow2(loc) {
      MulMono(Pow2(loc), v, p);
    }
  }

  ghost function PushedNumber(v: nat, num: nat, bits: nat): (r: nat) {
    v * Pow2(num) + bits
  }

  lemma Regroup(v: nat, n: nat, p: nat, b: nat)
    ensures v * (n * p) + b * p == (v * n + b) * p
  {
  }

  /** Or-ing num more bits in below the ones that are there. */
  lemma PushStep(bitbuffer: nat, loc: nat, v: nat, num: nat, bits: nat)
    requires Holds(bitbuffer, loc, v) && loc + num <= 32 && bits < Pow2(num)
    ensures Holds(Or(bitbuffer, bits * Pow2(32 - (loc + num)) % 0x1_0000_0000), loc + num, PushedNumber(v, num, bits))
    ensures BitsOf(PushedNumber(v, num, bits), loc + num) == BitsOf(v, loc) + BitsOf(bits, num)
  {
    hide Pow2, Or, BitsOf;
    BitsJoin(v, loc, bits, num);
    var n, p := Pow2(num), Pow2(32 - (loc + num));
    Pow2Add(loc, num);
    MulLess(v, Pow2(loc), n);
    Pow2Add(num, 32 - (loc + num));
    MulLess(bits, n, p);
    Pow2Grows(32 - loc, 32);
    Pow2Values();
    Fits(bits * p, n * p);
    OrAboveBelow(v, 32 - loc, bits * p);
    Regroup(v, n, p, bits);
  }

  lemma Fits(x: nat, y: nat)
    requires x < y <= 0x1_0000_0000
    ensures x % 0x1_0000_0000 == x
  {
  }

  /** Taking the top byte c off a buffer that holds at least eight bits. */
  lemma PopStep(bitbuffer: nat, loc: nat, v: nat, c: nat, r: nat)
    requires Holds(bitbuffer, loc, v) && 8 <= loc
    requires v == c * Pow2(loc - 8) + r && r < Pow2(loc - 8)
    ensures bitbuffer / 0x100_0000 == c < 256
    ensures Holds(bitbuffer * 0x100 % 0x1_0000_0000, loc - 8, r)
    ensures BitsOf(v, loc) == BitsOf(c, 8) + BitsOf(r, loc - 8)
  {
    hide Pow2, BitsOf;
    var p, s := Pow2(loc - 8), Pow2(32 - loc);
    Pow2Values();
    Pow2Add(8, loc - 8);
    if c >= 256 {
      MulMono(256, c, p);
    }
    BitsJoin(c, 8, r, loc - 8);
    Pow2Add(loc - 8, 32 - loc);
    MulLess(r, p, s);
    Regroup(c, p, s, r);
    PopArith(bitbuffer, c, r * s);
    Pow2Add(32 - loc, 8);
    Reassociate(r, s);
  }

  lemma Reassociate(r: nat, s: nat)
    ensures r * s * 0x100 == r * (s * 0x100)
  {
  }

  lemma PopArith(bitbuffer: nat, c: nat, low: nat)
    requires bitbuffer == c * 0x100_0000 + low && low < 0x100_0000
    ensures bitbuffer / 0x100_0000 == c && bitbuffer * 0x100 % 0x1_0000_0000 == low * 0x100
  {
  }

  // ----- the writer -----

  function Concat(chunks: seq<seq<Byte>>): (s: seq<Byte>) {
    if chunks == [] then [] else Concat(chunks[..|chunks| - 1]) + chunks[|chunks| - 1]
  }

  class Writer {
    const buffer: array<Byte>
    var count: nat
    /** The chunks handed to the user's write function so far. */
    var delivered: seq<seq<Byte>>
    var bitbuffer: nat
    var location: nat

    /** The bytes written before the scan, and the bytes of the scan before stuffing. */
    ghost var header: seq<Byte>
    ghost var raw: seq<Byte>

    ghost predicate Valid()
      reads this, buffer
    {
      && BufferOk()
      && Written() == header + Stuffed(raw)
      && location < 8 && bitbuffer < 0x1_0000_0000 && bitbuffer % Pow2(32 - location) == 0
    }

    /** The buffer is never full between calls, and only full buffers were delivered. */
    ghost predicate BufferOk()
      reads this
    {
      && buffer.Length == TJEI_BUFFER_SIZE && count < TJEI_BUFFER_SIZE - 1
      && forall i :: 0 <= i < |delivered| ==> |delivered[i]| == TJEI_BUFFER_SIZE - 1
    }

    /** All bytes written: the delivered chunks and what waits in the buffer. */
    ghost function Written(): (s: seq<Byte>)
      reads this, buffer
      requires count <= buffer.Length
    {
      Concat(delivered) + buffer[..count]
    }

    /** All bits pushed since the scan started. */
    ghost function Pushed(): (b: Bits)
      reads this, buffer
      requires Valid()
    {
      BytesBits(raw) + TopBits(bitbuffer, location)
    }

    constructor ()
      ensures Valid() && fresh(buffer)
      ensures Written() == [] && Pushed() == [] && header == []
    {
      buffer := new Byte[TJEI_BUFFER_SIZE](_ => 0);
      count, delivered, bitbuffer, location, header, raw := 0, [], 0, 0, [], [];
    }

    method Write(data: seq<Byte>)
      requires BufferOk()
      modifies this`count, this`delivered, buffer
      ensures BufferOk() && Written() == old(Written()) + data
      ensures old(delivered) <= delivered
      decreases |data|
    {
      var toWrite := |data|;
      var capped := if toWrite < TJEI_BUFFER_SIZE - 1 - count then toWrite else TJEI_BUFFER_SIZE - 1 - count;
      ghost var before := buffer[..count];
      forall i | 0 <= i < capped {
        buffer[count + i] := data[i];
      }
      count := count + capped;
      assert buffer[..count] == before + data[..capped];
      if count == TJEI_BUFFER_SIZE - 1 {
        delivered := delivered + [buffer[..count]];
        assert delivered[..|delivered| - 1] == old(delivered);
        count := 0;
      }
      assert Written() == old(Written()) + data[..capped];
      if capped < toWrite {
        Write(data[capped..]);
        assert data == data[..capped] + data[capped..];
      }
    }

    /** Bytes that precede the scan. */
    method WriteHeader(data: seq<Byte>)
      requires Valid() && raw == []
      modifies this`count, this`delivered, this`header, buffer
      ensures Valid() && header == old(header) + data && Written() == old(Written()) + data
    {
      Write(data);
      header := header + data;
    }

    /** One byte of the scan, and a zero byte behind it when it is 0xFF. */
    method PutByte(c: Byte)
      requires BufferOk() && Written() == header + Stuffed(raw)
      modifies this`count, this`delivered, this`raw, buffer
      ensures BufferOk() && Written() == header + Stuffed(raw) && raw == old(raw) + [c]
    {
      hide Stuffed, Concat;
      StuffedSnoc(raw, c);
      ghost var before := Written();
      Write([c]);
      if c == 0xFF {
        Write([0]);
        assert before + [c] + [0] == before + [0xFF, 0];
      }
      raw := raw + [c];
    }

    /** The top byte of the bit buffer goes out; v is what the buffer holds. */
    method PopByte(ghost v: nat) returns (ghost low: nat)
      requires BufferOk() && Written() == header + Stuffed(raw)
      requires 8 <= location <= 32 && Holds(bitbuffer, location, v)
      modifies this`count, this`delivered, this`raw, this`bitbuffer, this`location, buffer
      ensures BufferOk() && Written() == header + Stuffed(raw)
      ensures location == old(location) - 8 && Holds(bitbuffer, location, low)
      ensures BytesBits(raw) + BitsOf(low, location) == old(BytesBits(raw) + BitsOf(v, location))
    {
      hide Pow2, BitsOf, BytesBits, Stuffed, Holds;
      ghost var top;
      top, low := Divide(v, Pow2(location - 8));
      PopStep(bitbuffer, location, v, top, low);
      var c := bitbuffer / 0x100_0000;
      ghost var raw0 := raw;
      PutByte(c);
      BytesBitsSnoc(raw0, c);
      bitbuffer := bitbuffer * 0x100 % 0x1_0000_0000;
      location := location - 8;
    }

    method WriteBits(numBits: nat, bits: nat)
      requires Valid() && 1 <= numBits <= 16 && bits < Pow2(numBits)
      modifies this, buffer
      ensures Valid() && header == old(header)
      ensures Pushed() == old(Pushed()) + BitsOf(bits, numBits)
    {
      hide Pow2, BitsOf, TopBits, BytesBits, Stuffed, Or, PushedNumber, Holds;
      ghost var pushed := Pushed();
      ghost var v := HoldsWhat(bitbuffer, location);
      HoldsTop(bitbuffer, location, v);
      var nloc := location + numBits;
      PushStep(bitbuffer, location, v, numBits, bits);
      bitbuffer := Or(bitbuffer, bits * Pow2(32 - nloc) % 0x1_0000_0000);
      location := nloc;
      v := PushedNumber(v, numBits, bits);
      while location >= 8
        invariant location <= 23 && Holds(bitbuffer, location, v)
        invariant BufferOk() && Written() == header + Stuffed(raw) && header == old(header)
        invariant BytesBits(raw) + BitsOf(v, location) == pushed + BitsOf(bits, numBits)
      {
        v := PopByte(v);
      }
      HoldsTop(bitbuffer, location, v);
    }
  }

  lemma BytesBitsSnoc(s: seq<Byte>, c: Byte)
    ensures BytesBits(s + [c]) == BytesBits(s) + BitsOf(c, 8)
  {
    assert (s + [c])[..|s|] == s;
  }
}
