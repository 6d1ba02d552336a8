/** The Ogg page checksum (section 6 of RFC 3533): both table-driven loops against division bit by bit. */
module OggChecksum {
  import opened Bits
  import opened Bytes

  /** A checksum register as its 32 bits, least significant first. */
  type Register = c: bits | |c| == 32 witness Zero(32)

  const GENERATOR: nat := 0x04c1_1db7

  const POLY: Register := ToBits(GENERATOR, 32)

  /** Shift up by one; if a bit falls off the top, add the generator. */
  function Step(c: Register): Register {
    if c[31] then Bits.Xor(Shl(c, 1), POLY) else Shl(c, 1)
  }

  function Steps(c: Register, n: nat): Register
    decreases n, |c|
  {
    if n == 0 then c else Steps(Step(c), n - 1)
  }

  // ---- the reference: long division, message bits first to last --------

  function DivideBit(c: Register, b: bool): Register {
    if c[31] != b then Bits.Xor(Shl(c, 1), POLY) else Shl(c, 1)
  }

  function Divide(c: Register, message: seq<bool>): Register
    decreases |message|
  {
    if message == [] then c else Divide(DivideBit(c, message[0]), message[1..])
  }

  /** The bits of an octet, most significant first. */
  function MsbFirst(b: byte): (r: seq<bool>)
    ensures |r| == 8 && forall k :: 0 <= k < 8 ==> r[k] == Octet(b)[7 - k]
  {
    seq(8, k requires 0 <= k < 8 => Octet(b)[7 - k])
  }

  function MessageBits(bs: seq<byte>): seq<bool> {
    if bs == [] then [] else MsbFirst(bs[0]) + MessageBits(bs[1..])
  }

  // ---- the table -------------------------------------------------------

  /** An octet in the top eight bits of a register. */
  function AtTop(b: byte): (r: Register)
    ensures r[..24] == Zero(24) && r[24..] == Octet(b)
  {
    Zero(24) + Octet(b)
  }

  function TableEntry(b: byte): Register {
    Steps(AtTop(b), 8)
  }

  predicate IsTable(t: seq<Register>) {
    |t| == 256 && forall i :: 0 <= i < 256 ==> t[i] == TableEntry(i)
  }

  type Table = t: seq<Register> | IsTable(t) witness seq(256, i requires 0 <= i < 256 => TableEntry(i))

  ghost function Entries(): (t: seq<Register>)
    ensures |t| == 256 && forall i :: 0 <= i < 256 ==> t[i] == TableEntry(i)
  {
    seq(256, i requires 0 <= i < 256 => TableEntry(i))
  }

  /** The table the writer builds once. */
  method WriterTable() returns (t: Table)
  {
    ghost var want := Entries();
    var entries: seq<Register> := [];
    for i := 0 to 256
      invariant entries == want[..i]
    {
      var c := WriterEntry(i);
      entries := entries + [c];
    }
    t := entries;
  }

  lemma StepsUnfold(c: Register, n: nat)
    requires n > 0
    ensures Steps(c, n) == Steps(Step(c), n - 1)
  {
  }

  /** One turn of the inner loop both tables are built with. */
  method ShiftAndDivide(c: Register) returns (r: Register)
    ensures r == Step(c)
  {
    if c[31] {
      r := Bits.Xor(Shl(c, 1), POLY);
    } else {
      r := Shl(c, 1);
    }
  }

  method WriterEntry(i: byte) returns (c: Register)
    ensures c == TableEntry(i)
  {
    c := AtTop(i);
    ghost var target := Steps(c, 8);
    for j := 0 to 8
      invariant Steps(c, 8 - j) == target
    {
      StepsUnfold(c, 8 - j);
      c := ShiftAndDivide(c);
    }
  }

  /** The table each reader generates; it masks a 32-bit value to 32 bits. */
  method ReaderTable() returns (t: Table)
  {
    ghost var want := Entries();
    var table := new Register[256](_ => Zero(32));
    for i := 0 to 256
      invariant table[..i] == want[..i]
    {
      var r := ReaderEntry(i);
      table[i] := r;
    }
    t := table[..];
  }

  lemma MaskKeeps(r: Register)
    ensures And(r, Ones(32)) == r
  {
  }

  method ReaderEntry(i: byte) returns (entry: Register)
    ensures entry == TableEntry(i)
  {
    var r: Register := AtTop(i);
    ghost var target := Steps(r, 8);
    for j := 0 to 8
      invariant Steps(r, 8 - j) == target
    {
      StepsUnfold(r, 8 - j);
      r := ShiftAndDivide(r);
    }
    MaskKeeps(r);
    entry := And(r, Ones(32));
  }

  // ---- one octet at a time ---------------------------------------------

  function Index(c: Register, x: byte): byte {
    FromOctet(Bits.Xor(c[24..], Octet(x)))
  }

  function Update(c: Register, x: byte): Register {
    Bits.Xor(Shl(c, 8), TableEntry(Index(c, x)))
  }

  function Crc(c: Register, bs: seq<byte>): Register
    decreases |bs|
  {
    if bs == [] then c else Crc(Update(c, bs[0]), bs[1..])
  }

  lemma {:induction false} CrcJoins(c: Register, a: seq<byte>, b: seq<byte>)
    ensures Crc(c, a + b) == Crc(Crc(c, a), b)
    decreases |a|
  {
    if a == [] {
      assert a + b == b;
    } else {
      assert (a + b)[1..] == a[1..] + b;
      CrcJoins(Update(c, a[0]), a[1..], b);
    }
  }

  method OggCrc(table: Table, crc0: Register, b: seq<byte>) returns (crc: Register)
    ensures crc == Crc(crc0, b)
  {
    crc := crc0;
    for i := 0 to |b|
      invariant Crc(crc0, b) == Crc(crc, b[i..])
    {
      assert b[i..][1..] == b[i + 1..];
      crc := Bits.Xor(Shl(crc, 8), table[FromOctet(Bits.Xor(crc[24..], Octet(b[i])))]);
    }
  }

  // ---- the two agree ---------------------------------------------------

  lemma ShlIsLinear(a: Register, b: Register)
    ensures Shl(Bits.Xor(a, b), 1) == Bits.Xor(Shl(a, 1), Shl(b, 1))
  {
  }

  lemma XorWithBoth(x: Register, y: Register, p: Register)
    ensures Bits.Xor(Bits.Xor(x, p), y) == Bits.Xor(Bits.Xor(x, y), p)
    ensures Bits.Xor(x, Bits.Xor(y, p)) == Bits.Xor(Bits.Xor(x, y), p)
    ensures Bits.Xor(Bits.Xor(x, p), Bits.Xor(y, p)) == Bits.Xor(x, y)
  {
  }

  lemma StepIsLinear(a: Register, b: Register)
    ensures Step(Bits.Xor(a, b)) == Bits.Xor(Step(a), Step(b))
  {
    ShlIsLinear(a, b);
    XorWithBoth(Shl(a, 1), Shl(b, 1), POLY);
    assert Bits.Xor(a, b)[31] == (a[31] != b[31]);
  }

  lemma {:induction false} StepsAreLinear(a: Register, b: Register, n: nat)
    ensures Steps(Bits.Xor(a, b), n) == Bits.Xor(Steps(a, n), Steps(b, n))
    decreases n
  {
    if n > 0 {
      StepIsLinear(a, b);
      StepsAreLinear(Step(a), Step(b), n - 1);
      assert Steps(Bits.Xor(a, b), n) == Steps(Step(Bits.Xor(a, b)), n - 1);
    }
  }

  lemma TopStaysClear(a: Register, n: nat)
    requires 0 < n <= 32 && forall k :: 32 - n <= k < 32 ==> !a[k]
    ensures forall k :: 32 - (n - 1) <= k < 32 ==> !Shl(a, 1)[k]
  {
    forall k | 32 - (n - 1) <= k < 32
      ensures !Shl(a, 1)[k]
    {
      assert !a[k - 1];
    }
  }

  /** While only zeros leave the top, stepping is shifting. */
  lemma {:induction false} StepsShift(a: Register, n: nat)
    requires n <= 32 && forall k :: 32 - n <= k < 32 ==> !a[k]
    ensures Steps(a, n) == Shl(a, n)
    decreases n
  {
    if n == 0 {
      assert Shl(a, 0) == a;
    } else {
      assert !a[31];
      ShlTwice(a, 1, n - 1);
      TopStaysClear(a, n);
      StepsShift(Shl(a, 1), n - 1);
    }
  }

  /** The message's first bits, first at the top of a register, zeros below. */
  function Place(ms: seq<bool>): (r: Register)
    requires |ms| <= 32
    ensures forall k :: 0 <= k < 32 ==> r[k] == (31 - k < |ms| && ms[31 - k])
  {
    seq(32, k requires 0 <= k < 32 => 31 - k < |ms| && ms[31 - k])
  }

  lemma DivideBitIsStep(c: Register, ms: seq<bool>)
    requires 0 < |ms| <= 32
    ensures Bits.Xor(DivideBit(c, ms[0]), Place(ms[1..])) == Step(Bits.Xor(c, Place(ms)))
  {
    var v: Register := Bits.Xor(c, Place(ms));
    var l: Register := Bits.Xor(DivideBit(c, ms[0]), Place(ms[1..]));
    assert v[31] == (c[31] != ms[0]);
    forall k | 0 <= k < 32
      ensures l[k] == Step(v)[k]
    {
      assert Place(ms[1..])[k] == (k >= 1 && Place(ms)[k - 1]);
      assert Shl(v, 1)[k] == (k >= 1 && v[k - 1]) && Shl(c, 1)[k] == (k >= 1 && c[k - 1]);
    }
  }

  /** Dividing message bits in one by one is adding them all at the top and stepping. */
  lemma {:induction false} DivideIsPlaceAndStep(c: Register, ms: seq<bool>)
    requires |ms| <= 32
    ensures Divide(c, ms) == Steps(Bits.Xor(c, Place(ms)), |ms|)
    decreases |ms|
  {
    if ms == [] {
      assert Bits.Xor(c, Place([])) == c;
    } else {
      DivideBitIsStep(c, ms);
      DivideIsPlaceAndStep(DivideBit(c, ms[0]), ms[1..]);
      assert Steps(Bits.Xor(c, Place(ms)), |ms|) == Steps(Step(Bits.Xor(c, Place(ms))), |ms| - 1);
    }
  }

  /** One table lookup does the work of eight division steps. */
  lemma UpdateDivides(c: Register, x: byte)
    ensures Update(c, x) == Divide(c, MsbFirst(x))
  {
    var i := Index(c, x);
    var high: Register := AtTop(i);
    var low: Register := seq(32, k requires 0 <= k < 32 => k < 24 && c[k]);
    ToFromBits(Bits.Xor(c[24..], Octet(x)));
    assert Octet(i) == Bits.Xor(c[24..], Octet(x));
    assert Bits.Xor(c, Place(MsbFirst(x))) == Bits.Xor(high, low) by {
      forall k | 0 <= k < 32
        ensures Bits.Xor(c, Place(MsbFirst(x)))[k] == Bits.Xor(high, low)[k]
      {
        if k >= 24 {
          assert high[k] == high[24..][k - 24] == (c[24..][k - 24] != Octet(x)[k - 24]);
        } else {
          assert high[k] == high[..24][k];
        }
      }
    }
    StepsAreLinear(high, low, 8);
    StepsShift(low, 8);
    assert Shl(low, 8) == Shl(c, 8);
    DivideIsPlaceAndStep(c, MsbFirst(x));
    XorCommutes(TableEntry(i), Shl(c, 8));
  }

  lemma XorCommutes(a: Register, b: Register)
    ensures Bits.Xor(a, b) == Bits.Xor(b, a)
  {
  }

  /** The table-driven checksum is the remainder of the message's division by the generator. */
  lemma {:induction false} CrcIsDivision(c: Register, bs: seq<byte>)
    ensures Crc(c, bs) == Divide(c, MessageBits(bs))
    decreases |bs|
  {
    if bs != [] {
      UpdateDivides(c, bs[0]);
      CrcIsDivision(Update(c, bs[0]), bs[1..]);
      DivideJoins(c, MsbFirst(bs[0]), MessageBits(bs[1..]));
    }
  }

  lemma {:induction false} DivideJoins(c: Register, a: seq<bool>, b: seq<bool>)
    ensures Divide(c, a + b) == Divide(Divide(c, a), b)
    decreases |a|
  {
    if a == [] {
      assert a + b == b;
    } else {
      assert (a + b)[1..] == a[1..] + b;
      DivideJoins(DivideBit(c, a[0]), a[1..], b);
    }
  }

  /** A register as the four octets little-endian storage gives it, and back. */
  function Stored(c: Register): (s: seq<byte>)
    ensures |s| == 4
  {
    [FromOctet(c[0..8]), FromOctet(c[8..16]), FromOctet(c[16..24]), FromOctet(c[24..32])]
  }

  function Loaded(s: seq<byte>): Register
    requires |s| == 4
  {
    Octet(s[0]) + Octet(s[1]) + Octet(s[2]) + Octet(s[3])
  }

  lemma StoredLoads(c: Register)
    ensures Loaded(Stored(c)) == c
  {
    ToFromBits(c[0..8]);
    ToFromBits(c[8..16]);
    ToFromBits(c[16..24]);
    ToFromBits(c[24..32]);
    assert c == c[0..8] + c[8..16] + c[16..24] + c[24..32];
  }
}
