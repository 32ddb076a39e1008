/** The Ethernet frame check sequence (src/ether_fcs.c), the CRC-32 of section 3.2.9 of IEEE 802.3.

  The code works on nibbles with a table that has the two complements of the standard folded in.  The
  reference below is the shift register of the standard, least significant bit of each byte first.
  Word operations have names, so that the proofs about the register can leave them symbolic. */
module EtherFcs {

  type Byte = bv8
  type Word = bv32

  function Xor(a: Word, b: Word): Word {
    a ^ b
  }

  function Half(a: Word): Word {
    a >> 1
  }

  function Double(a: Word): Word {
    a << 1
  }

  function Not(a: Word): Word {
    !a
  }

  function Low(a: Word): Word {
    a & 0xF
  }

  function Upper(a: Word): Word {
    a & 0xFFFFFFF0
  }

  function High(a: Word): Word {
    a >> 4
  }

  predicate Odd(a: Word) {
    a & 1 == 1
  }

  predicate Small(a: Word) {
    a & 0x80000000 == 0
  }

  // ----- the reference: a shift register with feedback

  const POLY: Word := 0xEDB88320
  const ONES: Word := 0xFFFFFFFF

  function Shift(s: Word): Word {
    if Odd(s) then Xor(Half(s), POLY) else Half(s)
  }

  function Bit(b: bool): Word {
    if b then 1 else 0
  }

  function BitRun(s: Word, bits: seq<bool>): Word
    decreases |bits|
  {
    if bits == [] then s else BitRun(Shift(Xor(s, Bit(bits[0]))), bits[1..])
  }

  function NibbleBits(n: Word): seq<bool> {
    [Odd(n), Odd(n >> 1), Odd(n >> 2), Odd(n >> 3)]
  }

  function ByteBits(b: Byte): seq<bool> {
    NibbleBits(b as Word) + NibbleBits(b as Word >> 4)
  }

  function Bits(data: seq<Byte>): seq<bool> {
    if data == [] then [] else ByteBits(data[0]) + Bits(data[1..])
  }

  /** All ones to start with, complemented at the end. */
  function Crc32(data: seq<Byte>): Word {
    !BitRun(ONES, Bits(data))
  }

  // ----- the named operations

  lemma IsXor(a: Word, b: Word, x: Word)
    requires x == a ^ b
    ensures Xor(a, b) == x
  {
  }

  lemma IsHalf(a: Word)
    ensures Half(a) == a >> 1
  {
  }

  lemma IsOdd(a: Word)
    ensures Odd(a) <==> a & 1 == 1
  {
  }

  lemma HalfBits(a: Word, b: Word, x: Word)
    requires x == a ^ b
    ensures x >> 1 == (a >> 1) ^ (b >> 1)
    ensures x & 1 == 1 <==> (a & 1 == 1) != (b & 1 == 1)
  {
  }

  lemma HalfXor(a: Word, b: Word)
    ensures Half(Xor(a, b)) == Xor(Half(a), Half(b))
    ensures Odd(Xor(a, b)) <==> Odd(a) != Odd(b)
  {
    hide *;
    var x := a ^ b;
    IsXor(a, b, x);
    HalfBits(a, b, x);
    IsHalf(a);
    IsHalf(b);
    IsHalf(x);
    IsXor(Half(a), Half(b), Half(x));
    IsOdd(a);
    IsOdd(b);
    IsOdd(x);
  }

  lemma XorAssoc(a: Word, b: Word, c: Word)
    ensures Xor(a, Xor(b, c)) == Xor(Xor(a, b), c)
  {
  }

  lemma XorComm(a: Word, b: Word)
    ensures Xor(a, b) == Xor(b, a)
  {
  }

  lemma XorTwice(a: Word, p: Word)
    ensures Xor(Xor(a, p), p) == a
  {
  }

  lemma XorLaws(a: Word, b: Word, p: Word)
    ensures Xor(Xor(a, p), Xor(b, p)) == Xor(a, b)
    ensures Xor(Xor(a, p), b) == Xor(Xor(a, b), p)
    ensures Xor(a, Xor(b, p)) == Xor(Xor(a, b), p)
  {
    hide *;
    XorAssoc(a, b, p);
    XorAssoc(a, p, b);
    XorComm(p, b);
    XorAssoc(Xor(a, p), b, p);
    XorTwice(Xor(a, b), p);
  }

  // ----- the register is linear

  lemma ShiftXor(a: Word, b: Word)
    ensures Shift(Xor(a, b)) == Xor(Shift(a), Shift(b))
  {
    hide Xor, Half, Odd;
    HalfXor(a, b);
    XorLaws(Half(a), Half(b), POLY);
  }

  lemma ShiftDouble(w: Word)
    requires Small(w)
    ensures Shift(Double(w)) == w
  {
  }

  /** What comes in after a step may come in before it, one place higher. */
  lemma ShiftLift(x: Word, w: Word)
    requires Small(w)
    ensures Xor(Shift(x), w) == Shift(Xor(x, Double(w)))
  {
    hide *;
    ShiftXor(x, Double(w));
    ShiftDouble(w);
  }

  function Four(s: Word): Word {
    Shift(Shift(Shift(Shift(s))))
  }

  lemma FourXor(a: Word, b: Word)
    ensures Four(Xor(a, b)) == Xor(Four(a), Four(b))
  {
    hide Xor, Shift;
    ShiftXor(a, b);
    ShiftXor(Shift(a), Shift(b));
    ShiftXor(Shift(Shift(a)), Shift(Shift(b)));
    ShiftXor(Shift(Shift(Shift(a))), Shift(Shift(Shift(b))));
  }

  /** A word without low nibble is moved down by four steps. */
  lemma FourOfMultiple(a: Word)
    requires Low(a) == 0
    ensures Four(a) == High(a)
  {
  }

  lemma LowOfUpper(a: Word)
    ensures Low(Upper(a)) == 0
  {
  }

  function Raise(a: Word): Word {
    a << 4
  }

  lemma RaiseHigh(w: Word)
    requires w & 0xF0000000 == 0
    ensures Low(Raise(w)) == 0 && High(Raise(w)) == w
  {
  }

  lemma FourLift(x: Word, w: Word)
    requires w & 0xF0000000 == 0
    ensures Xor(Four(x), w) == Four(Xor(x, Raise(w)))
  {
    hide *;
    FourXor(x, Raise(w));
    RaiseHigh(w);
    FourOfMultiple(Raise(w));
  }

  // ----- bits, nibbles and bytes into the register

  lemma RunAppend(s: Word, a: seq<bool>, b: seq<bool>)
    ensures BitRun(s, a + b) == BitRun(BitRun(s, a), b)
    decreases |a|
  {
    hide Shift, Bit, Xor;
    if a == [] {
      assert a + b == b;
    } else {
      assert (a + b)[1..] == a[1..] + b;
      RunAppend(Shift(Xor(s, Bit(a[0]))), a[1..], b);
    }
  }

  lemma RunOne(s: Word, b: bool)
    ensures BitRun(s, [b]) == Shift(Xor(s, Bit(b)))
  {
    hide Shift, Bit, Xor;
    assert BitRun(s, [b]) == BitRun(Shift(Xor(s, Bit(b))), [b][1..]);
  }

  lemma RunFour(s: Word, b0: bool, b1: bool, b2: bool, b3: bool)
    ensures BitRun(s, [b0, b1, b2, b3]) ==
      Shift(Xor(Shift(Xor(Shift(Xor(Shift(Xor(s, Bit(b0))), Bit(b1))), Bit(b2))), Bit(b3)))
  {
    hide Shift, Bit, Xor;
    RunOne(s, b0);
    var s1 := BitRun(s, [b0]);
    RunOne(s1, b1);
    var s2 := BitRun(s1, [b1]);
    RunOne(s2, b2);
    var s3 := BitRun(s2, [b2]);
    RunOne(s3, b3);
    RunAppend(s, [b0], [b1, b2, b3]);
    RunAppend(s1, [b1], [b2, b3]);
    RunAppend(s2, [b2], [b3]);
    assert [b0] + [b1, b2, b3] == [b0, b1, b2, b3];
    assert [b1] + [b2, b3] == [b1, b2, b3];
    assert [b2] + [b3] == [b2, b3];
  }

  /** Four bits fed one after the other may be fed at once, each in its place. */
  lemma FourFeed(s: Word, b0: Word, b1: Word, b2: Word, b3: Word)
    requires Small(b1) && Small(b2) && Small(Double(b2))
    requires Small(b3) && Small(Double(b3)) && Small(Double(Double(b3)))
    ensures Shift(Xor(Shift(Xor(Shift(Xor(Shift(Xor(s, b0)), b1)), b2)), b3))
      == Four(Xor(Xor(Xor(Xor(s, b0), Double(b1)), Double(Double(b2))), Double(Double(Double(b3)))))
  {
    hide Xor, Shift, Double, Small;
    ShiftLift(Xor(s, b0), b1);
    var y := Xor(Xor(s, b0), Double(b1));
    ShiftLift(Shift(y), b2);
    ShiftLift(y, Double(b2));
    var z := Xor(y, Double(Double(b2)));
    ShiftLift(Shift(Shift(z)), b3);
    ShiftLift(Shift(z), Double(b3));
    ShiftLift(z, Double(Double(b3)));
  }

  lemma BitSmall(b: bool)
    ensures Small(Bit(b)) && Small(Double(Bit(b))) && Small(Double(Double(Bit(b))))
  {
  }

  function FromBits(b0: bool, b1: bool, b2: bool, b3: bool): Word {
    Xor(Xor(Xor(Bit(b0), Double(Bit(b1))), Double(Double(Bit(b2)))), Double(Double(Double(Bit(b3)))))
  }

  lemma NibbleOfBits(n: Word)
    ensures FromBits(Odd(n), Odd(n >> 1), Odd(n >> 2), Odd(n >> 3)) == Low(n)
  {
  }

  lemma XorChain(s: Word, a: Word, b: Word, c: Word, d: Word)
    ensures Xor(Xor(Xor(Xor(s, a), b), c), d) == Xor(s, Xor(Xor(Xor(a, b), c), d))
  {
  }

  lemma RunNibble(s: Word, n: Word)
    ensures BitRun(s, NibbleBits(n)) == Four(Xor(s, Low(n)))
  {
    hide Xor, Shift, Four, Bit, Double, Small, Odd, BitRun, Low;
    var b0, b1, b2, b3 := Odd(n), Odd(n >> 1), Odd(n >> 2), Odd(n >> 3);
    RunFour(s, b0, b1, b2, b3);
    BitSmall(b1);
    BitSmall(b2);
    BitSmall(b3);
    FourFeed(s, Bit(b0), Bit(b1), Bit(b2), Bit(b3));
    XorChain(s, Bit(b0), Double(Bit(b1)), Double(Double(Bit(b2))), Double(Double(Double(Bit(b3)))));
    NibbleOfBits(n);
  }

  lemma RunByte(s: Word, b: Byte)
    ensures BitRun(s, ByteBits(b)) == Four(Xor(Four(Xor(s, Low(b as Word))), Low(b as Word >> 4)))
  {
    hide Xor, Four, BitRun, NibbleBits, Low;
    RunAppend(s, NibbleBits(b as Word), NibbleBits(b as Word >> 4));
    RunNibble(s, b as Word);
    RunNibble(Four(Xor(s, Low(b as Word))), b as Word >> 4);
  }

  // ----- the code

  /** crc_table, for an index below 16. */
  function CrcTable(i: Word): Word {
    if i == 0 then 0x4DBDF21C else if i == 1 then 0x500AE278 else if i == 2 then 0x76D3D2D4
    else if i == 3 then 0x6B64C2B0 else if i == 4 then 0x3B61B38C else if i == 5 then 0x26D6A3E8
    else if i == 6 then 0x000F9344 else if i == 7 then 0x1DB88320 else if i == 8 then 0xA005713C
    else if i == 9 then 0xBDB26158 else if i == 10 then 0x9B6B51F4 else if i == 11 then 0x86DC4190
    else if i == 12 then 0xD6D930AC else if i == 13 then 0xCB6E20C8 else if i == 14 then 0xEDB71064
    else 0xF0000000
  }

  /** One half of the loop body; n may carry more than its low nibble. */
  function NibbleStep(crc: Word, n: Word): Word {
    Xor(High(crc), CrcTable(Low(Xor(crc, n))))
  }

  const VACATED: Word := 0xF0000000

  /** Each entry is the standard one for the complemented index, with the vacated bits complemented. */
  lemma TableIsComplemented(i: Word)
    requires i <= 15
    ensures CrcTable(i) == Xor(VACATED, Four(Xor(15, i)))
  {
    if i <= 7 {
      assert i == 0 || i == 1 || i == 2 || i == 3 || i == 4 || i == 5 || i == 6 || i == 7;
    } else {
      assert i == 8 || i == 9 || i == 10 || i == 11 || i == 12 || i == 13 || i == 14 || i == 15;
    }
  }

  /** The complemented register after a nibble, cut into its upper part and the complemented table index. */
  lemma ComplementSplit(crc: Word, n: Word)
    ensures var x, i := Xor(Not(crc), Low(n)), Low(Xor(crc, n));
      x == Xor(Upper(x), Xor(15, i)) && i <= 15 && High(Upper(x)) == Xor(Not(High(crc)), VACATED)
  {
  }

  lemma UpperShifts(a: Word)
    ensures Four(Upper(a)) == High(Upper(a))
  {
    hide *;
    LowOfUpper(a);
    FourOfMultiple(Upper(a));
  }

  lemma ComplementJoin(a: Word, f: Word)
    ensures Xor(Xor(Not(a), VACATED), f) == Not(Xor(a, Xor(VACATED, f)))
  {
  }

  lemma StepNamed(crc: Word, n: Word)
    ensures NibbleStep(crc, n) == Xor(High(crc), CrcTable(Low(Xor(crc, n))))
  {
    hide CrcTable, Xor, High, Low;
  }

  /** One step of the code is four steps of the complemented register. */
  lemma StepIsFour(crc: Word, n: Word)
    ensures Four(Xor(Not(crc), Low(n))) == Not(NibbleStep(crc, n))
  {
    hide *;
    var x, i := Xor(Not(crc), Low(n)), Low(Xor(crc, n));
    ComplementSplit(crc, n);
    FourXor(Upper(x), Xor(15, i));
    UpperShifts(x);
    TableIsComplemented(i);
    ComplementJoin(High(crc), Four(Xor(15, i)));
    StepNamed(crc, n);
  }

  lemma BitsAppend(data: seq<Byte>, b: Byte)
    ensures Bits(data + [b]) == Bits(data) + ByteBits(b)
  {
    hide ByteBits;
    if data == [] {
      assert data + [b] == [b] && Bits([b]) == ByteBits(b) + Bits([b][1..]);
    } else {
      assert (data + [b])[1..] == data[1..] + [b];
      BitsAppend(data[1..], b);
      assert Bits(data + [b]) == ByteBits(data[0]) + (Bits(data[1..]) + ByteBits(b));
    }
  }

  /** Both steps of the loop body for one byte. */
  lemma ByteStep(crc: Word, b: Byte)
    ensures BitRun(Not(crc), ByteBits(b)) == Not(NibbleStep(NibbleStep(crc, b as Word), b as Word >> 4))
  {
    hide *;
    StepIsFour(crc, b as Word);
    StepIsFour(NibbleStep(crc, b as Word), b as Word >> 4);
    RunByte(Not(crc), b);
  }

  /** ether_fcs. */
  method EtherFcs(data: seq<Byte>) returns (crc: Word)
    ensures crc == Crc32(data)
  {
    hide NibbleStep, BitRun, ByteBits, Not;
    crc := 0;
    StartOnes();
    for i := 0 to |data|
      invariant Not(crc) == BitRun(ONES, Bits(data[..i]))
    {
      ByteStep(crc, data[i]);
      crc := NibbleStep(crc, data[i] as Word >> 0);
      crc := NibbleStep(crc, data[i] as Word >> 4);
      assert data[..i + 1] == data[..i] + [data[i]];
      BitsAppend(data[..i], data[i]);
      RunAppend(ONES, Bits(data[..i]), ByteBits(data[i]));
    }
    assert data[..|data|] == data;
    NotNot(crc);
  }

  lemma StartOnes()
    ensures Not(0) == BitRun(ONES, Bits([]))
  {
  }

  lemma NotNot(a: Word)
    ensures !Not(a) == a
  {
  }

  // ----- a known value

  /** The first byte of a message. */
  lemma FirstByte(crc: Word, data: seq<Byte>)
    requires data != []
    ensures BitRun(Not(crc), Bits(data))
      == BitRun(Not(NibbleStep(NibbleStep(crc, data[0] as Word), data[0] as Word >> 4)), Bits(data[1..]))
  {
    hide BitRun, ByteBits, NibbleStep, Not;
    ByteStep(crc, data[0]);
    RunAppend(Not(crc), ByteBits(data[0]), Bits(data[1..]));
  }

  function ThreeBytes(crc: Word, a: Byte, b: Byte, c: Byte): Word {
    var crc1 := NibbleStep(NibbleStep(crc, a as Word), a as Word >> 4);
    var crc2 := NibbleStep(NibbleStep(crc1, b as Word), b as Word >> 4);
    NibbleStep(NibbleStep(crc2, c as Word), c as Word >> 4)
  }

  lemma StepsOfThree(crc: Word, a: Byte, b: Byte, c: Byte, rest: seq<Byte>)
    ensures BitRun(Not(crc), Bits([a, b, c] + rest))
      == BitRun(Not(ThreeBytes(crc, a, b, c)), Bits(rest))
  {
    hide BitRun, Bits, NibbleStep, Not;
    var data := [a, b, c] + rest;
    FirstByte(crc, data);
    var crc1 := NibbleStep(NibbleStep(crc, a as Word), a as Word >> 4);
    FirstByte(crc1, data[1..]);
    var crc2 := NibbleStep(NibbleStep(crc1, b as Word), b as Word >> 4);
    FirstByte(crc2, data[2..]);
    assert data[1..][1..] == data[2..] && data[2..][1..] == rest;
  }

  lemma KnownSteps()
    ensures ThreeBytes(0, 0x31, 0x32, 0x33) == 0x884863D2
    ensures ThreeBytes(0x884863D2, 0x34, 0x35, 0x36) == 0x0972D361
    ensures ThreeBytes(0x0972D361, 0x37, 0x38, 0x39) == 0xCBF43926
  {
  }

  /** The check value of the CRC-32 of IEEE 802.3: that of the digits 1 to 9 in ASCII. */
  lemma KnownValue()
    ensures Crc32([0x31, 0x32, 0x33, 0x34, 0x35, 0x36, 0x37, 0x38, 0x39]) == 0xCBF43926
  {
    hide BitRun, Bits, ThreeBytes;
    var all: seq<Byte> := [0x31, 0x32, 0x33, 0x34, 0x35, 0x36, 0x37, 0x38, 0x39];
    KnownSteps();
    StepsOfThree(0, 0x31, 0x32, 0x33, all[3..]);
    StepsOfThree(0x884863D2, 0x34, 0x35, 0x36, all[6..]);
    StepsOfThree(0x0972D361, 0x37, 0x38, 0x39, []);
    assert all == [0x31, 0x32, 0x33] + all[3..] && all[3..] == [0x34, 0x35, 0x36] + all[6..];
    assert all[6..] == [0x37, 0x38, 0x39] + [];
    NoneLeft(0xCBF43926);
  }

  lemma NoneLeft(crc: Word)
    ensures BitRun(Not(crc), Bits([])) == Not(crc) && !Not(crc) == crc && ONES == Not(0)
  {
  }

  // ----- the residue

  /** The four bytes that memcpy stores for a word on a little-endian host. */
  function LittleEndian(w: Word): seq<Byte> {
    [(w & 0xFF) as Byte, ((w >> 8) & 0xFF) as Byte, ((w >> 16) & 0xFF) as Byte, ((w >> 24) & 0xFF) as Byte]
  }

  /** A word without its i lowest nibbles, and nibble i. */
  function Tail(w: Word, i: nat): Word {
    if i == 0 then w else High(Tail(w, i - 1))
  }

  function Nibble(w: Word, i: nat): Word {
    Low(Tail(w, i))
  }

  lemma LowAndHigh(t: Word)
    ensures t == Xor(Low(t), Raise(High(t))) && High(t) & 0xF0000000 == 0
  {
  }

  lemma TailEnds(w: Word)
    ensures Tail(w, 8) == 0
  {
    hide High;
    assert Tail(w, 8) == High(High(Tail(w, 6)));
    assert Tail(w, 6) == High(High(Tail(w, 4)));
    assert Tail(w, 4) == High(High(Tail(w, 2)));
    assert Tail(w, 1) == High(w) && Tail(w, 2) == High(Tail(w, 1));
    EightDown(w);
  }

  lemma EightDown(w: Word)
    ensures High(High(High(High(High(High(High(High(w)))))))) == 0
  {
  }

  lemma LittleEndianNibbles(w: Word)
    ensures var b := LittleEndian(w);
      && Low(b[0] as Word) == Nibble(w, 0) && Low(b[0] as Word >> 4) == Nibble(w, 1)
      && Low(b[1] as Word) == Nibble(w, 2) && Low(b[1] as Word >> 4) == Nibble(w, 3)
      && Low(b[2] as Word) == Nibble(w, 4) && Low(b[2] as Word >> 4) == Nibble(w, 5)
      && Low(b[3] as Word) == Nibble(w, 6) && Low(b[3] as Word >> 4) == Nibble(w, 7)
  {
    hide *;
    TailStep(w, 0);
    TailStep(w, 1);
    TailStep(w, 2);
    TailStep(w, 3);
    TailStep(w, 4);
    TailStep(w, 5);
    TailStep(w, 6);
    TailStep(w, 7);
    FourBytes(w);
    LowByteParts(w);
    HighByteParts(w);
  }

  lemma TailStep(w: Word, i: nat)
    ensures Tail(w, 0) == w && Tail(w, i + 1) == High(Tail(w, i)) && Nibble(w, i) == Low(Tail(w, i))
  {
    hide High, Low;
  }

  lemma LowByteParts(w: Word)
    ensures var b, w2 := LittleEndian(w), High(High(w));
      && Low(b[0] as Word) == Low(w) && Low(b[0] as Word >> 4) == Low(High(w))
      && Low(b[1] as Word) == Low(w2) && Low(b[1] as Word >> 4) == Low(High(w2))
  {
  }

  lemma HighByteParts(w: Word)
    ensures var b, w4 := LittleEndian(w), High(High(High(High(w))));
      && Low(b[2] as Word) == Low(w4) && Low(b[2] as Word >> 4) == Low(High(w4))
      && Low(b[3] as Word) == Low(High(High(w4)))
      && Low(b[3] as Word >> 4) == Low(High(High(High(w4))))
  {
  }

  function Feed(s: Word, w: Word, i: nat): Word
    requires i <= 8
    decreases 8 - i
  {
    if i == 8 then s else Feed(Four(Xor(s, Nibble(w, i))), w, i + 1)
  }

  function Fours(s: Word, n: nat): Word
    decreases n
  {
    if n == 0 then s else Fours(Four(s), n - 1)
  }

  /** The nibbles of a word may be fed all at once. */
  lemma FeedAtOnce(s: Word, w: Word, i: nat)
    requires i <= 8
    ensures Feed(s, w, i) == Fours(Xor(s, Tail(w, i)), 8 - i)
    decreases 8 - i
  {
    hide Four, Xor, Low, High, Raise;
    if i == 8 {
      TailEnds(w);
      XorZero(s);
    } else {
      var t, x := Tail(w, i), Xor(s, Nibble(w, i));
      FeedAtOnce(Four(x), w, i + 1);
      LowAndHigh(t);
      FourLift(x, High(t));
      XorLaws(s, Low(t), Raise(High(t)));
    }
  }

  lemma XorZero(s: Word)
    ensures Xor(s, 0) == s
  {
  }

  lemma BitsConcat(a: seq<Byte>, b: seq<Byte>)
    ensures Bits(a + b) == Bits(a) + Bits(b)
  {
    hide ByteBits;
    if a == [] {
      assert a + b == b;
    } else {
      assert (a + b)[1..] == a[1..] + b;
      BitsConcat(a[1..], b);
      assert Bits(a + b) == ByteBits(a[0]) + (Bits(a[1..]) + Bits(b));
    }
  }

  lemma BitsOfOne(b: Byte)
    ensures Bits([b]) == ByteBits(b)
  {
    hide ByteBits;
    assert Bits([b]) == ByteBits(b) + Bits([b][1..]);
  }

  lemma RunFourBytes(s: Word, b: seq<Byte>)
    requires |b| == 4
    ensures BitRun(s, Bits(b)) ==
      BitRun(BitRun(BitRun(BitRun(s, ByteBits(b[0])), ByteBits(b[1])), ByteBits(b[2])), ByteBits(b[3]))
  {
    hide ByteBits, BitRun, Bits;
    assert b == [b[0]] + ([b[1]] + ([b[2]] + [b[3]]));
    BitsOfOne(b[0]);
    BitsOfOne(b[1]);
    BitsOfOne(b[2]);
    BitsOfOne(b[3]);
    BitsConcat([b[0]], [b[1]] + ([b[2]] + [b[3]]));
    BitsConcat([b[1]], [b[2]] + [b[3]]);
    BitsConcat([b[2]], [b[3]]);
    RunAppend(s, ByteBits(b[0]), ByteBits(b[1]) + (ByteBits(b[2]) + ByteBits(b[3])));
    var s1 := BitRun(s, ByteBits(b[0]));
    RunAppend(s1, ByteBits(b[1]), ByteBits(b[2]) + ByteBits(b[3]));
    RunAppend(BitRun(s1, ByteBits(b[1])), ByteBits(b[2]), ByteBits(b[3]));
  }

  /** Feeding a byte that holds nibbles i and i + 1. */
  lemma FeedByte(s: Word, b: Byte, w: Word, i: nat)
    requires i <= 6 && Low(b as Word) == Nibble(w, i) && Low(b as Word >> 4) == Nibble(w, i + 1)
    ensures Feed(s, w, i) == Feed(BitRun(s, ByteBits(b)), w, i + 2)
  {
    hide Four, Xor, Nibble, Low, BitRun, ByteBits;
    RunByte(s, b);
    assert Feed(s, w, i) == Feed(Four(Xor(s, Nibble(w, i))), w, i + 1);
  }

  lemma RunWord(s: Word, w: Word)
    ensures BitRun(s, Bits(LittleEndian(w))) == Fours(Xor(s, w), 8)
  {
    hide *;
    var b := LittleEndian(w);
    FourBytes(w);
    RunFourBytes(s, b);
    LittleEndianNibbles(w);
    var s1 := BitRun(s, ByteBits(b[0]));
    var s2 := BitRun(s1, ByteBits(b[1]));
    var s3 := BitRun(s2, ByteBits(b[2]));
    FeedByte(s, b[0], w, 0);
    FeedByte(s1, b[1], w, 2);
    FeedByte(s2, b[2], w, 4);
    FeedByte(s3, b[3], w, 6);
    FeedAtOnce(s, w, 0);
    FeedEnd(BitRun(s3, ByteBits(b[3])), w);
    TailStep(w, 0);
  }

  lemma FeedEnd(s: Word, w: Word)
    ensures Feed(s, w, 8) == s
  {
  }

  lemma FourBytes(w: Word)
    ensures |LittleEndian(w)| == 4
  {
  }

  /** A message followed by its own check sequence, stored as linux_ether.c stores it, always has the same
    check sequence: that of four zero bytes. */
  lemma Residue(data: seq<Byte>)
    ensures Crc32(data + LittleEndian(Crc32(data))) == Crc32([0, 0, 0, 0])
  {
    hide *;
    var f, s := Crc32(data), BitRun(ONES, Bits(data));
    CrcIsNot(data);
    CrcIsNot(data + LittleEndian(f));
    CrcIsNot([0, 0, 0, 0]);
    BitsConcat(data, LittleEndian(f));
    RunAppend(ONES, Bits(data), Bits(LittleEndian(f)));
    RunWord(s, f);
    XorOfComplements(s);
    ZeroBytes();
    RunWord(ONES, 0);
  }

  lemma CrcIsNot(data: seq<Byte>)
    ensures Crc32(data) == Not(BitRun(ONES, Bits(data)))
  {
    hide BitRun, Bits;
  }

  lemma XorOfComplements(s: Word)
    ensures Xor(s, Not(s)) == Xor(ONES, 0)
  {
  }

  lemma ZeroBytes()
    ensures LittleEndian(0) == [0, 0, 0, 0]
  {
  }

  // ----- bursts

  function Differences(a: seq<bool>, b: seq<bool>): seq<bool>
    requires |a| == |b|
  {
    seq(|a|, i requires 0 <= i < |a| => a[i] != b[i])
  }

  lemma XorPairs(s: Word, p: Word, t: Word, q: Word)
    ensures Xor(Xor(s, p), Xor(t, q)) == Xor(Xor(s, t), Xor(p, q))
  {
    hide *;
    XorLaws(Xor(s, p), t, q);
    XorLaws(s, t, p);
    XorLaws(Xor(s, t), p, q);
  }

  lemma XorOfBits(u: bool, v: bool)
    ensures Xor(Bit(u), Bit(v)) == Bit(u != v)
  {
  }

  lemma StepDifference(s: Word, t: Word, u: bool, v: bool)
    ensures Xor(Shift(Xor(s, Bit(u))), Shift(Xor(t, Bit(v)))) == Shift(Xor(Xor(s, t), Bit(u != v)))
  {
    hide *;
    ShiftXor(Xor(s, Bit(u)), Xor(t, Bit(v)));
    XorPairs(s, Bit(u), t, Bit(v));
    XorOfBits(u, v);
  }

  lemma RunNone(s: Word)
    ensures BitRun(s, []) == s
  {
  }

  lemma RunCons(s: Word, bits: seq<bool>)
    requires bits != []
    ensures BitRun(s, bits) == BitRun(Shift(Xor(s, Bit(bits[0]))), bits[1..])
  {
    hide Shift, Xor, Bit;
  }

  lemma DifferenceCons(a: seq<bool>, b: seq<bool>)
    requires |a| == |b| && a != []
    ensures Differences(a, b) != [] && Differences(a, b)[0] == (a[0] != b[0])
    ensures Differences(a, b)[1..] == Differences(a[1..], b[1..])
  {
  }

  /** Registers fed with two messages differ as one fed with the difference. */
  lemma RunDifference(s: Word, t: Word, a: seq<bool>, b: seq<bool>)
    requires |a| == |b|
    ensures Xor(BitRun(s, a), BitRun(t, b)) == BitRun(Xor(s, t), Differences(a, b))
    decreases |a|
  {
    hide Xor, Shift, Bit, BitRun;
    if a == [] {
      assert Differences(a, b) == [];
      RunNone(s);
      RunNone(t);
      RunNone(Xor(s, t));
    } else {
      var s1, t1 := Shift(Xor(s, Bit(a[0]))), Shift(Xor(t, Bit(b[0])));
      RunDifference(s1, t1, a[1..], b[1..]);
      StepDifference(s, t, a[0], b[0]);
      RunCons(s, a);
      RunCons(t, b);
      DifferenceCons(a, b);
      RunCons(Xor(s, t), Differences(a, b));
    }
  }

  /** A lower bound for a non-zero difference, k steps after its first bit. */
  function Floor(k: nat): Word {
    if k == 0 then 0x80000000 else Half(Floor(k - 1))
  }

  predicate OneHot(a: Word) {
    a != 0 && a & (a - 1) == 0
  }

  predicate Above(d: Word, floor: Word) {
    floor <= d
  }

  lemma FloorDown(k: nat)
    ensures Floor(k + 4) == Half(Half(Half(Half(Floor(k)))))
  {
    hide Half;
    assert Floor(k + 4) == Half(Floor(k + 3));
    assert Floor(k + 3) == Half(Floor(k + 2));
    assert Floor(k + 2) == Half(Floor(k + 1));
  }

  lemma FourHalves(a: Word)
    ensures Half(Half(Half(Half(a)))) == a >> 4
  {
  }

  lemma FloorLast()
    ensures Floor(32) == 0 && Floor(31) != 0
  {
    hide Half;
    FloorDown(0);
    FloorDown(4);
    FloorDown(8);
    FloorDown(12);
    FloorDown(16);
    FloorDown(20);
    FloorDown(24);
    FourHalves(0x80000000);
    FourHalves(0x8000000);
    FourHalves(0x800000);
    FourHalves(0x80000);
    FourHalves(0x8000);
    FourHalves(0x800);
    FourHalves(0x80);
    assert Floor(28) == 8;
    assert Floor(29) == Half(8) && Floor(30) == Half(Half(8)) && Floor(31) == Half(Half(Half(8)));
    assert Floor(32) == Half(Half(Half(Half(8))));
    LastHalves();
  }

  lemma LastHalves()
    ensures Half(Half(Half(8))) == 1 && Half(Half(Half(Half(8)))) == 0
  {
  }

  lemma FloorZero(k: nat, j: nat)
    requires k <= j && Floor(k) == 0
    ensures Floor(j) == 0
  {
    if k < j {
      FloorZero(k, j - 1);
    }
  }

  lemma HalfOneHot(a: Word)
    requires OneHot(a) && Half(a) != 0
    ensures OneHot(Half(a)) && !Odd(a)
  {
  }

  lemma FloorOneHot(k: nat)
    requires k <= 31
    ensures OneHot(Floor(k)) && (k < 31 ==> !Odd(Floor(k)))
  {
    hide Half, OneHot, Odd;
    FloorLast();
    if k == 0 {
      FloorTop();
    } else {
      if Floor(k) == 0 {
        FloorZero(k, 31);
      }
      FloorOneHot(k - 1);
      HalfOneHot(Floor(k - 1));
      if k < 31 {
        if Half(Floor(k)) == 0 {
          FloorZero(k + 1, 31);
        }
        HalfOneHot(Floor(k));
      }
    }
  }

  lemma FloorTop()
    ensures OneHot(Floor(0)) && !Odd(Floor(0))
  {
  }

  /** One step lowers the leading bit by at most one place. */
  lemma ShiftKeeps(d: Word, b: bool, floor: Word)
    requires Above(d, floor) && OneHot(floor) && !Odd(floor)
    ensures Above(Shift(Xor(d, Bit(b))), Half(floor))
  {
  }

  lemma BurstSurvives(d: Word, bits: seq<bool>, k: nat, n: nat)
    requires Above(d, Floor(k)) && n == k + |bits| <= 31
    ensures Above(BitRun(d, bits), Floor(n))
    decreases |bits|
  {
    hide *;
    if bits == [] {
      RunNone(d);
    } else {
      FloorStep(d, bits[0], k);
      RunCons(d, bits);
      BurstSurvives(Shift(Xor(d, Bit(bits[0]))), bits[1..], k + 1, n);
    }
  }

  lemma FloorStep(d: Word, b: bool, k: nat)
    requires Above(d, Floor(k)) && k < 31
    ensures Above(Shift(Xor(d, Bit(b))), Floor(k + 1))
  {
    hide Xor, Shift, Bit, Half, OneHot, Odd;
    FloorOneHot(k);
    ShiftKeeps(d, b, Floor(k));
  }

  lemma ShiftZero(d: Word)
    ensures Shift(Xor(d, Bit(false))) == 0 <==> d == 0
  {
  }

  lemma QuietRun(d: Word, bits: seq<bool>)
    requires forall i | 0 <= i < |bits| :: !bits[i]
    ensures BitRun(d, bits) == 0 <==> d == 0
    decreases |bits|
  {
    hide Xor, Shift, Bit;
    if bits != [] {
      ShiftZero(d);
      QuietRun(Shift(Xor(d, Bit(bits[0]))), bits[1..]);
    }
  }

  lemma FirstBit()
    ensures Above(Shift(Xor(0, Bit(true))), Floor(0))
  {
  }

  lemma HotIsNotZero(a: Word, d: Word)
    requires OneHot(a) && Above(d, a)
    ensures d != 0
  {
  }

  /** A difference whose set bits lie within 32 places never leaves the register at zero. */
  lemma BurstRun(bits: seq<bool>, p: nat)
    requires forall i | 0 <= i < |bits| && !(p <= i < p + 32) :: !bits[i]
    requires exists i :: 0 <= i < |bits| && bits[i]
    ensures BitRun(0, bits) != 0
  {
    hide Xor, Shift, Bit, OneHot, Floor, BitRun;
    var j := FirstSet(bits);
    var e := if p + 32 <= |bits| then p + 32 else |bits|;
    var head, middle, tail := bits[..j], bits[j + 1..e], bits[e..];
    assert bits == head + ([true] + (middle + tail));
    BurstParts(head, middle, tail);
  }

  lemma BurstParts(head: seq<bool>, middle: seq<bool>, tail: seq<bool>)
    requires forall i | 0 <= i < |head| :: !head[i]
    requires forall i | 0 <= i < |tail| :: !tail[i]
    requires |middle| <= 31
    ensures BitRun(0, head + ([true] + (middle + tail))) != 0
  {
    hide *;
    RunAppend(0, head, [true] + (middle + tail));
    QuietRun(0, head);
    RunAppend(0, [true], middle + tail);
    RunOne(0, true);
    var d := Shift(Xor(0, Bit(true)));
    FirstBit();
    RunAppend(d, middle, tail);
    BurstSurvives(d, middle, 0, |middle|);
    FloorOneHot(|middle|);
    HotIsNotZero(Floor(|middle|), BitRun(d, middle));
    QuietRun(BitRun(d, middle), tail);
  }

  lemma FirstSet(bits: seq<bool>) returns (j: nat)
    requires exists i :: 0 <= i < |bits| && bits[i]
    ensures j < |bits| && bits[j] && forall i | 0 <= i < j :: !bits[i]
  {
    j := 0;
    while !bits[j]
      invariant j < |bits| && forall i | 0 <= i < j :: !bits[i]
      invariant exists i :: j <= i < |bits| && bits[i]
      decreases |bits| - j
    {
      j := j + 1;
    }
  }

  lemma BytesByNibbles(a: Byte, b: Byte)
    requires Low(a as Word) == Low(b as Word) && Low(a as Word >> 4) == Low(b as Word >> 4)
    ensures a == b
  {
  }

  lemma NibbleBitsInjective(a: Word, b: Word)
    requires NibbleBits(a) == NibbleBits(b)
    ensures Low(a) == Low(b)
  {
    hide FromBits, Odd, Low;
    NibbleOfBits(a);
    NibbleOfBits(b);
    assert forall i | 0 <= i < 4 :: NibbleBits(a)[i] == NibbleBits(b)[i];
  }

  lemma ByteBitsInjective(a: Byte, b: Byte)
    requires ByteBits(a) == ByteBits(b)
    ensures a == b
  {
    hide Odd, Low;
    assert NibbleBits(a as Word) == ByteBits(a)[..4] && NibbleBits(a as Word >> 4) == ByteBits(a)[4..];
    assert NibbleBits(b as Word) == ByteBits(b)[..4] && NibbleBits(b as Word >> 4) == ByteBits(b)[4..];
    NibbleBitsInjective(a as Word, b as Word);
    NibbleBitsInjective(a as Word >> 4, b as Word >> 4);
    BytesByNibbles(a, b);
  }

  lemma EightBits(b: Byte)
    ensures |ByteBits(b)| == 8
  {
  }

  lemma BitsInjective(a: seq<Byte>, b: seq<Byte>)
    requires |a| == |b|
    ensures |Bits(a)| == |Bits(b)| && (Bits(a) == Bits(b) ==> a == b)
  {
    hide ByteBits;
    if a != [] {
      EightBits(a[0]);
      EightBits(b[0]);
      BitsInjective(a[1..], b[1..]);
      if Bits(a) == Bits(b) {
        assert ByteBits(a[0]) == Bits(a)[..8] && Bits(a[1..]) == Bits(a)[8..];
        assert ByteBits(b[0]) == Bits(b)[..8] && Bits(b[1..]) == Bits(b)[8..];
        ByteBitsInjective(a[0], b[0]);
        assert a == [a[0]] + a[1..] && b == [b[0]] + b[1..];
      }
    }
  }

  /** Two messages of equal length that differ only inside a window of 32 bits have different check
    sequences. */
  lemma BurstDetected(a: seq<Byte>, b: seq<Byte>, p: nat)
    requires |a| == |b| && a != b && |Bits(a)| == |Bits(b)|
    requires forall i | 0 <= i < |Bits(a)| && !(p <= i < p + 32) :: Bits(a)[i] == Bits(b)[i]
    ensures Crc32(a) != Crc32(b)
  {
    hide Xor, BitRun, Bits, Crc32;
    BitsInjective(a, b);
    var x, y := Bits(a), Bits(b);
    var d := Differences(x, y);
    var i :| 0 <= i < |x| && x[i] != y[i];
    assert d[i];
    RunDifference(ONES, ONES, x, y);
    OnesCancel();
    BurstRun(d, p);
    CrcDiffer(a, b);
  }

  lemma OnesCancel()
    ensures Xor(ONES, ONES) == 0
  {
  }

  lemma CrcDiffer(a: seq<Byte>, b: seq<Byte>)
    requires Xor(BitRun(ONES, Bits(a)), BitRun(ONES, Bits(b))) != 0
    ensures Crc32(a) != Crc32(b)
  {
    hide BitRun, Bits;
  }
}
