/** The Internet checksum (src/ip.c:40-65, src/tcp.c:118-166), section 2 of RFC 1071.

  The accumulator is a number modulo 65535 with representatives 1..65535.  Words are loaded in the byte
  order of the host, so everything is stated for both orders. */
module Checksum {

  type Byte = x: nat | x < 256
  type Word = x: nat | x < 65536

  datatype Order = LittleEndian | BigEndian

  /** A 16-bit load, and the two bytes of a 16-bit store. */
  function Load(o: Order, b0: Byte, b1: Byte): Word {
    if o.LittleEndian? then b0 + 256 * b1 else 256 * b0 + b1
  }

  function Store(o: Order, w: Word): seq<Byte> {
    if o.LittleEndian? then [w % 256, w / 256] else [w / 256, w % 256]
  }

  /** The sum of the words of data; a last odd byte is the first byte of a word. */
  function WordSum(o: Order, data: seq<Byte>): nat {
    if |data| == 0 then 0
    else if |data| == 1 then Load(o, data[0], 0)
    else Load(o, data[0], data[1]) + WordSum(o, data[2..])
  }

  /** The representative of s modulo 65535 in 1..65535. */
  function Norm(s: nat): (r: nat)
    ensures 1 <= r <= 65535
  {
    (s + 65534) % 65535 + 1
  }

  /** The checksum of data as a 16-bit number of the host. */
  function Sum16(o: Order, data: seq<Byte>): Word {
    65535 - Norm(WordSum(o, data))
  }

  // ----- the sum by places, which knows no words

  /** Every byte times the weight of its place; the two weights alternate. */
  ghost function ByPlace(data: seq<Byte>, even: nat, odd: nat): nat {
    if data == [] then 0 else data[0] * even + ByPlace(data[1..], odd, even)
  }

  /** In network order bytes at even places count 256 times, and so do those at odd places on a host that loads the
    first byte of a word as its low one. */
  ghost function PlaceSum(o: Order, data: seq<Byte>): nat {
    if o == BigEndian then ByPlace(data, 256, 1) else ByPlace(data, 1, 256)
  }

  lemma TwoPlaces(p: seq<Byte>, i: nat, even: nat, odd: nat)
    requires i + 1 < |p|
    ensures ByPlace(p[i..], even, odd) == p[i] * even + p[i + 1] * odd + ByPlace(p[i + 2..], even, odd)
  {
    assert p[i..][1..] == p[i + 1..] && p[i + 1..][1..] == p[i + 2..];
  }

  lemma {:induction false} WordsByPlace(o: Order, data: seq<Byte>)
    ensures WordSum(o, data) == PlaceSum(o, data)
    decreases |data|
  {
    if |data| == 1 {
      assert data[1..] == [] && ByPlace([], 1, 256) == 0 && ByPlace([], 256, 1) == 0;
    } else if |data| > 1 {
      assert data[0..] == data;
      TwoPlaces(data, 0, 256, 1);
      TwoPlaces(data, 0, 1, 256);
      WordsByPlace(o, data[2..]);
    }
  }

  lemma {:induction false} ByPlaceAppend(a: seq<Byte>, b: seq<Byte>, even: nat, odd: nat)
    requires |a| % 2 == 0
    ensures ByPlace(a + b, even, odd) == ByPlace(a, even, odd) + ByPlace(b, even, odd)
    decreases |a|
  {
    if a == [] {
      assert a + b == b;
    } else {
      assert (a + b)[1..][1..] == a[2..] + b && a[1..][1..] == a[2..];
      ByPlaceAppend(a[2..], b, even, odd);
    }
  }

  /** r is the checksum for a sum of bytes by their places: the number below 65535 that makes it 0 modulo 65535. */
  ghost predicate Completes(r: nat, sum: nat) {
    r < 65535 && (sum + r) % 65535 == 0
  }

  lemma CompletesNorm(s: nat)
    ensures Completes(65535 - Norm(s), s)
  {
    NormUnique(s, Norm(s));
  }

  lemma SumCompletes(o: Order, data: seq<Byte>)
    ensures Completes(Sum16(o, data), PlaceSum(o, data))
  {
    WordsByPlace(o, data);
    CompletesNorm(WordSum(o, data));
  }

  // ----- arithmetic modulo 65535

  ghost predicate Same(a: int, b: int) {
    (a - b) % 65535 == 0
  }

  lemma SameTrans(a: int, b: int, c: int)
    requires Same(a, b) && Same(b, c)
    ensures Same(a, c) && Same(c, a)
  {
  }

  lemma NormUnique(s: nat, r: nat)
    requires 1 <= r <= 65535
    ensures r == Norm(s) <==> Same(s, r)
  {
  }

  /** One turn of the loops: add a word and subtract 0xffff on overflow. */
  function Fold(acc: nat, w: Word): nat {
    if acc + w > 0xffff then acc + w - 0xffff else acc + w
  }

  lemma FoldNorm(s: nat, w: Word)
    ensures Fold(Norm(s), w) == Norm(s + w)
  {
    hide Norm, Same;
    NormUnique(s, Norm(s));
    SameFold(s, Norm(s), w);
    NormUnique(s + w, Fold(Norm(s), w));
  }

  lemma SameFold(s: nat, r: nat, w: Word)
    requires Same(s, r)
    ensures Same(s + w, Fold(r, w))
  {
  }

  lemma WordSumAppend(o: Order, a: seq<Byte>, b: seq<Byte>)
    requires |a| % 2 == 0
    ensures WordSum(o, a + b) == WordSum(o, a) + WordSum(o, b)
    decreases |a|
  {
    if |a| == 0 {
      assert a + b == b;
    } else {
      assert (a + b)[2..] == a[2..] + b;
      WordSumAppend(o, a[2..], b);
    }
  }

  lemma WordSumPair(o: Order, a: Byte, b: Byte)
    ensures WordSum(o, [a, b]) == Load(o, a, b)
  {
    assert [a, b][2..] == [];
  }

  lemma WordSumNone(o: Order)
    ensures WordSum(o, []) == 0
  {
  }

  lemma WordSumNext(o: Order, data: seq<Byte>, i: nat)
    requires i + 1 < |data| && i % 2 == 0
    ensures WordSum(o, data[..i + 2]) == WordSum(o, data[..i]) + Load(o, data[i], data[i + 1])
  {
    assert data[..i + 2] == data[..i] + [data[i], data[i + 1]];
    WordSumAppend(o, data[..i], [data[i], data[i + 1]]);
    WordSumPair(o, data[i], data[i + 1]);
  }

  lemma WordSumLast(o: Order, data: seq<Byte>)
    requires |data| % 2 == 1
    ensures WordSum(o, data) == WordSum(o, data[..|data| - 1]) + Load(o, data[|data| - 1], 0)
  {
    var i := |data| - 1;
    assert data == data[..i] + [data[i]];
    WordSumAppend(o, data[..i], [data[i]]);
  }

  // ----- the loops

  /** The loop over the words of a buffer, with the odd last byte, from a given accumulator. */
  method Accumulate(o: Order, data: seq<Byte>, acc0: nat, ghost s: nat) returns (acc: nat)
    requires acc0 == Norm(s)
    ensures acc == Norm(s + WordSum(o, data))
  {
    hide Norm, WordSum, Load;
    acc := acc0;
    var i := 0;
    WordSumNone(o);
    while i + 1 < |data|
      invariant 0 <= i <= |data| && i % 2 == 0
      invariant acc == Norm(s + WordSum(o, data[..i]))
    {
      var word := Load(o, data[i], data[i + 1]);
      FoldNorm(s + WordSum(o, data[..i]), word);
      WordSumNext(o, data, i);
      acc := acc + word;
      if acc > 0xffff {
        acc := acc - 0xffff;
      }
      i := i + 2;
    }
    if |data| % 2 == 1 {
      var word := Load(o, data[|data| - 1], 0);
      FoldNorm(s + WordSum(o, data[..i]), word);
      WordSumLast(o, data);
      acc := acc + word;
      if acc > 0xffff {
        acc := acc - 0xffff;
      }
    } else {
      assert data[..i] == data;
    }
  }

  /** ip_checksum. */
  method IpChecksum(o: Order, data: seq<Byte>) returns (r: Word)
    ensures r == Sum16(o, data) && Completes(r, PlaceSum(o, data))
  {
    SumCompletes(o, data);
    var acc := 0xffff;
    acc := Accumulate(o, data, acc, 0);
    r := 0xffff - acc;
  }

  /** The pseudo header of section 3.1 of RFC 9293: addresses, zero, protocol 6 and the segment length. */
  function PseudoHeader(src: seq<Byte>, dst: seq<Byte>, bsize: nat): (p: seq<Byte>)
    requires |src| == |dst| == 4
    ensures |p| == 12
  {
    src + dst + [0, 6] + Store(BigEndian, bsize % 65536)
  }

  /** What the pseudo header adds: the address words, 6 and the length on a host in network order, and on any other
    the same with the bytes of each word exchanged. */
  ghost function PseudoSum(o: Order, src: seq<Byte>, dst: seq<Byte>, bsize: nat): nat
    requires |src| == |dst| == 4
  {
    if o == BigEndian then
      src[0] * 256 + src[1] + src[2] * 256 + src[3] + dst[0] * 256 + dst[1] + dst[2] * 256 + dst[3]
      + 6 + bsize % 65536
    else
      src[0] + src[1] * 256 + src[2] + src[3] * 256 + dst[0] + dst[1] * 256 + dst[2] + dst[3] * 256
      + 6 * 256 + bsize % 65536 / 256 + bsize % 65536 % 256 * 256
  }

  lemma PseudoWords(o: Order, src: seq<Byte>, dst: seq<Byte>, bsize: nat, data: seq<Byte>)
    requires |src| == |dst| == 4
    ensures PlaceSum(o, PseudoHeader(src, dst, bsize) + data) == PseudoSum(o, src, dst, bsize) + PlaceSum(o, data)
  {
    var p := PseudoHeader(src, dst, bsize);
    ByPlaceAppend(p, data, 256, 1);
    ByPlaceAppend(p, data, 1, 256);
    TwelvePlaces(p, 256, 1);
    TwelvePlaces(p, 1, 256);
  }

  lemma TwelvePlaces(p: seq<Byte>, even: nat, odd: nat)
    requires |p| == 12
    ensures ByPlace(p, even, odd)
      == p[0] * even + p[1] * odd + p[2] * even + p[3] * odd + p[4] * even + p[5] * odd
       + p[6] * even + p[7] * odd + p[8] * even + p[9] * odd + p[10] * even + p[11] * odd
  {
    TwoPlaces(p, 0, even, odd);
    TwoPlaces(p, 2, even, odd);
    TwoPlaces(p, 4, even, odd);
    TwoPlaces(p, 6, even, odd);
    TwoPlaces(p, 8, even, odd);
    TwoPlaces(p, 10, even, odd);
    assert p[0..] == p && p[12..] == [];
  }

  /** tcp_checksum; src and dst are the addresses as htonl leaves them. */
  method TcpChecksum(o: Order, src: seq<Byte>, dst: seq<Byte>, data: seq<Byte>) returns (r: Word)
    requires |src| == |dst| == 4
    ensures r == Sum16(o, PseudoHeader(src, dst, |data|) + data)
    ensures Completes(r, PseudoSum(o, src, dst, |data|) + PlaceSum(o, data))
  {
    hide PseudoHeader, PseudoSum, PlaceSum, WordSum, Completes;
    assert Norm(0) == 0xffff;
    SumCompletes(o, PseudoHeader(src, dst, |data|) + data);
    PseudoWords(o, src, dst, |data|, data);
    var acc := 0xffff;
    var pseudo_header := PseudoHeader(src, dst, |data|);
    acc := Accumulate(o, pseudo_header, acc, 0);
    acc := Accumulate(o, data, acc, WordSum(o, pseudo_header));
    WordSumAppend(o, pseudo_header, data);
    r := 0xffff - acc;
  }

  lemma {:induction false} ZeroPlaces(n: nat, even: nat, odd: nat)
    ensures ByPlace(seq(n, _ => 0), even, odd) == 0
  {
    if n > 0 {
      ZeroPlaces(n - 1, odd, even);
      assert seq(n, _ => 0)[1..] == seq(n - 1, _ => 0);
    }
  }

  /** Twenty zero bytes from 10.0.0.1 to 10.0.0.2 have the checksum EB E2 on the wire. */
  lemma KnownTcpSum(o: Order)
    ensures Store(o, Sum16(o, PseudoHeader([10, 0, 0, 1], [10, 0, 0, 2], 20) + seq(20, _ => 0))) == [0xEB, 0xE2]
  {
    hide PseudoHeader, WordSum, Sum16;
    var src, dst, zeros: seq<Byte> := [10, 0, 0, 1], [10, 0, 0, 2], seq(20, _ => 0);
    var all := PseudoHeader(src, dst, 20) + zeros;
    PseudoWords(BigEndian, src, dst, 20, zeros);
    SumCompletes(BigEndian, all);
    ZeroPlaces(20, 256, 1);
    assert Sum16(BigEndian, all) == 0xEBE2;
    OrderDoesNotMatter(all);
  }

  // ----- self-verification

  /** data with the bytes of w at offset p. */
  function Put(o: Order, data: seq<Byte>, p: nat, w: Word): (r: seq<Byte>)
    requires p + 1 < |data|
    ensures |r| == |data|
  {
    data[..p] + Store(o, w) + data[p + 2..]
  }

  lemma WordSumPut(o: Order, data: seq<Byte>, p: nat, w: Word)
    requires p % 2 == 0 && p + 1 < |data|
    ensures WordSum(o, Put(o, data, p, w)) == WordSum(o, data[..p]) + w + WordSum(o, data[p + 2..])
  {
    var s := Store(o, w);
    WordSumAppend(o, data[..p] + s, data[p + 2..]);
    WordSumAppend(o, data[..p], s);
    assert s == [s[0], s[1]];
    WordSumPair(o, s[0], s[1]);
  }

  /** With the checksum of the zeroed packet in its field, checking gives 0; any other word gives 0 only when
    it is the other representative of the same number modulo 65535. */
  lemma ChecksVerifies(o: Order, data: seq<Byte>, p: nat, w: Word)
    requires p % 2 == 0 && p + 1 < |data|
    ensures var c := Sum16(o, Put(o, data, p, 0));
      Sum16(o, Put(o, data, p, w)) == 0 <==> w == c || (c == 0 && w == 65535)
  {
    WordSumPut(o, data, p, 0);
    WordSumPut(o, data, p, w);
    var s := WordSum(o, Put(o, data, p, 0));
    var c := 65535 - Norm(s);
    NormUnique(s, Norm(s));
    NormUnique(s + w, 65535);
    Remainders(s, c, w);
  }

  lemma Remainders(s: nat, c: nat, w: Word)
    requires c <= 65534 && Same(s, 65535 - c)
    ensures Same(s + w, 65535) <==> w == c || (c == 0 && w == 65535)
  {
    assert (s + c) % 65535 == 0;
    if Same(s + w, 65535) {
      assert (w - c) % 65535 == 0;
    }
  }

  // ----- byte order

  /** The number with its two bytes exchanged is 256 times the number, modulo 65535. */
  function Swap(w: Word): Word {
    w % 256 * 256 + w / 256
  }

  lemma SwapLoad(b0: Byte, b1: Byte)
    ensures Load(BigEndian, b0, b1) == Swap(Load(LittleEndian, b0, b1))
    ensures Same(Load(BigEndian, b0, b1), 256 * Load(LittleEndian, b0, b1))
  {
    assert 256 * (b0 + 256 * b1) - (256 * b0 + b1) == 65535 * b1;
  }

  lemma SumsAgree(data: seq<Byte>)
    ensures Same(WordSum(BigEndian, data), 256 * WordSum(LittleEndian, data))
  {
    if |data| == 1 {
      SwapLoad(data[0], 0);
    } else if |data| > 1 {
      SwapLoad(data[0], data[1]);
      SumsAgree(data[2..]);
      SameSum(Load(BigEndian, data[0], data[1]), 256 * Load(LittleEndian, data[0], data[1]),
        WordSum(BigEndian, data[2..]), 256 * WordSum(LittleEndian, data[2..]));
    }
  }

  lemma SameSum(a: int, a': int, b: int, b': int)
    requires Same(a, a') && Same(b, b')
    ensures Same(a + b, a' + b')
  {
  }

  lemma SwapNorm(r: nat)
    requires 1 <= r <= 65535
    ensures 1 <= Swap(r) <= 65535 && Same(Swap(r), 256 * r) && Swap(65535 - r) == 65535 - Swap(r)
  {
    SwapLoad(r % 256, r / 256);
    assert (65535 - r) % 256 == 255 - r % 256 && (65535 - r) / 256 == 255 - r / 256;
  }

  lemma SameTimes(a: int, b: int)
    requires Same(a, b)
    ensures Same(256 * a, 256 * b)
  {
    var q := (a - b) / 65535;
    assert 256 * a - 256 * b == 65535 * (256 * q);
  }

  /** Hosts of either byte order store the same two bytes. */
  lemma OrderDoesNotMatter(data: seq<Byte>)
    ensures Store(LittleEndian, Sum16(LittleEndian, data)) == Store(BigEndian, Sum16(BigEndian, data))
  {
    hide Norm, Same, Swap, WordSum;
    var s, b := WordSum(LittleEndian, data), WordSum(BigEndian, data);
    var r := Norm(s);
    SumsAgree(data);
    NormUnique(s, r);
    SameTimes(s, r);
    SwapNorm(r);
    SameTrans(b, 256 * s, 256 * r);
    SameTrans(b, 256 * r, Swap(r));
    NormUnique(b, Swap(r));
    StoreSwapped(65535 - r);
  }

  /** Data checks to 0 on any host if and only if its bytes by their places in network order add up to 0. */
  lemma ChecksOnWire(o: Order, data: seq<Byte>)
    ensures Sum16(o, data) == 0 <==> ByPlace(data, 256, 1) % 65535 == 0
  {
    hide Sum16, ByPlace, Store;
    OrderDoesNotMatter(data);
    SumCompletes(BigEndian, data);
    StoreZero(LittleEndian, Sum16(LittleEndian, data));
    StoreZero(BigEndian, Sum16(BigEndian, data));
    ZeroCompletes(Sum16(BigEndian, data), ByPlace(data, 256, 1));
  }

  lemma StoreZero(o: Order, w: Word)
    ensures w == 0 <==> Store(o, w) == [0, 0]
  {
  }

  lemma ZeroCompletes(r: nat, sum: nat)
    requires Completes(r, sum)
    ensures r == 0 <==> sum % 65535 == 0
  {
    Remainder(sum, r);
  }

  lemma Remainder(s: nat, r: nat)
    requires r < 65535
    ensures (s + r) % 65535 == if s % 65535 + r < 65535 then s % 65535 + r else s % 65535 + r - 65535
  {
    var q := s / 65535;
    assert s + r == 65535 * q + (s % 65535 + r);
  }

  lemma StoreSwapped(w: Word)
    ensures Store(LittleEndian, w) == Store(BigEndian, Swap(w))
  {
  }
}
