/**
 QUIC wire primitives, src/codec.rs: big-endian integers, variable-length integers
 (section 16 of RFC 9000) and length-prefixed byte strings.

 A reader takes the bytes that are left and gives back a value and the bytes that are left
 after it. A writer takes the bytes that follow and puts its own in front, so that the text
 of an encoder lists the fields in wire order.
 */
module Codec {
  type Byte = b: nat | b < 256

  type Bytes = seq<Byte>

  const VINT_MAX: nat := 0x3fff_ffff_ffff_ffff
  const MAX_CID_LEN: nat := 20
  const RESET_TOKEN_LEN: nat := 16

  datatype Error = BufferTooShort | FrameEncodingError | InvalidPacket | TransportParameterError

  /** What a reader gives back. */
  datatype Read<T> = Got(value: T, rest: Bytes) | Failed(error: Error) {
    predicate IsFailure() {
      Failed?
    }
    function PropagateFailure<U>(): Read<U>
      requires Failed?
    {
      Failed(error)
    }
    function Extract(): (T, Bytes)
      requires Got?
    {
      (value, rest)
    }
  }

  // ----- Fixed-width integers, most significant byte first

  function BigEndian(n: nat, len: nat): (bytes: Bytes)
    ensures |bytes| == len
  {
    if len == 0 then [] else BigEndian(n / 256, len - 1) + [n % 256]
  }

  function FromBigEndian(bytes: Bytes): nat {
    if bytes == [] then 0
    else FromBigEndian(bytes[..|bytes| - 1]) * 256 + bytes[|bytes| - 1]
  }

  function Power256(len: nat): (p: nat)
    ensures p >= 1
  {
    if len == 0 then 1 else 256 * Power256(len - 1)
  }

  /** A number that fits in `len` bytes is recovered from them. */
  lemma {:induction false} BigEndianRoundTrip(n: nat, len: nat)
    requires n < Power256(len)
    ensures FromBigEndian(BigEndian(n, len)) == n
    decreases len
  {
    if len > 0 {
      BigEndianRoundTrip(n / 256, len - 1);
      var bytes := BigEndian(n, len);
      assert bytes[..|bytes| - 1] == BigEndian(n / 256, len - 1);
    }
  }

  /** The top byte, which holds the length tag of a variable-length integer. */
  lemma {:induction false} TopByte(n: nat, len: nat)
    requires 0 < len && n < Power256(len)
    ensures BigEndian(n, len)[0] == n / Power256(len - 1)
    decreases len
  {
    if len > 1 {
      TopByte(n / 256, len - 1);
      DivideTwice(n, Power256(len - 2));
    }
  }

  lemma DivideTwice(n: nat, p: nat)
    requires p > 0
    ensures n / 256 / p == n / (256 * p)
  {
    var q, r := n / (256 * p), n % (256 * p);
    var product := p * q;
    assert 256 * p * q == 256 * product;
    assert n == 256 * product + r;
    assert n / 256 == product + r / 256 && r / 256 < p;
    QuotientOf(n / 256, p, q, r / 256);
  }

  lemma {:induction false} Monotone(p: nat, a: nat, b: nat)
    requires a < b
    ensures p * a + p <= p * b
    decreases b
  {
    assert p * b == p * (b - 1) + p;
    if a < b - 1 {
      Monotone(p, a, b - 1);
    }
  }

  lemma QuotientOf(n: nat, p: nat, q: nat, r: nat)
    requires p > 0 && n == p * q + r && r < p
    ensures n / p == q
  {
    var k := n / p;
    assert n == p * k + n % p;
    if k < q {
      Monotone(p, k, q);
    } else if q < k {
      Monotone(p, q, k);
    }
  }

  lemma {:induction false} FromBigEndianBound(bytes: Bytes)
    ensures FromBigEndian(bytes) < Power256(|bytes|)
    decreases |bytes|
  {
    if bytes != [] {
      FromBigEndianBound(bytes[..|bytes| - 1]);
    }
  }

  // ----- Variable-length integers

  function EncodeVarintLen(n: nat): nat
    requires n <= VINT_MAX
  {
    if n <= 63 then 1
    else if n <= 16383 then 2
    else if n <= 1_073_741_823 then 4
    else 8
  }

  function DecodeVarintLen(first: Byte): (len: nat)
    ensures len in {1, 2, 4, 8}
  {
    var tag := first / 64;
    if tag == 0 then 1 else if tag == 1 then 2 else if tag == 2 then 4 else 8
  }

  /** The bytes of `n` in a field of `len` bytes; a value that does not fit is truncated first. */
  function VarintField(n: nat, len: nat): (bytes: Bytes)
    requires len in {1, 2, 4, 8}
    ensures |bytes| == len
  {
    if len == 1 then
      [n % 0x100]
    else if len == 2 then
      var v := n % 0x1_0000;
      BigEndian(if v / 0x4000 % 2 == 0 then v + 0x4000 else v, 2)
    else if len == 4 then
      var v := n % 0x1_0000_0000;
      BigEndian(if v < 0x8000_0000 then v + 0x8000_0000 else v, 4)
    else
      BigEndian(n % 0x4000_0000_0000_0000 + 0xc000_0000_0000_0000, 8)
  }

  function PutVarint(n: nat, tail: Bytes): (bytes: Bytes)
    requires n <= VINT_MAX
    ensures |bytes| == EncodeVarintLen(n) + |tail|
  {
    VarintField(n, EncodeVarintLen(n)) + tail
  }

  function ReadVarint(b: Bytes): (r: Read<nat>)
    ensures r.Got? ==> r.value <= VINT_MAX && |r.rest| < |b|
  {
    if b == [] then Failed(BufferTooShort)
    else
      var len := DecodeVarintLen(b[0]);
      if |b| < len then Failed(BufferTooShort)
      else
        var v := FromBigEndian(b[..len]);
        FromBigEndianBound(b[..len]);
        assert len == 1 ==> b[..1][..0] == [];
        var value :=
          if len == 1 then v
          else if len == 2 then v % 0x4000
          else if len == 4 then v % 0x4000_0000
          else v % 0x4000_0000_0000_0000;
        assert Power256(1) == 256;
        Got(value, b[len..])
  }

  lemma Powers()
    ensures Power256(1) == 0x100
    ensures Power256(2) == 0x1_0000
    ensures Power256(3) == 0x100_0000
    ensures Power256(4) == 0x1_0000_0000
    ensures Power256(7) == 0x100_0000_0000_0000
    ensures Power256(8) == 0x1_0000_0000_0000_0000
  {
    assert Power256(1) == 256 * Power256(0);
    assert Power256(2) == 256 * Power256(1);
    assert Power256(3) == 256 * Power256(2);
    assert Power256(4) == 256 * Power256(3);
    assert Power256(5) == 256 * Power256(4);
    assert Power256(6) == 256 * Power256(5);
    assert Power256(7) == 256 * Power256(6);
  }

  /** A tagged field of `len` bytes, as a reader sees it. */
  lemma TaggedField(x: nat, len: nat, tail: Bytes)
    requires len in {2, 4, 8} && x < Power256(len)
    ensures BigEndian(x, len)[0] / 64 == x / Power256(len - 1) / 64
    ensures (BigEndian(x, len) + tail)[..len] == BigEndian(x, len)
    ensures (BigEndian(x, len) + tail)[len..] == tail
    ensures FromBigEndian(BigEndian(x, len)) == x
  {
    TopByte(x, len);
    BigEndianRoundTrip(x, len);
  }

  lemma OneByteRoundTrip(n: Byte, tail: Bytes)
    requires n <= 63
    ensures ReadVarint([n] + tail) == Got(n, tail)
  {
    var b := [n] + tail;
    assert b[..1] == [n] && b[1..] == tail;
    assert [n][..0] == [];
    assert FromBigEndian([n]) == FromBigEndian([]) * 256 + n;
  }

  lemma TwoByteRoundTrip(n: nat, tail: Bytes)
    requires n <= 16383
    ensures ReadVarint(VarintField(n, 2) + tail) == Got(n, tail)
  {
    Powers();
    TaggedBytes(n, 2);
    TaggedField(n + 0x4000, 2, tail);
    hide BigEndian, FromBigEndian;
    assert (n + 0x4000) / 0x100 / 64 == 1;
  }

  lemma FourByteRoundTrip(n: nat, tail: Bytes)
    requires n <= 1_073_741_823
    ensures ReadVarint(VarintField(n, 4) + tail) == Got(n, tail)
  {
    Powers();
    TaggedBytes(n, 4);
    TaggedField(n + 0x8000_0000, 4, tail);
    hide BigEndian, FromBigEndian;
    assert (n + 0x8000_0000) / 0x100_0000 / 64 == 2;
  }

  lemma EightByteRoundTrip(n: nat, tail: Bytes)
    requires n <= VINT_MAX
    ensures ReadVarint(VarintField(n, 8) + tail) == Got(n, tail)
  {
    Powers();
    TaggedBytes(n, 8);
    TaggedField(n + 0xc000_0000_0000_0000, 8, tail);
    hide BigEndian, FromBigEndian;
    assert (n + 0xc000_0000_0000_0000) / 0x100_0000_0000_0000 / 64 == 3;
    assert (n + 0xc000_0000_0000_0000) % 0x4000_0000_0000_0000 == n;
  }

  /** A value that does not fit a field of two bytes is never read back from it. */
  lemma ShortFieldLosesLargeValues(n: nat, tail: Bytes)
    requires n > 16383
    ensures ReadVarint(VarintField(n, 2) + tail) != Got(n, tail)
  {
    Powers();
    var v := n % 0x1_0000;
    var x := if v / 0x4000 % 2 == 0 then v + 0x4000 else v;
    TaggedField(x, 2, tail);
    var b := VarintField(n, 2) + tail;
    if x < 0x8000 {
      assert DecodeVarintLen(b[0]) == 2;
    } else {
      assert DecodeVarintLen(b[0]) == 8;
    }
  }

  /** Every value up to the maximum is read back, and only its own bytes are consumed. */
  lemma VarintRoundTrip(n: nat, tail: Bytes)
    requires n <= VINT_MAX
    ensures ReadVarint(PutVarint(n, tail)) == Got(n, tail)
  {
    if n <= 63 {
      OneByteRoundTrip(n, tail);
    } else if n <= 16383 {
      TwoByteRoundTrip(n, tail);
    } else if n <= 1_073_741_823 {
      FourByteRoundTrip(n, tail);
    } else {
      EightByteRoundTrip(n, tail);
    }
  }

  /** What fits in a field next to its tag. */
  lemma ValueFits(b: Bytes)
    requires ReadVarint(b).Got?
    ensures
      var len := DecodeVarintLen(b[0]);
      ReadVarint(b).value < if len == 1 then 0x40 else if len == 2 then 0x4000 else if len == 4 then 0x4000_0000
                            else 0x4000_0000_0000_0000
  {
    if DecodeVarintLen(b[0]) == 1 {
      assert b[..1] == [b[0]] && [b[0]][..0] == [];
      assert FromBigEndian([b[0]]) == FromBigEndian([]) * 256 + b[0];
    }
  }

  /** The length chosen is the shortest: no shorter field gives the value back. */
  lemma VarintShortest(n: nat, len: nat)
    requires n <= VINT_MAX && len in {1, 2, 4, 8}
    ensures ReadVarint(VarintField(n, len)) == Got(n, []) <==> EncodeVarintLen(n) <= len
  {
    hide VarintField, ReadVarint;
    var b := VarintField(n, len);
    assert b + [] == b;
    if ReadVarint(b) == Got(n, []) {
      ReadVarintMeans(b);
      ValueFits(b);
    } else if EncodeVarintLen(n) <= len {
      VarintRoundTripIn(n, len, []);
    }
  }

  lemma VarintRoundTripIn(n: nat, len: nat, tail: Bytes)
    requires n <= VINT_MAX && len in {1, 2, 4, 8} && EncodeVarintLen(n) <= len
    ensures ReadVarint(VarintField(n, len) + tail) == Got(n, tail)
  {
    if len == 1 {
      OneByteRoundTrip(n, tail);
    } else if len == 2 {
      TwoByteRoundTrip(n, tail);
    } else if len == 4 {
      FourByteRoundTrip(n, tail);
    } else {
      EightByteRoundTrip(n, tail);
    }
  }

  /** The bytes of a number are the only ones that stand for it. */
  lemma {:induction false} BigEndianInverse(bytes: Bytes)
    ensures BigEndian(FromBigEndian(bytes), |bytes|) == bytes
    decreases |bytes|
  {
    if bytes != [] {
      var rest, last := bytes[..|bytes| - 1], bytes[|bytes| - 1];
      BigEndianInverse(rest);
      assert FromBigEndian(bytes) / 256 == FromBigEndian(rest) && FromBigEndian(bytes) % 256 == last;
      assert bytes == rest + [last];
    }
  }

  /** The tag in the two top bits, and the value below it. */
  lemma TagAndValue(x: nat, unit: nat, tag: nat)
    requires unit > 0 && x / unit / 64 == tag
    ensures x % (64 * unit) == x - 64 * unit * tag
  {
    var top, low := x / unit, x % unit;
    var t := top % 64;
    assert top == 64 * tag + t;
    var rest := unit * t;
    assert unit * top == 64 * unit * tag + rest;
    assert rest <= unit * 63 by {
      if t < 63 {
        Monotone(unit, t, 63);
      }
    }
    QuotientOf(x, 64 * unit, tag, rest + low);
  }

  lemma FieldInverse(x: nat, len: nat)
    requires len in {2, 4, 8} && x < Power256(len)
    requires x / Power256(len - 1) / 64 == if len == 2 then 1 else if len == 4 then 2 else 3
    ensures VarintField(x % (64 * Power256(len - 1)), len) == BigEndian(x, len)
  {
    hide BigEndian;
    Powers();
    if len == 2 {
      TagAndValue(x, 0x100, 1);
      TaggedBytes(x - 0x4000, 2);
    } else if len == 4 {
      TagAndValue(x, 0x100_0000, 2);
      TaggedBytes(x - 0x8000_0000, 4);
    } else {
      TagAndValue(x, 0x100_0000_0000_0000, 3);
      TaggedBytes(x - 0xc000_0000_0000_0000, 8);
    }
  }

  /** A value that fits its field is tagged by addition. */
  lemma TaggedBytes(n: nat, len: nat)
    requires len in {2, 4, 8}
    requires n <= if len == 2 then 16383 else if len == 4 then 1_073_741_823 else VINT_MAX
    ensures
      VarintField(n, len) ==
      BigEndian(n + if len == 2 then 0x4000 else if len == 4 then 0x8000_0000 else 0xc000_0000_0000_0000, len)
  {
    hide BigEndian;
  }

  /**
   Which value is read: the one whose field of the announced length, followed by what is left,
   is the input. It fails if and only if the announced length is not there.
   */
  lemma ReadVarintMeans(b: Bytes)
    ensures ReadVarint(b).Got? <==> b != [] && DecodeVarintLen(b[0]) <= |b|
    ensures ReadVarint(b).Failed? ==> ReadVarint(b).error == BufferTooShort
    ensures
      ReadVarint(b).Got? ==>
        VarintField(ReadVarint(b).value, DecodeVarintLen(b[0])) + ReadVarint(b).rest == b
  {
    if ReadVarint(b).Got? {
      var len := DecodeVarintLen(b[0]);
      var bytes := b[..len];
      var x := FromBigEndian(bytes);
      FromBigEndianBound(bytes);
      BigEndianInverse(bytes);
      TopByte(x, len);
      hide BigEndian, FromBigEndian, VarintField, Power256;
      Powers();
      if len == 1 {
        OneByte(x);
      } else {
        FieldInverse(x, len);
      }
      assert b == bytes + b[len..];
    }
  }

  lemma OneByte(x: Byte)
    ensures BigEndian(x, 1) == [x] == VarintField(x, 1)
  {
    assert BigEndian(x, 1) == BigEndian(x / 256, 0) + [x % 256];
  }

  // ----- Byte strings

  function ReadU8(b: Bytes): Read<Byte> {
    if b == [] then Failed(BufferTooShort) else Got(b[0], b[1..])
  }

  function ReadBytes(b: Bytes, len: nat): (r: Read<Bytes>)
    ensures r.Got? <==> len <= |b|
    ensures r.Got? ==> r.value + r.rest == b && |r.value| == len
    ensures r.Failed? ==> r.error == BufferTooShort
  {
    if |b| < len then Failed(BufferTooShort) else Got(b[..len], b[len..])
  }

  function ReadWithVarintLength(b: Bytes): Read<Bytes> {
    var (len, b) :- ReadVarint(b);
    ReadBytes(b, len)
  }

  function ReadWithU8Length(b: Bytes): Read<Bytes> {
    var (len, b) :- ReadU8(b);
    ReadBytes(b, len)
  }

  function PutWithVarintLength(bytes: Bytes, tail: Bytes): Bytes
    requires |bytes| <= VINT_MAX
  {
    PutVarint(|bytes|, bytes + tail)
  }

  lemma BytesRoundTrip(bytes: Bytes, tail: Bytes)
    ensures ReadBytes(bytes + tail, |bytes|) == Got(bytes, tail)
  {
  }

  lemma WithVarintLengthRoundTrip(bytes: Bytes, tail: Bytes)
    requires |bytes| <= VINT_MAX
    ensures ReadWithVarintLength(PutWithVarintLength(bytes, tail)) == Got(bytes, tail)
  {
    VarintRoundTrip(|bytes|, bytes + tail);
    BytesRoundTrip(bytes, tail);
  }

  // ----- Connection ids

  /** A connection id holds at most 20 bytes; what goes beyond is cut off. */
  function ConnectionIdOf(bytes: Bytes): (cid: Bytes)
    ensures cid <= bytes && |cid| == if |bytes| < 20 then |bytes| else 20
    ensures |cid| <= MAX_CID_LEN
    ensures |bytes| <= MAX_CID_LEN ==> cid == bytes
  {
    if |bytes| <= MAX_CID_LEN then bytes else bytes[..MAX_CID_LEN]
  }
}
