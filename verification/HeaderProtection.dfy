/**
 Header protection, src/packet.rs and section 5.4 of RFC 9001: the first byte and the packet
 number of a packet are masked with bits derived from a sample of its payload. The cipher
 that derives them is an arbitrary function here.
 */
module HeaderProtection {
  import opened Arithmetic
  import opened Codec
  import opened Options
  import opened PacketNumbers

  const MAX_PKT_NUM_LEN: nat := 4
  const SAMPLE_LEN: nat := 16

  /** The mask: one byte for the first byte, four for the packet number. */
  type Mask = m: Bytes | |m| == 5 witness [0, 0, 0, 0, 0]

  // ----- Exclusive or

  function Xor(a: nat, b: nat): nat {
    if a == 0 then b
    else if b == 0 then a
    else (a + b) % 2 + 2 * Xor(a / 2, b / 2)
  }

  lemma {:induction false} XorZero(a: nat)
    ensures Xor(a, 0) == a && Xor(0, a) == a
  {
  }

  lemma XorStep(a: nat, b: nat)
    ensures Xor(a, b) == (a + b) % 2 + 2 * Xor(a / 2, b / 2)
  {
  }

  lemma LowBit(a: nat, b: nat, x: nat, y: nat)
    requires x == (a + b) % 2 + 2 * y
    ensures x / 2 == y && (x + b) % 2 == a % 2
  {
  }

  /** Masking twice with the same mask changes nothing. */
  lemma {:induction false} XorCancels(a: nat, b: nat)
    ensures Xor(Xor(a, b), b) == a
    decreases a + b
  {
    hide Xor;
    if a == 0 && b == 0 {
      XorZero(0);
    } else {
      XorStep(a, b);
      XorStep(Xor(a, b), b);
      XorCancels(a / 2, b / 2);
      LowBit(a, b, Xor(a, b), Xor(a / 2, b / 2));
    }
  }

  /** A mask below 2^k leaves the bits from k on alone, and results stay in range. */
  lemma {:induction false} XorKeepsHighBits(a: nat, b: nat, k: nat)
    requires b < Power2(k)
    ensures Xor(a, b) / Power2(k) == a / Power2(k)
    decreases k
  {
    if k == 0 {
      XorZero(a);
    } else {
      XorStep(a, b);
      XorKeepsHighBits(a / 2, b / 2, k - 1);
      HalveTwice(a, Power2(k - 1));
      HalveTwice(Xor(a, b), Power2(k - 1));
      assert Xor(a, b) / 2 == Xor(a / 2, b / 2);
    }
  }

  lemma HalveTwice(n: nat, p: nat)
    requires p > 0
    ensures n / 2 / p == n / (2 * p)
  {
    var q, r := n / (2 * p), n % (2 * p);
    var product := p * q;
    assert 2 * p * q == 2 * product;
    assert n == 2 * product + r;
    assert n / 2 == product + r / 2 && r / 2 < p;
    QuotientOf(n / 2, p, q, r / 2);
  }

  /** Bit `k` of the result is set if and only if exactly one of the two bits is. */
  lemma {:induction false} XorBit(a: nat, b: nat, k: nat)
    ensures Xor(a, b) / Power2(k) % 2 == (a / Power2(k) + b / Power2(k)) % 2
    decreases k
  {
    hide Xor;
    XorStep(a, b);
    if k > 0 {
      XorBit(a / 2, b / 2, k - 1);
      HalveTwice(a, Power2(k - 1));
      HalveTwice(b, Power2(k - 1));
      HalveTwice(Xor(a, b), Power2(k - 1));
      assert Xor(a, b) / 2 == Xor(a / 2, b / 2);
    }
  }

  lemma {:induction false} XorCommutes(a: nat, b: nat)
    ensures Xor(a, b) == Xor(b, a)
    decreases a + b
  {
    if a > 0 && b > 0 {
      XorCommutes(a / 2, b / 2);
    }
  }

  /** The difference of two numbers with the same high bits has no high bits. */
  lemma {:induction false} XorSameHigh(a: nat, b: nat, k: nat)
    requires a / Power2(k) == b / Power2(k)
    ensures Xor(a, b) < Power2(k)
    decreases k
  {
    hide Xor;
    if k == 0 {
      XorZero(a);
      XorCancels(0, a);
    } else {
      XorStep(a, b);
      HalveTwice(a, Power2(k - 1));
      HalveTwice(b, Power2(k - 1));
      XorSameHigh(a / 2, b / 2, k - 1);
    }
  }

  lemma XorByte(a: Byte, b: Byte)
    ensures Xor(a, b) < 256
  {
    assert Power2(8) == 256;
    XorKeepsHighBits(a, b, 8);
  }

  function MaskByte(a: Byte, b: Byte): Byte {
    XorByte(a, b);
    Xor(a, b)
  }

  // ----- Masking a packet

  predicate LongHeader(first: Byte) {
    first >= 0x80
  }

  /** Four bits of the first byte are masked in a long header, five in a short one. */
  function MaskFirst(first: Byte, m: Byte): Byte {
    MaskByte(first, if LongHeader(first) then m % 0x10 else m % 0x20)
  }

  /** The bytes at `offset` masked with the bytes of the mask after its first. */
  function MaskNumber(buf: Bytes, offset: nat, len: nat, mask: Mask): (r: Bytes)
    requires len <= MAX_PKT_NUM_LEN && offset + len <= |buf|
    ensures |r| == |buf|
  {
    seq(|buf|, i requires 0 <= i < |buf| => if offset <= i < offset + len then MaskByte(buf[i], mask[i - offset + 1]) else buf[i])
  }

  /** Masking the same bytes twice with the same mask restores the buffer. */
  lemma MaskNumberCancels(buf: Bytes, offset: nat, len: nat, mask: Mask)
    requires len <= MAX_PKT_NUM_LEN && offset + len <= |buf|
    ensures MaskNumber(MaskNumber(buf, offset, len, mask), offset, len, mask) == buf
  {
    hide Xor;
    var masked := MaskNumber(buf, offset, len, mask);
    forall i | 0 <= i < |buf|
      ensures MaskNumber(masked, offset, len, mask)[i] == buf[i]
    {
      if offset <= i < offset + len {
        XorCancels(buf[i], mask[i - offset + 1]);
      }
    }
  }

  /** The bits that select the masking rule are not masked themselves. */
  lemma MaskFirstCancels(first: Byte, m: Byte)
    ensures LongHeader(MaskFirst(first, m)) == LongHeader(first)
    ensures MaskFirst(MaskFirst(first, m), m) == first
  {
    hide Xor;
    assert Power2(4) == 0x10 && Power2(5) == 0x20;
    XorKeepsHighBits(first, m % 0x10, 4);
    XorKeepsHighBits(first, m % 0x20, 5);
    XorCancels(first, m % 0x10);
    XorCancels(first, m % 0x20);
  }

  /**
   What the mask hides: a first byte can come out as any byte that agrees with it on the four
   high bits of a long header or the three of a short one, and as no other.
   */
  lemma MaskHides(first: Byte, target: Byte)
    ensures
      (exists m: Byte :: MaskFirst(first, m) == target) <==>
      if first >= 0x80 then target / 0x10 == first / 0x10 else target / 0x20 == first / 0x20
  {
    hide Xor;
    assert Power2(4) == 0x10 && Power2(5) == 0x20;
    forall m: Byte
      ensures MaskFirst(first, m) / 0x20 == first / 0x20
      ensures first >= 0x80 ==> MaskFirst(first, m) / 0x10 == first / 0x10
    {
      XorKeepsHighBits(first, m % 0x10, 4);
      XorKeepsHighBits(first, m % 0x20, 5);
      assert MaskFirst(first, m) / 0x20 == MaskFirst(first, m) / 0x10 / 2;
    }
    var k := if first >= 0x80 then 4 else 5;
    if target / Power2(k) == first / Power2(k) {
      XorSameHigh(target, first, k);
      XorCancels(target, first);
      XorCommutes(Xor(target, first), first);
      var m := Xor(target, first);
      assert MaskFirst(first, m) == target;
    }
  }

  /** The masking input: the 16 bytes that start four bytes after the packet number. */
  function Sample(buf: Bytes, pktNumOffset: nat): Bytes
    requires pktNumOffset + MAX_PKT_NUM_LEN + SAMPLE_LEN <= |buf|
  {
    buf[pktNumOffset + MAX_PKT_NUM_LEN..pktNumOffset + MAX_PKT_NUM_LEN + SAMPLE_LEN]
  }

  /** A packet with its header protected. */
  function Protect(buf: Bytes, pktNumOffset: nat, len: nat, newMask: Bytes -> Mask): Bytes
    requires 1 <= len <= MAX_PKT_NUM_LEN && 1 <= pktNumOffset
    requires pktNumOffset + MAX_PKT_NUM_LEN + SAMPLE_LEN <= |buf|
  {
    var mask := newMask(Sample(buf, pktNumOffset));
    MaskNumber(buf, pktNumOffset, len, mask)[0 := MaskFirst(buf[0], mask[0])]
  }

  /**
   What protection does to each byte: the cipher is given the 16 bytes that start four bytes
   after the packet number; the number takes the mask from its second byte on.
   */
  lemma ProtectedBytes(buf: Bytes, offset: nat, len: nat, newMask: Bytes -> Mask, i: nat)
    requires 1 <= len <= 4 && 1 <= offset && offset + 20 <= |buf| && i < |buf|
    ensures
      var mask, sent := newMask(buf[offset + 4..offset + 20]), Protect(buf, offset, len, newMask);
      && |sent| == |buf|
      && sent[i] ==
         if i == 0 then MaskFirst(buf[0], mask[0])
         else if offset <= i < offset + len then Xor(buf[i], mask[1 + i - offset])
         else buf[i]
  {
    hide Xor;
  }

  /** One bit more. */
  lemma XorTo(a: nat, b: nat, c: nat)
    requires c % 2 == (a + b) % 2 && Xor(a / 2, b / 2) == c / 2
    ensures Xor(a, b) == c
  {
    hide Xor;
    XorStep(a, b);
  }

  lemma XorValues()
    ensures Xor(0xc3, 0x03) == 0xc0 && Xor(0x02, 0x36) == 0x34
    ensures Xor(0x42, 0x0e) == 0x4c && Xor(0xbf, 0xfe) == 0x41 && Xor(0xf4, 0x7d) == 0x89
  {
    hide Xor;
    XorZero(0x30);
    XorTo(0x61, 0x01, 0x60);
    XorTo(0xc3, 0x03, 0xc0);
    XorZero(0x0d);
    XorTo(0x01, 0x1b, 0x1a);
    XorTo(0x02, 0x36, 0x34);
    XorZero(0x04);
    XorTo(0x08, 0x01, 0x09);
    XorTo(0x10, 0x03, 0x13);
    XorTo(0x21, 0x07, 0x26);
    XorTo(0x42, 0x0e, 0x4c);
    XorZero(0x00);
    XorTo(0x01, 0x01, 0x00);
    XorTo(0x02, 0x03, 0x01);
    XorTo(0x05, 0x07, 0x02);
    XorTo(0x0b, 0x0f, 0x04);
    XorTo(0x17, 0x1f, 0x08);
    XorTo(0x2f, 0x3f, 0x10);
    XorTo(0x5f, 0x7f, 0x20);
    XorTo(0xbf, 0xfe, 0x41);
    XorZero(0x01);
    XorTo(0x03, 0x01, 0x02);
    XorTo(0x07, 0x03, 0x04);
    XorTo(0x0f, 0x07, 0x08);
    XorTo(0x1e, 0x0f, 0x11);
    XorTo(0x3d, 0x1f, 0x22);
    XorTo(0x7a, 0x3e, 0x44);
    XorTo(0xf4, 0x7d, 0x89);
  }

  /** The client Initial of appendix A.2 of RFC 9001: a long header with a four-byte packet number. */
  lemma InitialVector(buf: Bytes, newMask: Bytes -> Mask, i: nat)
    requires |buf| >= 38 && buf[0] == 0xc3 && buf[18] == buf[19] == buf[20] == 0 && buf[21] == 2 && i < |buf|
    requires newMask(buf[22..38]) == [0x43, 0x7b, 0x9a, 0xec, 0x36]
    ensures
      var sent := Protect(buf, 18, 4, newMask);
      && |sent| == |buf|
      && sent[i] == if i == 0 then 0xc0 else if 18 <= i < 22 then [0x7b, 0x9a, 0xec, 0x34][i - 18] else buf[i]
  {
    hide Xor, Protect;
    XorValues();
    XorZero(0x7b);
    XorZero(0x9a);
    XorZero(0xec);
    ProtectedBytes(buf, 18, 4, newMask, i);
  }

  /** The short header of appendix A.5 of RFC 9001, with a three-byte packet number. */
  lemma ShortVector(buf: Bytes, newMask: Bytes -> Mask, i: nat)
    requires |buf| >= 21 && buf[0] == 0x42 && buf[1] == 0x00 && buf[2] == 0xbf && buf[3] == 0xf4 && i < |buf|
    requires newMask(buf[5..21]) == [0xae, 0xfe, 0xfe, 0x7d, 0x03]
    ensures
      var sent := Protect(buf, 1, 3, newMask);
      && |sent| == |buf|
      && sent[i] == if i < 4 then [0x4c, 0xfe, 0x41, 0x89][i] else buf[i]
  {
    hide Xor, Protect;
    XorValues();
    XorZero(0xfe);
    ProtectedBytes(buf, 1, 3, newMask, i);
  }

  /** What the receiver learns: the unmasked packet and the fields of its header. */
  datatype Opened = Opened(buf: Bytes, len: nat, pktNum: nat, keyPhase: bool)

  function Unprotect(buf: Bytes, pktNumOffset: nat, newMask: Bytes -> Mask): Opened
    requires 1 <= pktNumOffset && pktNumOffset + MAX_PKT_NUM_LEN + SAMPLE_LEN <= |buf|
  {
    var mask := newMask(Sample(buf, pktNumOffset));
    var first := MaskFirst(buf[0], mask[0]);
    var len := first % 4 + 1;
    var plain := MaskNumber(buf, pktNumOffset, len, mask)[0 := first];
    Opened(plain, len, FromBigEndian(plain[pktNumOffset..pktNumOffset + len]), first / 4 % 2 == 1)
  }

  /**
   For every cipher and every packet whose first byte tells the length of its packet number,
   removing the protection restores every byte and yields the length, the packet number field
   and the key phase bit.
   */
  lemma ProtectionRoundTrip(buf: Bytes, pktNumOffset: nat, len: nat, newMask: Bytes -> Mask)
    requires 1 <= pktNumOffset && pktNumOffset + MAX_PKT_NUM_LEN + SAMPLE_LEN <= |buf|
    requires len == buf[0] % 4 + 1
    ensures
      Unprotect(Protect(buf, pktNumOffset, len, newMask), pktNumOffset, newMask) ==
      Opened(buf, len, FromBigEndian(buf[pktNumOffset..pktNumOffset + len]), buf[0] / 4 % 2 == 1)
  {
    hide MaskByte, FromBigEndian, MaskFirst;
    var mask := newMask(Sample(buf, pktNumOffset));
    var sent := Protect(buf, pktNumOffset, len, newMask);
    assert Sample(sent, pktNumOffset) == Sample(buf, pktNumOffset);
    MaskFirstCancels(buf[0], mask[0]);
    MaskNumberCancels(buf, pktNumOffset, len, mask);
    assert MaskNumber(sent, pktNumOffset, len, mask)[0 := buf[0]] ==
           MaskNumber(MaskNumber(buf, pktNumOffset, len, mask), pktNumOffset, len, mask)[0 := buf[0]];
  }

  /**
   The whole path of a packet number: the sender chooses its length, truncates it and
   protects the header; the receiver removes the protection and completes the number.
   */
  lemma PacketNumberDelivered(
    buf: Bytes, pktNumOffset: nat, newMask: Bytes -> Mask, pktNum: nat, largestAcked: Option<nat>, largest: nat)
    requires 1 <= pktNumOffset && pktNumOffset + MAX_PKT_NUM_LEN + SAMPLE_LEN <= |buf|
    requires pktNum < PKT_NUM_LIMIT && largest < PKT_NUM_LIMIT
    requires largestAcked.Some? ==> largestAcked.value < pktNum && largestAcked.value <= largest
    requires NumUnacked(pktNum, largestAcked) < 0x8000_0000
    requires largest + 1 < pktNum + Power256(PacketNumLen(pktNum, largestAcked)) / 2
    requires buf[0] % 4 + 1 == PacketNumLen(pktNum, largestAcked)
    requires
      var len := PacketNumLen(pktNum, largestAcked);
      buf[pktNumOffset..pktNumOffset + len] == EncodePacketNum(pktNum, len)
    ensures
      var result := Unprotect(Protect(buf, pktNumOffset, buf[0] % 4 + 1, newMask), pktNumOffset, newMask);
      && result.buf == buf
      && DecodePacketNum(largest, result.pktNum, result.len) == pktNum
  {
    hide Protect, Unprotect, DecodePacketNum, EncodePacketNum, PacketNumLen, Power256, NumUnacked;
    ProtectionRoundTrip(buf, pktNumOffset, buf[0] % 4 + 1, newMask);
    PacketNumberRoundTrip(pktNum, largestAcked, largest);
  }

  // ----- In place

  /** The loop over the bytes of the packet number. */
  method MaskInPlace(buf: array<Byte>, offset: nat, len: nat, mask: Mask)
    requires len <= MAX_PKT_NUM_LEN && offset + len <= buf.Length
    modifies buf
    ensures buf[..] == MaskNumber(old(buf[..]), offset, len, mask)
  {
    hide MaskByte;
    for i := 0 to len
      invariant forall k :: offset <= k < offset + i ==> buf[k] == MaskByte(old(buf[k]), mask[k - offset + 1])
      invariant forall k :: 0 <= k < buf.Length && !(offset <= k < offset + i) ==> buf[k] == old(buf[k])
    {
      buf[offset + i] := MaskByte(buf[offset + i], mask[i + 1]);
    }
  }

  /** The first byte is not part of the packet number. */
  lemma MaskFirstApart(buf: Bytes, first: Byte, offset: nat, len: nat, mask: Mask)
    requires len <= MAX_PKT_NUM_LEN && 1 <= offset && offset + len <= |buf|
    ensures MaskNumber(buf[0 := first], offset, len, mask) == MaskNumber(buf, offset, len, mask)[0 := first]
  {
  }

  /** Protect the header of a packet whose packet number ends where the payload starts. */
  method EncryptHeader(buf: array<Byte>, payloadOffset: nat, len: nat, newMask: Bytes -> Mask)
    requires 1 <= len <= MAX_PKT_NUM_LEN && len < payloadOffset
    requires payloadOffset - len + MAX_PKT_NUM_LEN + SAMPLE_LEN <= buf.Length
    modifies buf
    ensures buf[..] == Protect(old(buf[..]), payloadOffset - len, len, newMask)
  {
    hide MaskNumber, MaskFirst;
    ghost var before := buf[..];
    var offset, sampleStart := payloadOffset - len, payloadOffset + (MAX_PKT_NUM_LEN - len);
    var mask := newMask(buf[sampleStart..sampleStart + SAMPLE_LEN]);
    assert buf[sampleStart..sampleStart + SAMPLE_LEN] == Sample(before, offset);
    buf[0] := MaskFirst(buf[0], mask[0]);
    assert buf[..] == before[0 := MaskFirst(before[0], mask[0])];
    MaskFirstApart(before, MaskFirst(before[0], mask[0]), offset, len, mask);
    MaskInPlace(buf, offset, len, mask);
  }

  /** The header fields read from an unmasked packet. */
  datatype Fields = Fields(len: nat, pktNum: nat, keyPhase: bool)

  /**
   Remove the protection of a packet and read its header. Only a 1-RTT packet updates the key
   phase; in plaintext mode there is no protection to remove. It fails exactly when the buffer
   is too short.
   */
  method DecryptHeader(
    buf: array<Byte>, pktNumOffset: nat, oneRtt: bool, keyPhase: bool, newMask: Bytes -> Mask, plaintextMode: bool)
    returns (r: Option<Fields>)
    requires 1 <= pktNumOffset
    modifies buf
    ensures r == None <==>
            buf.Length < pktNumOffset + MAX_PKT_NUM_LEN + if plaintextMode then 0 else SAMPLE_LEN
    ensures r == None || plaintextMode ==> buf[..] == old(buf[..])
    ensures r.Some? && plaintextMode ==>
      var len := buf[0] % 4 + 1;
      r.value == Fields(len, FromBigEndian(buf[pktNumOffset..pktNumOffset + len]),
                        if oneRtt then buf[0] / 4 % 2 == 1 else keyPhase)
    ensures r.Some? && !plaintextMode ==>
      var result := Unprotect(old(buf[..]), pktNumOffset, newMask);
      && buf[..] == result.buf
      && r.value == Fields(result.len, result.pktNum, if oneRtt then result.keyPhase else keyPhase)
  {
    hide MaskNumber, MaskFirst, FromBigEndian;
    var least := pktNumOffset + MAX_PKT_NUM_LEN + if plaintextMode then 0 else SAMPLE_LEN;
    if buf.Length < least {
      return None;
    }
    ghost var before := buf[..];
    var first := buf[0];
    var len := first % 4 + 1;
    if !plaintextMode {
      var sampleStart := pktNumOffset + MAX_PKT_NUM_LEN;
      var mask := newMask(buf[sampleStart..sampleStart + SAMPLE_LEN]);
      assert buf[sampleStart..sampleStart + SAMPLE_LEN] == Sample(before, pktNumOffset);
      first := MaskFirst(first, mask[0]);
      len := first % 4 + 1;
      MaskInPlace(buf, pktNumOffset, len, mask);
    }
    ghost var unmasked := buf[..];
    var number := buf[pktNumOffset..pktNumOffset + len];
    buf[0] := first;
    assert buf[..] == unmasked[0 := first];
    assert buf[..][pktNumOffset..pktNumOffset + len] == number;
    assert buf[pktNumOffset..pktNumOffset + len] == number;
    r := Some(Fields(len, FromBigEndian(number), if oneRtt then first / 4 % 2 == 1 else keyPhase));
  }
}
