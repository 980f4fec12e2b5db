/**
 Truncated packet numbers, src/packet.rs: section 17.1 and appendices A.2 and A.3 of RFC 9000.
 A sender keeps only the low bytes of a packet number; the receiver completes them from the
 largest number it has seen.
 */
module PacketNumbers {
  import opened Arithmetic
  import opened Codec
  import opened Options

  const PKT_NUM_LIMIT: nat := 0x4000_0000_0000_0000

  /** 64 less the number of leading zero bits of a 64-bit number. */
  function BitLength(n: nat): nat {
    if n == 0 then 0 else 1 + BitLength(n / 2)
  }

  function NumUnacked(pktNum: nat, largestAcked: Option<nat>): nat {
    match largestAcked
    case Some(acked) => if pktNum <= acked then 0 else pktNum - acked
    case None => if pktNum < U64_MAX then pktNum + 1 else U64_MAX
  }

  /** The number of bytes to send of a packet number. */
  function PacketNumLen(pktNum: nat, largestAcked: Option<nat>): nat {
    var minBits := BitLength(NumUnacked(pktNum, largestAcked)) + 1;
    (minBits + 7) / 8
  }

  lemma AtMost(n: nat, p: nat)
    requires p > 0
    ensures n % p <= n
  {
    assert n == p * (n / p) + n % p;
    assert n / p >= 0 && p * (n / p) >= 0;
  }

  function DecodePacketNum(largest: nat, truncated: nat, len: nat): nat
    requires 1 <= len <= 4
  {
    var expected := largest + 1;
    var window := Power256(len);
    var half := window / 2;
    AtMost(expected, window);
    var candidate := expected - expected % window + truncated;
    if candidate + half <= expected && candidate < PKT_NUM_LIMIT - window then candidate + window
    else if candidate > expected + half && candidate >= window then candidate - window
    else candidate
  }

  /** What is sent of a packet number: its low bytes. */
  function EncodePacketNum(pktNum: nat, len: nat): Bytes {
    BigEndian(pktNum % Power256(len), len)
  }

  // ----- Which numbers are completed correctly

  /** `pktNum` lies in the window around the number the receiver expects next. */
  predicate InWindow(pktNum: nat, largest: nat, len: nat) {
    var expected, half := largest + 1, Power256(len) / 2;
    expected < pktNum + half && pktNum <= expected + half
  }

  /** Too far ahead, but no smaller number has the same low bytes. */
  predicate PinnedLow(pktNum: nat, largest: nat, len: nat) {
    pktNum > largest + 1 + Power256(len) / 2 && pktNum < Power256(len)
  }

  /** Too far behind, but no larger packet number has the same low bytes. */
  predicate PinnedHigh(pktNum: nat, largest: nat, len: nat) {
    pktNum + Power256(len) / 2 <= largest + 1 < PKT_NUM_LIMIT && pktNum >= PKT_NUM_LIMIT - Power256(len)
  }

  /** The candidate differs from the packet number by a whole number of windows. */
  lemma CandidateIsCongruent(pktNum: nat, expected: nat, window: int) returns (shift: int)
    requires window > 0
    ensures expected % window <= expected
    ensures pktNum == expected - expected % window + pktNum % window + shift
    ensures shift == 0 || shift == window || shift == -window || shift >= 2 * window || shift <= -2 * window
  {
    var k := pktNum / window - expected / window;
    shift := k * window;
    assert pktNum == window * (pktNum / window) + pktNum % window;
    assert expected == window * (expected / window) + expected % window;
    assert expected / window >= 0 && window * (expected / window) >= 0;
    assert window * (pktNum / window) - window * (expected / window) == shift;
    WholeWindows(k, window);
  }

  lemma WholeWindows(k: int, window: int)
    requires window > 0
    ensures
      var shift := k * window;
      shift == 0 || shift == window || shift == -window || shift >= 2 * window || shift <= -2 * window
  {
    if k >= 2 {
      assert (k - 2) * window >= 0;
    } else if k <= -2 {
      assert (-2 - k) * window >= 0;
    } else {
      assert k == -1 || k == 0 || k == 1;
    }
  }

  /** The completion rule, with the window written as twice its half. */
  lemma CompletionRule(pktNum: nat, expected: nat, low: nat, truncated: nat, half: nat, shift: int)
    requires 0 < half <= PKT_NUM_LIMIT / 2 && low < 2 * half && truncated < 2 * half
    requires low <= expected <= PKT_NUM_LIMIT && pktNum < PKT_NUM_LIMIT
    requires expected < PKT_NUM_LIMIT ==> expected - low + 2 * half <= PKT_NUM_LIMIT
    requires expected == PKT_NUM_LIMIT ==> low == 0
    requires pktNum == expected - low + truncated + shift
    requires shift == 0 || shift == 2 * half || shift == -2 * half || shift >= 4 * half || shift <= -4 * half
    ensures
      var candidate := expected - low + truncated;
      (shift == if candidate + half <= expected && candidate < PKT_NUM_LIMIT - 2 * half then 2 * half
                else if candidate > expected + half && candidate >= 2 * half then -2 * half
                else 0)
      <==>
      (|| (expected < pktNum + half && pktNum <= expected + half)
       || (pktNum > expected + half && pktNum < 2 * half)
       || (pktNum + half <= expected < PKT_NUM_LIMIT && pktNum >= PKT_NUM_LIMIT - 2 * half))
  {
  }

  lemma EvenWindow(len: nat)
    requires 1 <= len <= 4
    ensures Power256(len) == 2 * (Power256(len) / 2)
    ensures 0 < Power256(len) / 2 <= 0x8000_0000
  {
    Powers();
  }

  /** The number space is a whole number of windows. */
  lemma WindowsTile(expected: nat, len: nat)
    requires 1 <= len <= 4 && expected <= PKT_NUM_LIMIT
    ensures
      var low := expected % Power256(len);
      && (expected < PKT_NUM_LIMIT ==> expected - low + Power256(len) <= PKT_NUM_LIMIT)
      && (expected == PKT_NUM_LIMIT ==> low == 0)
  {
    Powers();
    hide Power256;
    if len == 1 {
    } else if len == 2 {
    } else if len == 3 {
    } else {
    }
  }

  /**
   The receiver recovers a packet number from its low bytes if and only if the number lies in
   the window around what it expects, or a neighbour at the edge of the number space leaves
   no other choice.
   */
  lemma DecodeIff(pktNum: nat, largest: nat, len: nat)
    requires 1 <= len <= 4 && pktNum < PKT_NUM_LIMIT && largest < PKT_NUM_LIMIT
    ensures DecodePacketNum(largest, pktNum % Power256(len), len) == pktNum <==>
            InWindow(pktNum, largest, len) || PinnedLow(pktNum, largest, len) || PinnedHigh(pktNum, largest, len)
  {
    hide Power256;
    EvenWindow(len);
    var expected, window := largest + 1, Power256(len);
    var shift := CandidateIsCongruent(pktNum, expected, window);
    WindowsTile(expected, len);
    CompletionRule(pktNum, expected, expected % window, pktNum % window, window / 2, shift);
  }

  // ----- How many bytes are sent

  lemma {:induction false} BitLengthIff(n: nat, k: nat)
    ensures BitLength(n) <= k <==> n < Power2(k)
    decreases k
  {
    if n > 0 && k > 0 {
      BitLengthIff(n / 2, k - 1);
    }
  }

  lemma HalfWindows()
    ensures Power2(7) == Power256(1) / 2
    ensures Power2(15) == Power256(2) / 2
    ensures Power2(23) == Power256(3) / 2
    ensures Power2(31) == Power256(4) / 2
  {
    Powers();
    assert Power2(7) == 128;
    assert Power2(15) == 0x8000;
    assert Power2(23) == 0x80_0000;
    assert Power2(31) == 0x8000_0000;
  }

  /**
   The length chosen is the least one whose half window exceeds the number of packets not yet
   acknowledged; more than four bytes are asked for exactly from 2^31 such packets on.
   */
  lemma LengthIsLeast(pktNum: nat, largestAcked: Option<nat>, len: nat)
    requires 1 <= len <= 4
    ensures PacketNumLen(pktNum, largestAcked) <= len <==> NumUnacked(pktNum, largestAcked) < Power256(len) / 2
    ensures PacketNumLen(pktNum, largestAcked) >= 1
  {
    hide BitLength, Power2, Power256;
    var n := NumUnacked(pktNum, largestAcked);
    HalfWindows();
    BitLengthIff(n, 8 * len - 1);
  }

  /**
   In terms of the numbers: the gap to the largest acknowledged one, or to before the first one,
   is below half of what the bytes can tell apart.
   */
  lemma LengthForGap(pktNum: nat, largestAcked: Option<nat>)
    requires pktNum < 0x4000_0000_0000_0000 && (largestAcked.Some? ==> largestAcked.value < pktNum)
    ensures
      var gap := if largestAcked.Some? then pktNum - largestAcked.value else pktNum + 1;
      && (PacketNumLen(pktNum, largestAcked) == 1 <==> gap < 0x80)
      && (PacketNumLen(pktNum, largestAcked) == 2 <==> 0x80 <= gap < 0x8000)
      && (PacketNumLen(pktNum, largestAcked) == 3 <==> 0x8000 <= gap < 0x80_0000)
      && (PacketNumLen(pktNum, largestAcked) == 4 <==> 0x80_0000 <= gap < 0x8000_0000)
  {
    hide PacketNumLen, Power256;
    LengthIsLeast(pktNum, largestAcked, 1);
    LengthIsLeast(pktNum, largestAcked, 2);
    LengthIsLeast(pktNum, largestAcked, 3);
    LengthIsLeast(pktNum, largestAcked, 4);
    Powers();
  }

  /** A number that was acknowledged already takes one byte. */
  lemma OldNumberTakesOneByte(pktNum: nat, acked: nat)
    requires pktNum <= acked
    ensures PacketNumLen(pktNum, Some(acked)) == 1
  {
  }

  /** The examples of appendices A.2 and A.3 of RFC 9000. */
  lemma AppendixExamples()
    ensures PacketNumLen(0xac_5c02, Some(0xab_e8b3)) == 2
    ensures PacketNumLen(0xac_e8fe, Some(0xab_e8b3)) == 3
    ensures DecodePacketNum(0xa82f_30ea, 0x9b32, 2) == 0xa82f_9b32
  {
    hide PacketNumLen;
    LengthForGap(0xac_5c02, Some(0xab_e8b3));
    LengthForGap(0xac_e8fe, Some(0xab_e8b3));
    Powers();
  }

  /**
   From sender to receiver: with at most 2^31 - 1 packets unacknowledged and a receiver that
   has seen at least what it acknowledged and is not half a window ahead, the number the
   sender truncates is the number the receiver completes.
   */
  lemma PacketNumberRoundTrip(pktNum: nat, largestAcked: Option<nat>, largest: nat)
    requires pktNum < PKT_NUM_LIMIT && largest < PKT_NUM_LIMIT
    requires largestAcked.Some? ==> largestAcked.value < pktNum && largestAcked.value <= largest
    requires NumUnacked(pktNum, largestAcked) < 0x8000_0000
    requires largest + 1 < pktNum + Power256(PacketNumLen(pktNum, largestAcked)) / 2
    ensures
      var len := PacketNumLen(pktNum, largestAcked);
      && 1 <= len <= 4
      && DecodePacketNum(largest, FromBigEndian(EncodePacketNum(pktNum, len)), len) == pktNum
  {
    hide Power256, BigEndian, FromBigEndian, BitLength;
    LengthIsLeast(pktNum, largestAcked, 4);
    assert Power256(4) / 2 == 0x8000_0000 by {
      Powers();
    }
    var len := PacketNumLen(pktNum, largestAcked);
    LengthIsLeast(pktNum, largestAcked, len);
    BigEndianRoundTrip(pktNum % Power256(len), len);
    DecodeIff(pktNum, largest, len);
  }
}
