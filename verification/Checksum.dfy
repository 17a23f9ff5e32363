/** The internet checksum (section 1 of RFC 1071): ones'-complement addition as the reference,
    and the 32-bit accumulator with two folds that the client uses. */
module Checksum {
  import opened Bytes

  /** The big-endian 16-bit words of a buffer; an odd last byte is padded with zero. */
  function FirstWord(bs: seq<byte>): nat
    requires bs != []
  {
    if |bs| == 1 then 0x100 * (bs[0] as int) else 0x100 * (bs[0] as int) + bs[1]
  }

  function AfterFirstWord(bs: seq<byte>): (r: seq<byte>)
    requires bs != []
    ensures |r| < |bs|
  {
    bs[Min(2, |bs|)..]
  }

  /** Ones'-complement addition: a carry out of 16 bits comes back in at the bottom. */
  function OnesAdd(a: nat, b: nat): nat {
    if a + b > 0xFFFF then a + b - 0xFFFF else a + b
  }

  function OnesSum(bs: seq<byte>): (r: nat)
    ensures r <= 0xFFFF
  {
    if bs == [] then 0 else OnesAdd(FirstWord(bs), OnesSum(AfterFirstWord(bs)))
  }

  /** RFC 1071: the complement of the ones'-complement sum. */
  function InternetChecksum(bs: seq<byte>): (r: nat)
    ensures r <= 0xFFFF
  {
    0xFFFF - OnesSum(bs)
  }

  /** A buffer that contains its checksum verifies if its words add up to all ones. */
  predicate Verifies(bs: seq<byte>) {
    OnesSum(bs) == 0xFFFF
  }

  /** The example of section 3 of RFC 1071: the words 0001, f203, f4f5 and f6f7 sum to ddf2. */
  lemma ExampleOfRfc1071()
    ensures OnesSum([0x00, 0x01, 0xf2, 0x03, 0xf4, 0xf5, 0xf6, 0xf7]) == 0xddf2
    ensures InternetChecksum([0x00, 0x01, 0xf2, 0x03, 0xf4, 0xf5, 0xf6, 0xf7]) == 0x220d
  {
    var a: seq<byte> := [0x00, 0x01, 0xf2, 0x03, 0xf4, 0xf5, 0xf6, 0xf7];
    var b: seq<byte> := [0xf2, 0x03, 0xf4, 0xf5, 0xf6, 0xf7];
    assert a[2..] == b && b[2..] == [0xf4, 0xf5, 0xf6, 0xf7] && b[2..][2..] == [0xf6, 0xf7];
    assert b[2..][2..][2..] == [];
    assert OnesSum(b[2..][2..]) == 0xf6f7;
    assert OnesSum(b[2..]) == 0xebed;
  }

  /** An odd last byte counts as if a zero byte followed (section 1 of RFC 1071). */
  lemma {:induction false} OddLastByte(bs: seq<byte>)
    requires |bs| % 2 == 1
    ensures OnesSum(bs) == OnesSum(bs + [0])
    decreases |bs|
  {
    if |bs| == 1 {
      assert AfterFirstWord(bs) == [] && AfterFirstWord(bs + [0]) == [];
    } else {
      OddLastByte(bs[2..]);
      assert AfterFirstWord(bs + [0]) == AfterFirstWord(bs) + [0];
    }
  }

  /** The plain sum of the words. */
  function WordSum(bs: seq<byte>): nat {
    if bs == [] then 0 else FirstWord(bs) + WordSum(AfterFirstWord(bs))
  }

  /** The representative of `n` modulo 0xFFFF that ones'-complement addition produces: 0 only
      for 0 itself, otherwise 1 to 0xFFFF. */
  function Normal(n: nat): nat {
    if n == 0 then 0 else 1 + (n - 1) % 0xFFFF
  }

  lemma OnesAddIsNormal(a: nat, n: nat)
    requires a <= 0xFFFF
    ensures OnesAdd(a, Normal(n)) == Normal(a + n)
  {
    if n > 0 && a > 0 {
      var q, r := (n - 1) / 0xFFFF, (n - 1) % 0xFFFF;
      assert a + n - 1 == q * 0xFFFF + (a + r);
    }
  }

  lemma {:induction false} OnesSumIsNormal(bs: seq<byte>)
    ensures OnesSum(bs) == Normal(WordSum(bs))
    decreases |bs|
  {
    hide Normal, OnesAdd, AfterFirstWord;
    if bs == [] {
      NormalOfZero();
    } else {
      OnesSumIsNormal(AfterFirstWord(bs));
      OnesAddIsNormal(FirstWord(bs), WordSum(AfterFirstWord(bs)));
    }
  }

  lemma NormalOfZero()
    ensures Normal(0) == 0
  {
  }

  lemma {:induction false} WordSumBound(bs: seq<byte>)
    ensures WordSum(bs) <= (|bs| + 1) / 2 * 0xFFFF
  {
    if |bs| > 1 {
      WordSumBound(bs[2..]);
      assert (|bs| + 1) / 2 == (|bs| - 1) / 2 + 1;
    }
  }

  // ---- The client's arithmetic on signed 32-bit integers ----

  /** Overflow of a 32-bit signed addition. */
  function Wrap32(n: int): int32 {
    (n + 0x8000_0000) % 0x1_0000_0000 - 0x8000_0000
  }

  /** `sum = (sum shr 16) + (sum and 0xFFFF); sum += (sum shr 16); sum.inv() and 0xFFFF` */
  function FoldTwice(sum: int): nat {
    var once := sum / 0x1_0000 + sum % 0x1_0000;
    var twice := once + once / 0x1_0000;
    (-1 - twice) % 0x1_0000
  }

  /** Two folds are enough for every sum that fits a signed 32-bit integer. */
  lemma TwoFoldsSuffice(sum: nat)
    requires sum < 0x8000_0000
    ensures FoldTwice(sum) == 0xFFFF - Normal(sum)
  {
    var hi, lo := sum / 0x1_0000, sum % 0x1_0000;
    assert sum == hi * 0xFFFF + (hi + lo);
    if hi + lo >= 0x1_0000 {
      assert Normal(sum) == hi + lo - 0xFFFF;
    } else if hi + lo > 0 {
      assert Normal(sum) == hi + lo;
    }
  }

  lemma WrapAdds(a: int, b: int)
    ensures Wrap32(Wrap32(a) + b) == Wrap32(a + b)
  {
  }

  lemma WordSumStep(bs: seq<byte>)
    requires bs != []
    ensures WordSum(bs) == FirstWord(bs) + WordSum(AfterFirstWord(bs))
  {
    hide FirstWord, AfterFirstWord;
  }

  lemma WrapMoves(sum: int, word: int, others: int, total: int)
    requires total == word + others
    ensures Wrap32(Wrap32(sum + word) + others) == Wrap32(sum + total)
  {
    hide Wrap32;
    WrapAdds(sum + word, others);
    assert sum + word + others == sum + total;
  }

  /** One pass of the loop moves the first word into the accumulator. */
  lemma AccumulateWord(sum: int, rest: seq<byte>)
    requires rest != []
    ensures Wrap32(Wrap32(sum + FirstWord(rest)) + WordSum(AfterFirstWord(rest))) == Wrap32(sum + WordSum(rest))
  {
    hide *;
    WordSumStep(rest);
    WrapMoves(sum, FirstWord(rest), WordSum(AfterFirstWord(rest)), WordSum(rest));
  }

  lemma SumOfUpTo64K(bs: seq<byte>)
    requires |bs| <= 0x1_0000
    ensures Wrap32(WordSum(bs)) == WordSum(bs) < 0x8000_0000
    ensures FoldTwice(Wrap32(WordSum(bs))) == InternetChecksum(bs)
  {
    hide WordSum, OnesSum, FoldTwice;
    WordSumBound(bs);
    OnesSumIsNormal(bs);
    TwoFoldsSuffice(WordSum(bs));
  }

  /** The words of a part of a buffer, in terms of the buffer's bytes. */
  lemma WordsOfPart(buf: seq<byte>, offset: nat, length: nat, i: nat)
    requires offset + length <= |buf| && offset <= i <= offset + length
    ensures var rest := buf[offset..offset + length][i - offset..];
      && (i < offset + length ==> rest != [])
      && (i + 2 <= offset + length ==> FirstWord(rest) == 0x100 * (buf[i] as int) + buf[i + 1])
      && (i + 2 <= offset + length ==> AfterFirstWord(rest) == buf[offset..offset + length][i + 2 - offset..])
      && (i + 1 == offset + length ==> FirstWord(rest) == 0x100 * (buf[i] as int))
      && (i + 1 == offset + length ==> AfterFirstWord(rest) == [])
      && (i == offset + length ==> rest == [])
  {
  }

  /** The loop's addition of two bytes moves a word out of what remains. */
  lemma PairMoves(buf: seq<byte>, offset: nat, length: nat, i: nat, sum: int)
    requires offset <= i && i + 2 <= offset + length <= |buf|
    ensures var part := buf[offset..offset + length];
      Wrap32(Wrap32(sum + (0x100 * (buf[i] as int) + buf[i + 1])) + WordSum(part[i + 2 - offset..]))
      == Wrap32(sum + WordSum(part[i - offset..]))
  {
    hide WordSum, Wrap32, FirstWord, AfterFirstWord;
    WordsOfPart(buf, offset, length, i);
    AccumulateWord(sum, buf[offset..offset + length][i - offset..]);
  }

  /** So does the addition of an odd last byte. */
  lemma LastMoves(buf: seq<byte>, offset: nat, length: nat, i: nat, sum: int)
    requires offset <= i && i + 1 == offset + length <= |buf|
    ensures Wrap32(sum + 0x100 * (buf[i] as int)) == Wrap32(sum + WordSum(buf[offset..offset + length][i - offset..]))
  {
    hide WordSum, Wrap32, FirstWord, AfterFirstWord;
    WordsOfPart(buf, offset, length, i);
    AccumulateWord(sum, buf[offset..offset + length][i - offset..]);
    EmptySum();
    WrapOfInt32(Wrap32(sum + 0x100 * (buf[i] as int)));
  }

  lemma NothingLeft(part: seq<byte>, sum: int32)
    ensures Wrap32(sum + WordSum(part[|part|..])) == sum
  {
    hide WordSum, Wrap32;
    assert part[|part|..] == [];
    EmptySum();
    WrapOfInt32(sum);
  }

  lemma PairsIn(length: nat, k: nat)
    requires length - 1 <= 2 * k <= length
    ensures 2 * k == if length % 2 != 0 then length - 1 else length
  {
  }

  /** The accumulating loop of `checksum`. */
  method Accumulate(buf: seq<byte>, offset: nat, length: nat) returns (sum: int32)
    requires offset + length <= |buf|
    ensures sum == Wrap32(WordSum(buf[offset..offset + length]))
  {
    hide *;
    ghost var part := buf[offset..offset + length];
    sum := 0;
    var i := offset;
    ghost var k := 0;
    assert part[0..] == part;
    while i < offset + length - 1
      invariant i == offset + 2 * k && i <= offset + length
      invariant Wrap32(sum + WordSum(part[i - offset..])) == Wrap32(WordSum(part))
    {
      PairMoves(buf, offset, length, i, sum);
      sum := Wrap32(sum + (0x100 * (buf[i] as int) + buf[i + 1]));
      i := i + 2;
      k := k + 1;
    }
    PairsIn(length, k);
    if length % 2 != 0 {
      LastMoves(buf, offset, length, i, sum);
      sum := Wrap32(sum + 0x100 * (buf[offset + length - 1] as int));
    } else {
      NothingLeft(part, sum);
    }
  }

  /** `checksum(buf, offset, length)`. For every length the result is the folded 32-bit sum, and
      up to 65536 bytes that is the internet checksum. */
  method Compute(buf: seq<byte>, offset: nat, length: nat) returns (c: nat)
    requires offset + length <= |buf|
    ensures c == FoldTwice(Wrap32(WordSum(buf[offset..offset + length])))
    ensures length <= 0x1_0000 ==> c == InternetChecksum(buf[offset..offset + length])
  {
    hide WordSum, Wrap32, InternetChecksum;
    var sum := Accumulate(buf, offset, length);
    var once := sum / 0x1_0000 + sum % 0x1_0000;
    var twice := once + once / 0x1_0000;
    c := (-1 - twice) % 0x1_0000;
    if length <= 0x1_0000 {
      SumOfUpTo64K(buf[offset..offset + length]);
    }
  }

  lemma WrapOfInt32(n: int32)
    ensures Wrap32(n) == n
  {
  }

  lemma EmptySum()
    ensures WordSum([]) == 0
  {
  }

  // ---- Storing a checksum ----

  function Store16(bs: seq<byte>, k: nat, v: nat): (r: seq<byte>)
    requires k + 2 <= |bs|
    ensures |r| == |bs|
  {
    bs[k := v / 0x100 % 0x100][k + 1 := v % 0x100]
  }

  /** Writing a word into a zero field at an even offset adds it to the sum. */
  lemma {:induction false} StoreAdds(bs: seq<byte>, k: nat, v: nat)
    requires k % 2 == 0 && k + 2 <= |bs| && bs[k] == 0 && bs[k + 1] == 0 && v <= 0xFFFF
    ensures WordSum(Store16(bs, k, v)) == WordSum(bs) + v
  {
    var r := Store16(bs, k, v);
    if k == 0 {
      assert r[2..] == bs[2..];
    } else {
      StoreAdds(bs[2..], k - 2, v);
      assert r[2..] == Store16(bs[2..], k - 2, v);
    }
  }

  lemma ComplementCompletes(sum: nat)
    ensures Normal(sum + (0xFFFF - Normal(sum))) == 0xFFFF
  {
  }

  /** CHECKSUM CORRECTNESS: storing the checksum of a buffer in a zeroed field at an even offset
      makes the buffer verify. */
  lemma StoredChecksumVerifies(bs: seq<byte>, k: nat)
    requires k % 2 == 0 && k + 2 <= |bs| && bs[k] == 0 && bs[k + 1] == 0
    ensures Verifies(Store16(bs, k, InternetChecksum(bs)))
    ensures InternetChecksum(Store16(bs, k, InternetChecksum(bs))) == 0
  {
    var r := Store16(bs, k, InternetChecksum(bs));
    OnesSumIsNormal(bs);
    OnesSumIsNormal(r);
    StoreAdds(bs, k, InternetChecksum(bs));
    ComplementCompletes(WordSum(bs));
  }
}
