/** Fixed-width integers, powers of two, bitwise or and xor, and the little- and big-endian codecs
    that the rest of the project shares. Bytes are integers, so that widths, truncation and
    sign are always written out. */
module Bytes {

  type byte = x: int | 0 <= x < 0x100
  type uint16 = x: int | 0 <= x < 0x1_0000
  type int16 = x: int | -0x8000 <= x < 0x8000
  type int32 = x: int | -0x8000_0000 <= x < 0x8000_0000
  type int64 = x: int | -0x8000_0000_0000_0000 <= x < 0x8000_0000_0000_0000

  /** What a reader returns: a value and the bytes it did not consume. */
  datatype Read<+T> = Read(val: T, rest: seq<byte>)

  datatype Option<+T> = None | Some(value: T)

  function Min(a: nat, b: nat): nat {
    if a < b then a else b
  }

  function Zeros(n: nat): (r: seq<byte>)
    ensures |r| == n
  {
    seq(n, _ => 0)
  }

  /** `v << s` on an unbounded number. */
  function ShiftLeft(v: nat, s: nat): nat {
    if s == 0 then v else 2 * ShiftLeft(v, s - 1)
  }

  function Pow2(n: nat): nat {
    ShiftLeft(1, n)
  }

  /** The low `width` bits: conversion to an unsigned type of that width. */
  function Truncate(v: nat, width: nat): nat {
    if width == 0 then 0 else v % 2 + 2 * Truncate(v / 2, width - 1)
  }

  /** The bitwise `|`. */
  function BitOr(a: nat, b: nat): nat {
    if a == 0 && b == 0 then 0
    else (if a % 2 == 1 || b % 2 == 1 then 1 else 0) + 2 * BitOr(a / 2, b / 2)
  }

  /** The bitwise `^`. */
  function BitXor(a: nat, b: nat): nat {
    if a == 0 && b == 0 then 0
    else (if a % 2 != b % 2 then 1 else 0) + 2 * BitXor(a / 2, b / 2)
  }

  lemma {:induction false} BitXorOfZero(a: nat)
    ensures BitXor(a, 0) == a
  {
    if a != 0 {
      BitXorOfZero(a / 2);
    }
  }

  function AllOnes(width: nat): nat {
    if width == 0 then 0 else 1 + 2 * AllOnes(width - 1)
  }

  /** `^` with all ones flips every bit. */
  lemma {:induction false} BitXorOfOnes(a: nat, width: nat)
    requires a < Pow2(width)
    ensures BitXor(a, AllOnes(width)) == Pow2(width) - 1 - a
  {
    if width == 0 {
    } else {
      assert Pow2(width) == 2 * Pow2(width - 1);
      BitXorOfOnes(a / 2, width - 1);
    }
  }

  /** `(v >> i) & 1`, or equally `v & (1 << i)`, is not zero. */
  predicate Bit(v: nat, i: nat) {
    if i == 0 then v % 2 == 1 else Bit(v / 2, i - 1)
  }

  lemma {:induction false} ShiftAdds(a: nat, b: nat, s: nat)
    ensures ShiftLeft(a + b, s) == ShiftLeft(a, s) + ShiftLeft(b, s)
  {
    if s == 0 {
    } else {
      ShiftAdds(a, b, s - 1);
    }
  }

  lemma {:induction false} ShiftsCompose(v: nat, s: nat, t: nat)
    ensures ShiftLeft(ShiftLeft(v, t), s) == ShiftLeft(v, s + t)
  {
    if s == 0 {
    } else {
      ShiftsCompose(v, s - 1, t);
    }
  }

  lemma {:induction false} ShiftIsMonotone(a: nat, b: nat, s: nat)
    requires a <= b
    ensures ShiftLeft(a, s) <= ShiftLeft(b, s)
  {
    if s == 0 {
    } else {
      ShiftIsMonotone(a, b, s - 1);
    }
  }

  lemma {:induction false} Pow2IsMonotone(a: nat, b: nat)
    requires a <= b
    ensures 0 < Pow2(a) <= Pow2(b)
  {
    if a < b {
      Pow2IsMonotone(a, b - 1);
    } else if a > 0 {
      Pow2IsMonotone(a - 1, a - 1);
    }
  }

  lemma ShiftBy4(v: nat, s: nat)
    ensures ShiftLeft(v, s + 4) == 0x10 * ShiftLeft(v, s)
  {
    assert ShiftLeft(v, s + 2) == 4 * ShiftLeft(v, s);
  }

  lemma ShiftBy16(v: nat, s: nat)
    ensures ShiftLeft(v, s + 16) == 0x1_0000 * ShiftLeft(v, s)
  {
    ShiftBy4(v, s);
    ShiftBy4(v, s + 4);
    ShiftBy4(v, s + 8);
    ShiftBy4(v, s + 12);
  }

  // ---- What the bit operations mean ----

  lemma Pow2Below8(j: nat)
    requires j < 8
    ensures Pow2(j) == [1, 2, 4, 8, 16, 32, 64, 128][j]
  {
    assert Pow2(1) == 2 && Pow2(2) == 4 && Pow2(3) == 8;
    ShiftBy4(1, 0);
    ShiftBy4(2, 0);
    assert Pow2(4) == 16 && Pow2(5) == 32 && Pow2(6) == 64 && Pow2(7) == 128;
  }

  lemma {:induction false} TruncateIsRemainder(v: nat, width: nat)
    ensures Pow2(width) > 0 && Truncate(v, width) == v % Pow2(width)
    decreases width
  {
    Pow2IsMonotone(0, width);
    if width == 0 {
    } else {
      Pow2IsMonotone(0, width - 1);
      TruncateIsRemainder(v / 2, width - 1);
      HalfRemainder(v, Pow2(width - 1));
    }
  }

  lemma HalfRemainder(v: nat, half: nat)
    requires half > 0
    ensures v % (2 * half) == v % 2 + 2 * (v / 2 % half)
  {
    var q, r := v / 2 / half, v / 2 % half;
    assert v / 2 == half * q + r;
    var low := v % 2 + 2 * r;
    assert v == (2 * half) * q + low by {
      assert v == 2 * (v / 2) + v % 2;
      assert 2 * (half * q) == (2 * half) * q;
    }
    RemainderIs(v, 2 * half, q, low);
  }

  lemma RemainderIs(v: nat, d: nat, q: nat, r: nat)
    requires r < d && v == d * q + r
    ensures v / d == q && v % d == r
  {
    assert d * (v / d - q) == r - v % d by {
      assert v == d * (v / d) + v % d;
    }
    ProductBound(d, v / d - q);
  }

  lemma ProductBound(d: nat, k: int)
    ensures k >= 1 ==> d * k >= d
    ensures k <= -1 ==> d * k <= -(d as int)
  {
  }

  lemma {:induction false} BitIsDigit(v: nat, i: nat)
    ensures Pow2(i) > 0 && (Bit(v, i) <==> v / Pow2(i) % 2 == 1)
    decreases i
  {
    Pow2IsMonotone(0, i);
    if i == 0 {
    } else {
      Pow2IsMonotone(0, i - 1);
      BitIsDigit(v / 2, i - 1);
      HalfQuotient(v, Pow2(i - 1));
    }
  }

  lemma HalfQuotient(v: nat, half: nat)
    requires half > 0
    ensures v / (2 * half) == v / 2 / half
  {
    var q, r := v / 2 / half, v / 2 % half;
    assert v / 2 == half * q + r;
    assert v == (2 * half) * q + (v % 2 + 2 * r) by {
      assert v == 2 * (v / 2) + v % 2;
      assert 2 * (half * q) == (2 * half) * q;
    }
    RemainderIs(v, 2 * half, q, v % 2 + 2 * r);
  }

  /** `|` and `^`, bit by bit. */
  lemma {:induction false} BitOfOrXor(a: nat, b: nat, i: nat)
    ensures Bit(BitOr(a, b), i) <==> Bit(a, i) || Bit(b, i)
    ensures Bit(BitXor(a, b), i) <==> Bit(a, i) != Bit(b, i)
    decreases i
  {
    if i == 0 {
    } else {
      assert BitOr(a, b) / 2 == BitOr(a / 2, b / 2);
      assert BitXor(a, b) / 2 == BitXor(a / 2, b / 2);
      BitOfOrXor(a / 2, b / 2, i - 1);
    }
  }

  /** Powers of two at the widths of the machine integers. */
  lemma {:induction false} Pow2OfWidth(s: nat)
    ensures s == 0 ==> Pow2(s) == 1
    ensures s == 16 ==> Pow2(s) == 0x1_0000
    ensures s == 32 ==> Pow2(s) == 0x1_0000_0000
    ensures s == 48 ==> Pow2(s) == 0x1_0000_0000_0000
    ensures s == 64 ==> Pow2(s) == 0x1_0000_0000_0000_0000
  {
    if s >= 16 {
      ShiftBy16(1, s - 16);
      Pow2OfWidth(s - 16);
    }
  }

  /** On operands that share no bit, `|` adds. */
  lemma {:induction false} BitOrOfDisjoint(a: nat, b: nat, s: nat)
    requires a < Pow2(s)
    ensures BitOr(a, ShiftLeft(b, s)) == a + ShiftLeft(b, s)
    decreases s
  {
    if s == 0 {
      BitOrOfZero(b);
    } else {
      BitOrOfDisjoint(a / 2, b, s - 1);
    }
  }

  lemma {:induction false} BitOrOfZero(b: nat)
    ensures BitOr(0, b) == b
  {
    if b != 0 {
      BitOrOfZero(b / 2);
    }
  }

  lemma {:induction false} TruncateOfSmall(v: nat, width: nat)
    requires v < Pow2(width)
    ensures Truncate(v, width) == v
    decreases width
  {
    if width == 0 {
    } else {
      TruncateOfSmall(v / 2, width - 1);
    }
  }

  lemma {:induction false} TruncateBound(v: nat, width: nat)
    ensures Truncate(v, width) < Pow2(width)
    decreases width
  {
    if width == 0 {
    } else {
      TruncateBound(v / 2, width - 1);
    }
  }

  /** Truncating a number whose low `s` bits are known truncates only its high part. */
  lemma {:induction false} TruncateHighPart(low: nat, high: nat, s: nat, width: nat)
    requires s <= width && low < Pow2(s)
    ensures Truncate(low + ShiftLeft(high, s), width) == low + ShiftLeft(Truncate(high, width - s), s)
    decreases s
  {
    if s == 0 {
    } else {
      TruncateHighPart(low / 2, high, s - 1, width - 1);
    }
  }

  /** Truncation is reduction modulo the power of two: whatever it drops is a multiple. */
  lemma {:induction false} TruncateDropsMultiples(v: nat, width: nat) returns (d: nat)
    ensures v == Truncate(v, width) + ShiftLeft(d, width)
    decreases width
  {
    if width == 0 {
      d := v;
    } else {
      d := TruncateDropsMultiples(v / 2, width - 1);
    }
  }

  function LittleEndian(s: seq<byte>): nat {
    if s == [] then 0 else s[0] + 0x100 * LittleEndian(s[1..])
  }

  function ToLittleEndian(n: nat, k: nat): (r: seq<byte>)
    ensures |r| == k
  {
    if k == 0 then [] else [n % 0x100] + ToLittleEndian(n / 0x100, k - 1)
  }

  function BigEndian(s: seq<byte>): nat {
    if s == [] then 0 else 0x100 * BigEndian(s[..|s| - 1]) + s[|s| - 1]
  }

  function ToBigEndian(n: nat, k: nat): (r: seq<byte>)
    ensures |r| == k
  {
    if k == 0 then [] else ToBigEndian(n / 0x100, k - 1) + [n % 0x100]
  }

  function Pow256(k: nat): (r: nat)
    ensures r > 0
  {
    if k == 0 then 1 else 0x100 * Pow256(k - 1)
  }

  lemma {:induction false} LittleEndianBound(s: seq<byte>)
    ensures LittleEndian(s) < Pow256(|s|)
  {
    if s == [] {
    } else {
      LittleEndianBound(s[1..]);
    }
  }

  lemma {:induction false} BigEndianBound(s: seq<byte>)
    ensures BigEndian(s) < Pow256(|s|)
  {
    if s == [] {
    } else {
      BigEndianBound(s[..|s| - 1]);
    }
  }

  lemma {:induction false} LittleEndianRoundTrip(n: nat, k: nat)
    requires n < Pow256(k)
    ensures LittleEndian(ToLittleEndian(n, k)) == n
  {
    if k == 0 {
    } else {
      LittleEndianRoundTrip(n / 0x100, k - 1);
      assert ToLittleEndian(n, k)[1..] == ToLittleEndian(n / 0x100, k - 1);
    }
  }

  lemma {:induction false} BigEndianRoundTrip(n: nat, k: nat)
    requires n < Pow256(k)
    ensures BigEndian(ToBigEndian(n, k)) == n
  {
    if k == 0 {
    } else {
      BigEndianRoundTrip(n / 0x100, k - 1);
      assert ToBigEndian(n, k)[..k - 1] == ToBigEndian(n / 0x100, k - 1);
    }
  }

  lemma {:induction false} BigEndianBack(s: seq<byte>)
    ensures ToBigEndian(BigEndian(s), |s|) == s
  {
    if s == [] {
    } else {
      BigEndianBack(s[..|s| - 1]);
      assert s == s[..|s| - 1] + [s[|s| - 1]];
    }
  }

  lemma Pow256Constants()
    ensures Pow256(2) == 0x1_0000
    ensures Pow256(4) == 0x1_0000_0000
    ensures Pow256(8) == 0x1_0000_0000_0000_0000
  {
    assert Pow256(4) == 0x1_0000 * Pow256(2);
    assert Pow256(6) == 0x1_0000 * Pow256(4);
  }

  /** The byte orders, at the widths in use. */
  lemma ByteOrders(a: byte, b: byte, c: byte, d: byte)
    ensures LittleEndian([a, b]) == a + 0x100 * b
    ensures LittleEndian([a, b, c, d]) == a + 0x100 * b + 0x1_0000 * c + 0x100_0000 * d
    ensures BigEndian([a, b]) == 0x100 * a + b
    ensures BigEndian([a, b, c, d]) == 0x100_0000 * a + 0x1_0000 * b + 0x100 * c + d
  {
    assert [a, b][1..] == [b] && [b][1..] == [];
    assert [a, b, c, d][1..] == [b, c, d] && [b, c, d][1..] == [c, d] && [c, d][1..] == [d] && [d][1..] == [];
    assert [a, b][..1] == [a] && [a][..0] == [];
    assert [a, b, c, d][..3] == [a, b, c] && [a, b, c][..2] == [a, b];
    assert LittleEndian([d]) == d as int;
    assert LittleEndian([c, d]) == c + 0x100 * d;
    assert BigEndian([a]) == a as int;
    assert BigEndian([a, b]) == 0x100 * a + b;
    assert BigEndian([a, b, c]) == 0x1_0000 * a + 0x100 * b + c;
  }

  /** The two's-complement reading of a 16-bit pattern. */
  function ToInt16(u: uint16): int16 {
    if u < 0x8000 then u else u - 0x1_0000
  }

  lemma ToInt16IsCongruent(u: uint16)
    ensures (ToInt16(u) - u) % 0x1_0000 == 0
  {
  }

  function FromInt16(v: int16): uint16 {
    if v >= 0 then v else v + 0x1_0000
  }

  lemma SliceOfSlice<T>(s: seq<T>, a: nat, b: nat, i: nat, j: nat)
    requires i <= j <= b - a && a <= b <= |s|
    ensures s[a..b][i..j] == s[a + i..a + j]
  {
    assert forall k :: 0 <= k < j - i ==> s[a..b][i..j][k] == s[a..b][i + k] == s[a + i..a + j][k];
  }

  lemma SliceOfTail<T>(s: seq<T>, a: nat, i: nat, j: nat)
    requires a <= |s| && i <= j <= |s| - a
    ensures s[a..][i..j] == s[a + i..a + j]
  {
  }

  /** `r` is what is left of `bs` after some prefix of it was consumed. */
  ghost predicate IsSuffix(r: seq<byte>, bs: seq<byte>) {
    |r| <= |bs| && bs[|bs| - |r|..] == r
  }

  lemma SuffixIsTransitive(a: seq<byte>, b: seq<byte>, c: seq<byte>)
    requires IsSuffix(a, b) && IsSuffix(b, c)
    ensures IsSuffix(a, c)
  {
    assert b[|b| - |a|..] == c[|c| - |b|..][|b| - |a|..] == c[|c| - |a|..];
  }
}
