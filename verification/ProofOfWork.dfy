/** The proof of work: a hex digest is expanded to bits, and its first bits are compared with the
    wanted string. The loop fills a fixed buffer and stops early. */
module ProofOfWork {
  import opened Bytes

  const HEX_LENGTH: nat := 64
  const BIT_LENGTH: nat := 512

  /** The binary digits of a number, without leading zeros; "0" for 0. */
  function Binary(n: nat): (r: string)
    ensures |r| > 0
  {
    if n < 2 then [BitChar(n == 1)] else Binary(n / 2) + [BitChar(n % 2 == 1)]
  }

  function BitChar(bit: bool): char {
    if bit then '1' else '0'
  }

  /** fmt's %0*b: padded with zeros on the left to a width. */
  function ZeroPadded(n: nat, width: nat): string {
    var digits := Binary(n);
    if |digits| < width then seq(width - |digits|, _ => '0') + digits else digits
  }

  /** The eight bits of a byte, highest first. */
  function BitsOf(b: byte): string {
    seq(8, j requires 0 <= j < 8 => BitChar(Bit(b, 7 - j)))
  }

  /** toBinaryBytes: the %08b of every byte. */
  function Expansion(s: seq<byte>): (r: string)
    ensures |r| >= 8 * |s|
    decreases |s|
  {
    if s == [] then [] else
      PaddedLength(s[|s| - 1], 8);
      Expansion(s[..|s| - 1]) + ZeroPadded(s[|s| - 1], 8)
  }

  lemma PaddedLength(n: nat, width: nat)
    ensures |ZeroPadded(n, width)| >= width
  {
  }

  /** The digits of a number below 2^width, at their places. */
  lemma {:induction false} PaddedDigits(n: nat, width: nat)
    requires width > 0 && n < Pow2(width)
    ensures |ZeroPadded(n, width)| == width
    ensures forall j :: 0 <= j < width ==> ZeroPadded(n, width)[j] == BitChar(Bit(n, width - 1 - j))
    decreases width
  {
    if width == 1 {
    } else if n < 2 {
      forall i | 0 < i < width
        ensures !Bit(n, i)
      {
        ZeroBit(n / 2, i - 1);
      }
    } else {
      PaddedDigits(n / 2, width - 1);
      var last := [BitChar(n % 2 == 1)];
      assert ZeroPadded(n, width) == ZeroPadded(n / 2, width - 1) + last;
    }
  }

  lemma {:induction false} ZeroBit(n: nat, i: nat)
    requires n == 0
    ensures !Bit(n, i)
  {
    if i == 0 {
    } else {
      ZeroBit(n, i - 1);
    }
  }

  /** The format of a byte is its eight bits. */
  lemma FormatIsBits(b: byte)
    ensures ZeroPadded(b, 8) == BitsOf(b)
  {
    assert Pow2(8) == 0x100 by {
      ShiftBy4(1, 0);
      ShiftBy4(1, 4);
    }
    PaddedDigits(b, 8);
  }

  /** The expansion, bit by bit. */
  lemma {:induction false} ExpansionAt(s: seq<byte>, k: nat)
    requires k < 8 * |s|
    ensures |Expansion(s)| == 8 * |s|
    ensures Expansion(s)[k] == BitChar(Bit(s[k / 8], 7 - k % 8))
    decreases |s|
  {
    var n := |s| - 1;
    FormatIsBits(s[n]);
    if n == 0 {
    } else {
      ExpansionAt(s[..n], if k < 8 * n then k else 0);
    }
    if k >= 8 * n {
      assert Expansion(s)[k] == BitsOf(s[n])[k - 8 * n];
    }
  }

  lemma CharIsExpansion(s: seq<byte>, k: nat)
    requires k < 8 * |s|
    ensures |Expansion(s)| == 8 * |s| && Expansion(s)[k] == CharAt(s, k)
  {
    hide Bit, Expansion;
    ExpansionAt(s, k);
  }

  /** The same in numbers: '1' where the byte has the power of two, highest first. */
  lemma ExpansionDigits(s: seq<byte>, k: nat)
    requires k < 8 * |s|
    ensures |Expansion(s)| == 8 * |s|
    ensures Expansion(s)[k] == '1' <==> s[k / 8] / [128, 64, 32, 16, 8, 4, 2, 1][k % 8] % 2 == 1
    ensures Expansion(s)[k] == '0' <==> s[k / 8] / [128, 64, 32, 16, 8, 4, 2, 1][k % 8] % 2 == 0
  {
    hide Expansion, Bit;
    ExpansionAt(s, k);
    BitIsDigit(s[k / 8], 7 - k % 8);
    Pow2Below8(7 - k % 8);
  }

  /** toBinaryBytes: the loop that appends to a buffer. */
  method ToBinaryBytes(s: seq<byte>) returns (r: string)
    ensures r == Expansion(s)
  {
    var buffer := [];
    for i := 0 to |s|
      invariant buffer == Expansion(s[..i])
    {
      assert s[..i + 1][..i] == s[..i];
      buffer := buffer + ZeroPadded(s[i], 8);
    }
    assert s[..|s|] == s;
    return buffer;
  }

  /** The character for bit `k` of a digest. */
  ghost function CharAt(hexBuf: seq<byte>, k: nat): char
    requires k < 8 * |hexBuf|
  {
    BitChar(Bit(hexBuf[k / 8], 7 - k % 8))
  }

  lemma CharOfBit(hexBuf: seq<byte>, i: nat, j: nat)
    requires i < |hexBuf| && j < 8
    ensures CharAt(hexBuf, 8 * i + 7 - j) == BitChar(Bit(hexBuf[i], j))
  {
    hide Bit;
  }

  /** The nested loops of solvePow. The buffer is never overrun, and for every wanted length that
      it can hold, its first bits are those of the expansion of the digest. */
  method FillBits(hexBuf: seq<byte>, binBuf: array<char>, wantedLen: nat)
    requires |hexBuf| == HEX_LENGTH && binBuf.Length == BIT_LENGTH
    modifies binBuf
    ensures wantedLen <= BIT_LENGTH ==> binBuf[..wantedLen] == Expansion(hexBuf)[..wantedLen]
    ensures forall k :: wantedLen <= k < BIT_LENGTH && k > 0 ==> binBuf[k] == old(binBuf[k])
  {
    hide Bit, CharAt, Expansion;
    var idx := 0;
    var i := 0;
    while i < 64
      invariant 0 <= i <= 64 && idx == 8 * i
      invariant i > 0 ==> idx < wantedLen
      invariant forall k :: 0 <= k < idx ==> binBuf[k] == CharAt(hexBuf, k)
      invariant forall k :: idx <= k < BIT_LENGTH ==> binBuf[k] == old(binBuf[k])
    {
      var b := hexBuf[i];
      var j := 7;
      while j >= 0
        invariant -1 <= j <= 7 && idx == 8 * i + 7 - j
        invariant idx > 0 ==> idx < wantedLen
        invariant forall k :: 0 <= k < idx ==> binBuf[k] == CharAt(hexBuf, k)
        invariant forall k :: idx <= k < BIT_LENGTH ==> binBuf[k] == old(binBuf[k])
      {
        CharOfBit(hexBuf, i, j);
        if Bit(b, j) {
          binBuf[idx] := '1';
        } else {
          binBuf[idx] := '0';
        }
        idx := idx + 1;
        if idx >= wantedLen {
          break;
        }
        j := j - 1;
      }
      if idx >= wantedLen {
        break;
      }
      i := i + 1;
    }
    forall k | 0 <= k < wantedLen && wantedLen <= BIT_LENGTH
      ensures |Expansion(hexBuf)| == BIT_LENGTH && binBuf[k] == Expansion(hexBuf)[k]
    {
      CharIsExpansion(hexBuf, k);
    }
    if wantedLen == 0 {
      assert binBuf[..wantedLen] == Expansion(hexBuf)[..wantedLen];
    }
  }

  // ---- The search ----

  /** Lower-case hex digits of a byte string, as their character codes. */
  function HexDigit(d: nat): byte
    requires d < 16
  {
    if d < 10 then 48 + d else 87 + d
  }

  function HexOf(hash: seq<byte>): (r: seq<byte>)
    ensures |r| == 2 * |hash|
  {
    if hash == [] then [] else [HexDigit(hash[0] / 16), HexDigit(hash[0] % 16)] + HexOf(hash[1..])
  }

  /** Hex digits: the high half of every byte first. */
  lemma {:induction false} HexAt(hash: seq<byte>, k: nat)
    requires k < 2 * |hash|
    ensures HexOf(hash)[k] ==
      "0123456789abcdef"[if k % 2 == 0 then hash[k / 2] / 16 else hash[k / 2] % 16] as int
  {
    if k < 2 {
      HexDigitIs(hash[0] / 16);
      HexDigitIs(hash[0] % 16);
    } else {
      HexAt(hash[1..], k - 2);
      assert (k - 2) / 2 == k / 2 - 1 && (k - 2) % 2 == k % 2;
    }
  }

  lemma HexDigitIs(d: nat)
    requires d < 16
    ensures HexDigit(d) == "0123456789abcdef"[d] as int
  {
  }

  /** The candidate stands between "aod^" and "^", the key after them. */
  lemma ChallengeParts(candidate: string, key: string)
    ensures var c := Challenge(candidate, key); var n := 4 + |candidate|;
      && |c| == n + 1 + |key| && c[..4] == ['a', 'o', 'd', '^'] && c[4..n] == candidate
      && c[n] == '^' && c[n + 1..] == key
  {
  }

  /** The text that is hashed for a candidate. */
  function Challenge(candidate: string, key: string): string {
    "aod^" + candidate + "^" + key
  }

  /** A candidate solves the challenge if the bits of its hex digest start with the wanted ones. */
  predicate Solves(digest: string -> seq<byte>, key: string, wanted: string, candidate: string) {
    wanted <= Expansion(HexOf(digest(Challenge(candidate, key))))
  }

  /** EXACTLY THE SOLUTIONS: bit by bit, the wanted string spells the beginning of the hex digits of
      the digest of "aod^", candidate, "^" and key, every digit as 8 bits, the highest first. */
  lemma SolvesExactly(digest: string -> seq<byte>, key: string, wanted: string, candidate: string)
    ensures var hash := digest("aod^" + candidate + "^" + key);
      Solves(digest, key, wanted, candidate) <==>
        |wanted| <= 16 * |hash| && forall k :: 0 <= k < |wanted| ==> wanted[k] == DigitBit(hash, k)
  {
    hide HexOf, Expansion;
    var hash := digest(Challenge(candidate, key));
    var hex := HexOf(hash);
    if hash == [] {
      NothingExpanded();
    } else {
      ExpansionDigits(hex, 0);
      forall k | 0 <= k < |wanted| && k < 16 * |hash|
        ensures Expansion(hex)[k] == DigitBit(hash, k)
      {
        ExpansionDigits(hex, k);
        HexAt(hash, k / 8);
      }
    }
  }

  lemma NothingExpanded()
    ensures Expansion(HexOf([])) == []
  {
  }

  /** Bit `k` of the hex digits of a hash. */
  function DigitBit(hash: seq<byte>, k: nat): char
    requires k < 16 * |hash|
  {
    var i := k / 8;
    var digit := "0123456789abcdef"[if i % 2 == 0 then hash[i / 2] / 16 else hash[i / 2] % 16];
    if digit as int / [128, 64, 32, 16, 8, 4, 2, 1][k % 8] % 2 == 1 then '1' else '0'
  }

  /** Candidate number `n` is the first in the stream that solves the challenge. */
  ghost predicate IsFirst(digest: string -> seq<byte>, key: string, wanted: string, candidates: seq<string>, n: nat)
    requires n < |candidates|
  {
    && Solves(digest, key, wanted, candidates[n])
    && forall k :: 0 <= k < n ==> !Solves(digest, key, wanted, candidates[k])
  }

  datatype Search = Found(candidate: string) | NoneSoFar | Panic

  /** solvePow over the candidates that the random source yields, with the digest as a parameter:
      the first that solves the challenge is returned. A wanted string longer than the buffer
      makes Go panic when the buffer is sliced. */
  method SolvePow(digest: string -> seq<byte>, key: string, wanted: string, candidates: seq<string>) returns (r: Search)
    requires forall text :: |digest(text)| == 32
    ensures r.Panic? <==> |wanted| > BIT_LENGTH && candidates != []
    ensures r.Found? ==>
      exists n :: 0 <= n < |candidates| && candidates[n] == r.candidate && IsFirst(digest, key, wanted, candidates, n)
    ensures r.NoneSoFar? ==> forall k :: 0 <= k < |candidates| ==> !Solves(digest, key, wanted, candidates[k])
  {
    var wantedLen := |wanted|;
    var binBuf := new char[BIT_LENGTH];
    for n := 0 to |candidates|
      invariant n > 0 ==> wantedLen <= BIT_LENGTH
      invariant forall k :: 0 <= k < n ==> !Solves(digest, key, wanted, candidates[k])
    {
      var hexBuf := HexOf(digest(Challenge(candidates[n], key)));
      FillBits(hexBuf, binBuf, wantedLen);
      if wantedLen > BIT_LENGTH {
        return Panic;
      }
      ExpansionAt(hexBuf, 0);
      if binBuf[..wantedLen] == wanted {
        return Found(candidates[n]);
      }
    }
    return NoneSoFar;
  }
}
