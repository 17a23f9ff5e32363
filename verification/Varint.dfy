/** The compressed integers of Protocol18: 7-bit groups, low group first, top bit set on all
    but the last; and the zigzag mapping of signed onto unsigned numbers. */
module Varint {
  import opened Bytes

  /** The two widths the deserializer reads. */
  ghost predicate IsWidth(width: nat) {
    width == 32 || width == 64
  }

  /** The shift at which the reader gives up: after 5 groups, or after 10. */
  function ShiftLimit(width: nat): nat {
    if width == 32 then 35 else 70
  }

  /** One pass of the reader's loop from accumulator `value` and shift `shift`. */
  function Loop(width: nat, bs: seq<byte>, value: nat, shift: nat): (r: Read<nat>)
    ensures |r.rest| <= |bs|
    ensures bs != [] ==> |r.rest| < |bs|
    decreases |bs|
  {
    if bs == [] then Read(0, [])
    else
      var value' := BitOr(value, Truncate(ShiftLeft(bs[0] % 0x80, shift), width));
      if bs[0] < 0x80 then Read(value', bs[1..])
      else if shift + 7 >= ShiftLimit(width) then Read(0, bs[1..])
      else Loop(width, bs[1..], value', shift + 7)
  }

  /** The whole reader. At the end of the buffer it yields 0. */
  function Uvarint(width: nat, bs: seq<byte>): (r: Read<nat>)
    ensures |r.rest| <= |bs|
    ensures bs != [] ==> |r.rest| < |bs|
    ensures bs == [] ==> r == Read(0, [])
  {
    Loop(width, bs, 0, 0)
  }

  /** The shortest spelling of `v`. */
  function Encode(v: nat): (r: seq<byte>)
    ensures |r| > 0
  {
    if v < 0x80 then [v] else [0x80 + v % 0x80] + Encode(v / 0x80)
  }

  /** The number that 7-bit groups spell, before any truncation. */
  function Groups(bs: seq<byte>): nat {
    if bs == [] then 0 else bs[0] % 0x80 + 0x80 * Groups(bs[1..])
  }

  /** The groups in the order of the wire: the first is the lowest. */
  lemma GroupOrder(a: byte, b: byte)
    ensures Groups([a]) == a % 0x80 && Groups([a, b]) == a % 0x80 + 0x80 * (b % 0x80)
  {
    assert [a, b][1..] == [b] && [b][1..] == [] && [a][1..] == [];
    assert Groups([b]) == b % 0x80;
  }

  /** The position of the first byte without continuation bit, or |bs| if there is none. */
  function Terminator(bs: seq<byte>): (k: nat)
    ensures k <= |bs|
    ensures k < |bs| ==> bs[k] < 0x80
    ensures forall j :: 0 <= j < k ==> bs[j] >= 0x80
  {
    if bs == [] || bs[0] < 0x80 then 0 else 1 + Terminator(bs[1..])
  }

  /** Or-ing in a group whose overflow was cut off adds it modulo the width. */
  lemma GroupAdds(width: nat, value: nat, g: nat, shift: nat)
    requires shift <= width && value < Pow2(shift)
    ensures BitOr(value, Truncate(ShiftLeft(g, shift), width)) == Truncate(value + ShiftLeft(g, shift), width)
  {
    Pow2IsMonotone(shift, shift);
    TruncateHighPart(0, g, shift, width);
    TruncateHighPart(value, g, shift, width);
    BitOrOfDisjoint(value, Truncate(g, width - shift), shift);
  }

  lemma NextShift(h: nat, shift: nat)
    ensures ShiftLeft(h, shift + 7) == ShiftLeft(0x80 * h, shift)
    ensures ShiftLeft(h, shift + 7) == 0x80 * ShiftLeft(h, shift)
  {
    ShiftsCompose(h, shift, 7);
    ShiftBy4(h, 0);
    assert ShiftLeft(h, 6) == 4 * ShiftLeft(h, 4);
    ShiftBy4(h, shift);
    assert ShiftLeft(h, shift + 6) == 4 * ShiftLeft(h, shift + 4);
  }

  /** One more group that still fits below the width is added exactly. */
  lemma GroupFits(width: nat, value: nat, g: nat, shift: nat)
    requires shift + 7 <= width && value < Pow2(shift) && g < 0x80
    ensures BitOr(value, Truncate(ShiftLeft(g, shift), width)) == value + ShiftLeft(g, shift)
    ensures value + ShiftLeft(g, shift) < Pow2(shift + 7)
  {
    ShiftAdds(1, g, shift);
    ShiftIsMonotone(1 + g, 0x80, shift);
    NextShift(1, shift);
    GroupAdds(width, value, g, shift);
    Pow2IsMonotone(shift + 7, width);
    TruncateOfSmall(value + ShiftLeft(g, shift), width);
  }

  lemma GroupsOfPrefix(bs: seq<byte>, k: nat)
    requires k < |bs|
    ensures Groups(bs[..k + 1]) == bs[0] % 0x80 + 0x80 * Groups(bs[1..][..k])
  {
    assert bs[..k + 1][1..] == bs[1..][..k];
  }

  /** How many groups the reader still accepts at shift `shift`. */
  function GroupsLeft(width: nat, shift: nat): nat {
    if shift < ShiftLimit(width) then (ShiftLimit(width) - shift) / 7 else 0
  }

  /** What the loop should return: the groups up to the terminator, weighted by their
      position and truncated to the width, if the terminator is within the limit. */
  function Meaning(width: nat, bs: seq<byte>, value: nat, shift: nat): Read<nat> {
    var k := Terminator(bs);
    if k < |bs| && k < GroupsLeft(width, shift)
    then Read(Truncate(value + ShiftLeft(Groups(bs[..k + 1]), shift), width), bs[k + 1..])
    else Read(0, bs[Min(|bs|, GroupsLeft(width, shift))..])
  }

  /** Reading one continued group moves its value into the accumulator. */
  lemma MeaningStep(width: nat, bs: seq<byte>, value: nat, shift: nat)
    requires IsWidth(width) && shift % 7 == 0 && shift + 7 < ShiftLimit(width)
    requires bs != [] && bs[0] >= 0x80
    ensures Meaning(width, bs, value, shift)
         == Meaning(width, bs[1..], value + ShiftLeft(bs[0] % 0x80, shift), shift + 7)
  {
    hide BitOr, Truncate, ShiftLeft, Loop, Groups, Terminator, GroupsLeft, ShiftLimit;
    var k, left := Terminator(bs), GroupsLeft(width, shift);
    assert k == 1 + Terminator(bs[1..]) by { TerminatorStep(bs); }
    assert left == 1 + GroupsLeft(width, shift + 7) by { GroupsLeftStep(width, shift); }
    if k < |bs| && k < left {
      MovedGroup(bs, k, value, shift);
      assert bs[1..][k..] == bs[k + 1..];
    } else {
      assert bs[1..][Min(|bs|, left) - 1..] == bs[Min(|bs|, left)..];
    }
  }

  lemma GroupsLeftStep(width: nat, shift: nat)
    requires IsWidth(width) && shift % 7 == 0 && shift + 7 < ShiftLimit(width)
    ensures GroupsLeft(width, shift) == 1 + GroupsLeft(width, shift + 7)
  {
  }

  lemma TerminatorStep(bs: seq<byte>)
    requires bs != [] && bs[0] >= 0x80
    ensures Terminator(bs) == 1 + Terminator(bs[1..])
  {
  }

  lemma MovedGroup(bs: seq<byte>, k: nat, value: nat, shift: nat)
    requires k < |bs|
    ensures value + ShiftLeft(Groups(bs[..k + 1]), shift)
         == value + ShiftLeft(bs[0] % 0x80, shift) + ShiftLeft(Groups(bs[1..][..k]), shift + 7)
  {
    hide ShiftLeft, Groups;
    GroupsOfPrefix(bs, k);
    NextShift(Groups(bs[1..][..k]), shift);
    ShiftAdds(bs[0] % 0x80, 0x80 * Groups(bs[1..][..k]), shift);
  }

  lemma MeaningOfLast(width: nat, bs: seq<byte>, value: nat, shift: nat)
    requires IsWidth(width) && shift % 7 == 0 && shift < ShiftLimit(width)
    requires value < Pow2(shift) && bs != [] && bs[0] < 0x80
    ensures Loop(width, bs, value, shift) == Meaning(width, bs, value, shift)
  {
    hide BitOr, Truncate, ShiftLeft;
    GroupsOfPrefix(bs, 0);
    GroupAdds(width, value, bs[0], shift);
  }

  /** The loop that continues: the group goes into the accumulator unchanged. */
  lemma LoopStep(width: nat, bs: seq<byte>, value: nat, shift: nat)
    requires IsWidth(width) && shift % 7 == 0 && shift + 7 < ShiftLimit(width)
    requires value < Pow2(shift) && bs != [] && bs[0] >= 0x80
    ensures value + ShiftLeft(bs[0] % 0x80, shift) < Pow2(shift + 7)
    ensures Loop(width, bs, value, shift)
         == Loop(width, bs[1..], value + ShiftLeft(bs[0] % 0x80, shift), shift + 7)
  {
    hide BitOr, Truncate, ShiftLeft;
    GroupFits(width, value, bs[0] % 0x80, shift);
  }

  lemma LoopExhausted(width: nat, bs: seq<byte>, value: nat, shift: nat)
    requires IsWidth(width) && shift % 7 == 0 && shift < ShiftLimit(width)
    requires bs == [] || (bs[0] >= 0x80 && shift + 7 >= ShiftLimit(width))
    ensures Loop(width, bs, value, shift) == Meaning(width, bs, value, shift)
  {
    hide BitOr, Truncate, ShiftLeft, Groups, GroupsLeft;
    assert bs != [] ==> GroupsLeft(width, shift) == 1 by { LastGroup(width, shift); }
  }

  lemma LastGroup(width: nat, shift: nat)
    requires IsWidth(width) && shift % 7 == 0 && shift < ShiftLimit(width)
    ensures shift + 7 >= ShiftLimit(width) ==> GroupsLeft(width, shift) == 1
  {
  }

  lemma {:induction false} LoopMeaning(width: nat, bs: seq<byte>, value: nat, shift: nat)
    requires IsWidth(width) && shift % 7 == 0 && shift < ShiftLimit(width)
    requires value < Pow2(shift)
    ensures Loop(width, bs, value, shift) == Meaning(width, bs, value, shift)
    decreases |bs|
  {
    hide Meaning, ShiftLeft, BitOr, Truncate, Loop;
    if bs == [] || (bs[0] >= 0x80 && shift + 7 >= ShiftLimit(width)) {
      LoopExhausted(width, bs, value, shift);
    } else if bs[0] < 0x80 {
      MeaningOfLast(width, bs, value, shift);
    } else {
      var value' := value + ShiftLeft(bs[0] % 0x80, shift);
      LoopStep(width, bs, value, shift);
      LoopMeaning(width, bs[1..], value', shift + 7);
      MeaningStep(width, bs, value, shift);
    }
  }

  /** What the reader computes on every input: the number its groups spell, truncated to the
      width, when a terminating group comes within the limit; otherwise 0, after reading
      exactly the limit (or everything there is). */
  lemma UvarintMeaning(width: nat, bs: seq<byte>)
    requires IsWidth(width)
    ensures var k := Terminator(bs); var limit := if width == 32 then 5 else 10;
      Uvarint(width, bs) ==
        if k < |bs| && k < limit then Read(Truncate(Groups(bs[..k + 1]), width), bs[k + 1..])
        else Read(0, bs[Min(|bs|, limit)..])
  {
    LoopMeaning(width, bs, 0, 0);
  }

  lemma {:induction false} EncodeIsGroups(v: nat, rest: seq<byte>)
    ensures Groups(Encode(v)) == v
    ensures Terminator(Encode(v) + rest) == |Encode(v)| - 1
    decreases v
  {
    var e := Encode(v) + rest;
    if v >= 0x80 {
      assert (0x80 + v % 0x80) % 0x80 == v % 0x80;
      EncodeIsGroups(v / 0x80, rest);
      assert Encode(v) == [0x80 + v % 0x80] + Encode(v / 0x80);
      assert e[1..] == Encode(v / 0x80) + rest;
      assert Encode(v)[1..] == Encode(v / 0x80);
    } else {
      assert Encode(v)[1..] == [];
    }
  }

  lemma {:induction false} EncodeLength(v: nat, n: nat)
    requires n > 0 && v < Pow2(7 * n)
    ensures |Encode(v)| <= n
    decreases n
  {
    if v >= 0x80 {
      NextShift(1, 7 * (n - 1));
      EncodeLength(v / 0x80, n - 1);
    }
  }

  // ---- All spellings ----

  /** The bytes that the reader takes for `v` and for nothing more or less: groups with a
      terminator within the limit, whose value is `v` after truncation; or as many continued groups
      as the limit allows, which stand for 0. */
  predicate Spells(width: nat, bs: seq<byte>, v: nat) {
    var k, limit := Terminator(bs), if width == 32 then 5 else 10;
    if k == |bs| then |bs| == limit && v == 0
    else k == |bs| - 1 && |bs| <= limit && Truncate(Groups(bs), width) == v
  }

  lemma {:induction false} TerminatorBefore(bs: seq<byte>, rest: seq<byte>)
    ensures Terminator(bs + rest) == if Terminator(bs) < |bs| then Terminator(bs) else |bs| + Terminator(rest)
  {
    if bs == [] {
      assert bs + rest == rest;
    } else {
      assert (bs + rest)[1..] == bs[1..] + rest;
      TerminatorBefore(bs[1..], rest);
    }
  }

  /** Every spelling is read back as its number, whatever follows, consuming exactly the spelling. */
  lemma SpellingRoundTrip(width: nat, bs: seq<byte>, v: nat, rest: seq<byte>)
    requires IsWidth(width) && Spells(width, bs, v)
    ensures Uvarint(width, bs + rest) == Read(v, rest)
    ensures v < Pow2(width) && 0 < |bs| <= if width == 32 then 5 else 10
  {
    hide Truncate, Groups, Uvarint, Terminator, ShiftLeft, ShiftLimit;
    Pow2IsMonotone(0, width);
    UvarintMeaning(width, bs + rest);
    TerminatorBefore(bs, rest);
    TruncateBound(Groups(bs), width);
    assert (bs + rest)[..|bs|] == bs && (bs + rest)[|bs|..] == rest;
  }

  /** EXACTLY THE SPELLINGS: bytes spell a number if and only if the reader takes just them for it
      whatever follows. */
  lemma SpellsExactly(width: nat, bs: seq<byte>, v: nat)
    requires IsWidth(width)
    ensures Spells(width, bs, v) <==> forall rest :: Uvarint(width, bs + rest) == Read(v, rest)
  {
    hide Truncate, Groups, Uvarint, Terminator, ShiftLeft;
    if Spells(width, bs, v) {
      forall rest
        ensures Uvarint(width, bs + rest) == Read(v, rest)
      {
        SpellingRoundTrip(width, bs, v, rest);
      }
    } else {
      UvarintMeaning(width, bs + []);
      UvarintMeaning(width, bs + [0]);
      TerminatorBefore(bs, []);
      TerminatorBefore(bs, [0]);
      assert bs + [] == bs && bs[..|bs|] == bs;
      assert Uvarint(width, bs + []) != Read(v, []) || Uvarint(width, bs + [0]) != Read(v, [0]);
    }
  }

  /** The shortest spelling of any number of the width is one, and so it is read back. */
  lemma UvarintRoundTrip(width: nat, v: nat, rest: seq<byte>)
    requires IsWidth(width) && v < Pow2(width)
    ensures Spells(width, Encode(v), v) && Uvarint(width, Encode(v) + rest) == Read(v, rest)
    ensures |Encode(v)| <= if width == 32 then 5 else 10
  {
    hide BitOr, Truncate, ShiftLeft, Loop, Groups, Encode;
    Pow2IsMonotone(width, ShiftLimit(width));
    EncodeLength(v, ShiftLimit(width) / 7);
    EncodeIsGroups(v, []);
    assert Encode(v) + [] == Encode(v);
    TruncateOfSmall(v, width);
    SpellingRoundTrip(width, Encode(v), v, rest);
  }

  /** The signed reading of an unsigned pattern. */
  function ToSigned(width: nat, u: int): int {
    if 2 * u < Pow2(width) then u else u - Pow2(width)
  }

  /** `(v >> 1) ^ -(v & 1)` on patterns of the width: the mask is all zeros or all ones. */
  function Unzigzag(width: nat, v: nat): int {
    ToSigned(width, BitXor(v / 2, if v % 2 == 0 then 0 else AllOnes(width)))
  }

  /** Xor with all zeros changes nothing, xor with all ones flips every bit. */
  lemma UnzigzagMeaning(width: nat, v: nat)
    requires width > 0 && v < Pow2(width)
    ensures Unzigzag(width, v) == if v % 2 == 0 then v / 2 else -1 - v / 2
  {
    hide BitXor;
    NextPow2(width - 1);
    if v % 2 == 0 {
      BitXorOfZero(v / 2);
    } else {
      BitXorOfOnes(v / 2, width);
    }
  }

  lemma NextPow2(k: nat)
    ensures Pow2(k + 1) == 2 * Pow2(k)
  {
  }

  function Zigzag(n: int): nat {
    if n >= 0 then 2 * n else -2 * n - 1
  }

  ghost predicate IsSigned(width: nat, n: int) {
    -(Pow2(width) as int) <= 2 * n < Pow2(width)
  }

  /** Zigzag is a bijection between the signed and the unsigned numbers of a width, and the
      reader's bit expression is its inverse. */
  lemma ZigzagBijection(width: nat, n: int, v: nat)
    requires width > 0 && IsSigned(width, n) && v < Pow2(width)
    ensures Zigzag(n) < Pow2(width) && Unzigzag(width, Zigzag(n)) == n
    ensures IsSigned(width, Unzigzag(width, v)) && Zigzag(Unzigzag(width, v)) == v
  {
    hide Unzigzag;
    NextPow2(width - 1);
    UnzigzagMeaning(width, v);
    UnzigzagMeaning(width, Zigzag(n));
  }

  function Varint(width: nat, bs: seq<byte>): (r: Read<int>)
    ensures |r.rest| <= |bs|
    ensures bs != [] ==> |r.rest| < |bs|
  {
    var u := Uvarint(width, bs);
    Read(Unzigzag(width, u.val), u.rest)
  }

  /** Every signed number is read back from every spelling of its zigzag image. */
  lemma VarintRoundTrip(width: nat, bs: seq<byte>, n: int, rest: seq<byte>)
    requires IsWidth(width) && IsSigned(width, n) && Spells(width, bs, Zigzag(n))
    ensures Varint(width, bs + rest) == Read(n, rest)
  {
    ZigzagBijection(width, n, 0);
    SpellingRoundTrip(width, bs, Zigzag(n), rest);
  }

  /** On every input, also a malformed one, the signed readers stay within their width. */
  lemma VarintInRange(width: nat, bs: seq<byte>)
    requires IsWidth(width)
    ensures IsSigned(width, Varint(width, bs).val)
  {
    hide Loop, Groups, Truncate;
    UvarintMeaning(width, bs);
    TruncateBound(Groups(bs[..Min(|bs|, Terminator(bs) + 1)]), width);
    Pow2IsMonotone(0, width);
    ZigzagBijection(width, 0, Uvarint(width, bs).val);
  }
}
