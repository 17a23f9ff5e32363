/** What is read of input that ends too early or announces more than there is, and of codes without
    payload. Codes are numbers here, as on the wire. */
module Malformed {
  import opened Bytes
  import opened Values
  import opened Protocol18
  import opened WireTree
  import opened RoundTrip
  import Varint

  // ---- Codes without payload ----

  lemma ConstantCode(tc: byte, bs: seq<byte>)
    requires IsConstant(tc)
    ensures Decode(tc, bs) == Read(ConstMeaning(tc), bs)
  {
    hide Decode, Scalar, ConstMeaning, IsConstant;
    DecodeOfConstant(tc, bs);
    ConstTreeRoundTrip(tc, bs);
    assert [] + bs == bs;
  }

  lemma DecodeOfConstant(tc: byte, bs: seq<byte>)
    requires IsConstant(tc)
    ensures tc < TYPE_ARRAY && Decode(tc, bs) == Scalar(tc, bs)
  {
    hide Scalar;
  }

  /** Codes 0, 8 and 27 to 34 consume nothing and stand for these values. */
  lemma ConstantCodes(bs: seq<byte>)
    ensures Decode(0, bs) == Read(Null, bs) && Decode(8, bs) == Read(Null, bs)
    ensures Decode(27, bs) == Read(Bool(false), bs) && Decode(28, bs) == Read(Bool(true), bs)
    ensures Decode(29, bs) == Read(Short(0), bs) && Decode(30, bs) == Read(Int(0), bs)
    ensures Decode(31, bs) == Read(Long(0), bs) && Decode(32, bs) == Read(Float(0), bs)
    ensures Decode(33, bs) == Read(Double(0), bs) && Decode(34, bs) == Read(Byte(0), bs)
  {
    hide Decode;
    ConstantCode(0, bs);
    ConstantCode(8, bs);
    ConstantCode(27, bs);
    ConstantCode(28, bs);
    ConstantCode(29, bs);
    ConstantCode(30, bs);
    ConstantCode(31, bs);
    ConstantCode(32, bs);
    ConstantCode(33, bs);
    ConstantCode(34, bs);
  }

  /** Every other code below 64 that is not assigned: an error text with its two hex digits. */
  lemma UnassignedCodes(tc: byte, bs: seq<byte>)
    requires tc == 1 || tc == 22 || 35 <= tc < 64
    ensures Decode(tc, bs) ==
      Read(Str(Ascii("ERROR - unknown type 0x"
                     + ["0123456789ABCDEF"[tc / 16], "0123456789ABCDEF"[tc % 16]])), bs)
  {
    hide Decode, Ascii;
    ConstantCode(tc, bs);
  }

  // ---- Typed arrays: which slice the elements come out in ----

  /** Values of the element type give the slice of just their contents; all other element types
      give a slice of interfaces. */
  lemma Slices(vs: seq<Value>)
    ensures (forall i :: 0 <= i < |vs| ==> vs[i].Byte?) ==>
      Packed(3, vs) == ByteArray(seq(|vs|, i requires 0 <= i < |vs| && vs[i].Byte? => vs[i].octet))
    ensures (forall i :: 0 <= i < |vs| ==> vs[i].Short?) ==>
      Packed(4, vs) == ShortArray(seq(|vs|, i requires 0 <= i < |vs| && vs[i].Short? => vs[i].short))
    ensures (forall i :: 0 <= i < |vs| ==> vs[i].Float?) ==>
      Packed(5, vs) == FloatArray(seq(|vs|, i requires 0 <= i < |vs| && vs[i].Float? => vs[i].bits32))
    ensures (forall i :: 0 <= i < |vs| ==> vs[i].Double?) ==>
      Packed(6, vs) == DoubleArray(seq(|vs|, i requires 0 <= i < |vs| && vs[i].Double? => vs[i].bits64))
    ensures (forall i :: 0 <= i < |vs| ==> vs[i].Str?) ==>
      Packed(7, vs) == StrArray(seq(|vs|, i requires 0 <= i < |vs| && vs[i].Str? => vs[i].text))
    ensures (forall i :: 0 <= i < |vs| ==> vs[i].Int?) ==>
      Packed(9, vs) == IntArray(seq(|vs|, i requires 0 <= i < |vs| && vs[i].Int? => vs[i].num))
    ensures (forall i :: 0 <= i < |vs| ==> vs[i].Long?) ==>
      Packed(10, vs) == LongArray(seq(|vs|, i requires 0 <= i < |vs| && vs[i].Long? => vs[i].long))
    ensures forall tc: byte :: tc !in {3, 4, 5, 6, 7, 9, 10} ==> Packed(tc, vs) == Array(vs)
  {
  }

  /** A packed flag is the bit of its place, lowest first. */
  lemma FlagAt(packed: seq<byte>, i: nat)
    requires i / 8 < |packed|
    ensures PackedBit(packed, i) <==> packed[i / 8] / [1, 2, 4, 8, 16, 32, 64, 128][i % 8] % 2 == 1
  {
    hide Bit;
    BitIsDigit(packed[i / 8], i % 8);
    Pow2Below8(i % 8);
  }

  // ---- Scalars past the end ----

  /** Missing bytes give zeros, and what is left of a number too short is consumed. */
  lemma ShortBytes(bs: seq<byte>)
    ensures Decode(2, []) == Read(Bool(false), []) && Decode(3, []) == Read(Byte(0), [])
    ensures Decode(11, []) == Read(Int(0), []) == Decode(12, [])
    ensures Decode(15, []) == Read(Long(0), []) == Decode(16, [])
  {
    hide Scalar, NextByte;
    DecodeOfScalar(2, []);
    DecodeOfScalar(3, []);
    DecodeOfScalar(11, []);
    DecodeOfScalar(12, []);
    DecodeOfScalar(15, []);
    DecodeOfScalar(16, []);
    NoByte(2);
    NoByte(3);
    NoByte(11);
    NoByte(12);
    NoByte(15);
    NoByte(16);
  }

  lemma NoByte(tc: byte)
    requires tc == 2 || tc == 3 || tc == 11 || tc == 12 || tc == 15 || tc == 16
    ensures Scalar(tc, []) == Read(
      if tc == 2 then Bool(false) else if tc == 3 then Byte(0) else if tc < 13 then Int(0) else Long(0), [])
  {
    hide Text, CustomPayload, Varint.Varint, Fixed, Short16, ConstantValue;
  }

  lemma ShortWords(tc: byte, bs: seq<byte>)
    requires |bs| < 2 && (tc == 4 || tc == 13 || tc == 14 || tc == 17 || tc == 18)
    ensures Decode(tc, bs) == Read(if tc == 4 then Short(0) else if tc < 15 then Int(0) else Long(0), [])
  {
    hide Decode, Text, CustomPayload, Varint.Varint, ConstantValue, NextByte;
    DecodeOfScalar(tc, bs);
  }

  lemma ShortFloats(tc: byte, bs: seq<byte>)
    requires (tc == 5 && |bs| < 4) || (tc == 6 && |bs| < 8)
    ensures Decode(tc, bs) == Read(if tc == 5 then Float(0) else Double(0), [])
  {
    hide Decode, Text, CustomPayload, Varint.Varint, ConstantValue, NextByte, Short16;
    DecodeOfScalar(tc, bs);
  }

  lemma NothingCompressed(tc: byte)
    requires tc == 7 || tc == 9 || tc == 10
    ensures Decode(tc, []) == Read(if tc == 7 then Str([]) else if tc == 9 then Int(0) else Long(0), [])
  {
    hide Decode, CustomPayload, ConstantValue, NextByte, Short16, Fixed, Varint.Unzigzag;
    DecodeOfScalar(tc, []);
    Varint.UnzigzagMeaning(32, 0) by { Pow2IsMonotone(0, 32); }
    Varint.UnzigzagMeaning(64, 0) by { Pow2IsMonotone(0, 64); }
  }

  // ---- Lengths beyond the input ----

  lemma CountIsRead(count: Spelling, n: nat, rest: seq<byte>)
    requires IsCount(count, n)
    ensures Count(count + rest) == Read(n, rest)
  {
    hide Varint.Spells, Count;
    CountRoundTrip(count, n, rest, []);
    assert count + rest + [] == count + rest && rest + [] == rest;
  }

  /** A string or custom value longer than the input: the string is empty and the custom value nil,
      with nothing more consumed; the slim custom value takes what there is. */
  lemma OverlongLengths(count: Spelling, n: nat, id: byte, rest: seq<byte>)
    requires IsCount(count, n) && n > |rest|
    ensures Decode(7, count + rest) == Read(Str([]), rest)
    ensures Decode(19, [id] + (count + rest)) == Read(Null, rest)
    ensures id < 0x80 ==> Decode(0x80 + id, count + rest) == Read(Custom(id, rest), [])
  {
    hide Decode, Scalar, IsCount, Varint.Uvarint;
    CountIsRead(count, n, rest);
    DecodeOfScalar(7, count + rest);
    DecodeOfScalar(19, [id] + (count + rest));
    ScalarOfText(count + rest);
    ScalarOfCustomId(id, count + rest);
    if id < 0x80 {
      DecodeOfSlim(0x80 + id, count + rest);
    }
  }

  lemma ScalarOfText(bs: seq<byte>)
    ensures Scalar(7, bs) == Read(Str(Text(bs).val), Text(bs).rest)
  {
    hide Text;
  }

  lemma ScalarOfCustomId(id: byte, bs: seq<byte>)
    ensures Scalar(19, [id] + bs) == CustomPayload(id, false, bs)
  {
    hide CustomPayload;
    CutFirst(id, bs);
  }

  // ---- Arrays that the input ends ----

  /** A bare array without type code is nil, an object array without elements holds nils, and packed
      flags and bytes are padded with false and 0. */
  lemma ArraysAtEnd(count: Spelling, n: nat, bs: seq<byte>)
    requires IsCount(count, n)
    ensures Decode(0x40, count + []) == Read(Null, [])
    ensures Decode(23, count + []) == Read(Array(seq(n, _ => Null)), [])
    ensures |bs| < (n + 7) / 8 ==>
      Decode(0x42, count + bs)
      == Read(BoolArray(seq(n, i requires 0 <= i < n => i / 8 < |bs| && PackedBit(bs, i))), [])
    ensures |bs| < n ==> Decode(0x43, count + bs) == Read(ByteArray(bs + seq(n - |bs|, _ => 0)), [])
  {
    hide Decode, IsCount, Count, TypedArray, PackedBit;
    CountIsRead(count, n, []);
    CountIsRead(count, n, bs);
    DecodeOfNested(count + []);
    DecodeOfTyped(0x42, count + bs);
    DecodeOfTyped(0x43, count + bs);
    if |bs| < (n + 7) / 8 {
      FlagsAtEnd(n, count + bs, bs);
    }
    if |bs| < n {
      OctetsAtEnd(n, count + bs, bs);
    }
    NoTagged(n);
  }

  lemma NoTagged(n: nat)
    ensures TaggedElements(n, []) == Read(seq(n, _ => Null), [])
  {
    assert seq(0, _ => Null) == [];
  }

  lemma FlagsAtEnd(n: nat, whole: seq<byte>, bs: seq<byte>)
    requires Count(whole) == Read(n, bs) && |bs| < (n + 7) / 8
    ensures TypedArray(2, whole)
         == Read(BoolArray(seq(n, i requires 0 <= i < n => i / 8 < |bs| && PackedBit(bs, i))), [])
  {
    hide Count, Bit;
    var padded := Padded((n + 7) / 8, bs).val;
    forall i | 0 <= i < n
      ensures PackedBit(padded, i) == (i / 8 < |bs| && PackedBit(bs, i))
    {
      if i / 8 >= |bs| {
        ZeroHasNoBit(i % 8);
      }
    }
    assert UnpackBits(n, padded) == seq(n, i requires 0 <= i < n => i / 8 < |bs| && PackedBit(bs, i));
  }

  lemma {:induction false} ZeroHasNoBit(i: nat)
    ensures !Bit(0, i)
  {
    if i == 0 {
    } else {
      ZeroHasNoBit(i - 1);
    }
  }

  lemma OctetsAtEnd(n: nat, whole: seq<byte>, bs: seq<byte>)
    requires Count(whole) == Read(n, bs) && |bs| < n
    ensures TypedArray(3, whole) == Read(ByteArray(bs + seq(n - |bs|, _ => 0)), [])
  {
    hide Count, Elements, PackedFlags, CustomElements;
    OctetElements(n, bs);
    var padded := bs + seq(n - |bs|, _ => 0);
    assert OctetsOf(Octets(padded)) == padded;
  }

  function Octets(bs: seq<byte>): (r: seq<Value>)
    ensures |r| == |bs|
  {
    seq(|bs|, i requires 0 <= i < |bs| => Byte(bs[i]))
  }

  lemma OctetsFrom(b: byte, bs: seq<byte>)
    ensures Octets([b] + bs) == [Byte(b)] + Octets(bs)
  {
  }

  lemma {:induction false} OctetElements(n: nat, bs: seq<byte>)
    requires |bs| <= n
    ensures Elements(n, 3, bs) == Read(Octets(bs + seq(n - |bs|, _ => 0)), [])
  {
    hide Decode;
    if n == 0 {
    } else {
      hide Octets;
      var b := if bs == [] then 0 else bs[0];
      var rest := if bs == [] then [] else bs[1..];
      OctetOrZero(bs);
      OctetElements(n - 1, rest);
      var others := rest + seq(n - 1 - |rest|, _ => 0);
      assert bs + seq(n - |bs|, _ => 0) == [b] + others;
      OctetsFrom(b, others);
    }
  }

  lemma OctetOrZero(bs: seq<byte>)
    ensures Decode(3, bs) == if bs == [] then Read(Byte(0), []) else Read(Byte(bs[0]), bs[1..])
  {
    hide Text, CustomPayload, Varint.Varint, Fixed, Short16, ConstantValue;
    DecodeOfScalar(3, bs);
  }

  /** Past the end every further element is the zero of its type. */
  lemma {:induction false} ElementsPastEnd(n: nat, tc: byte, zero: Value)
    requires Decode(tc, []) == Read(zero, [])
    ensures Elements(n, tc, []) == Read(seq(n, _ => zero), [])
  {
    hide Decode;
    if n == 0 {
      assert seq(0, _ => zero) == [];
    } else {
      ElementsPastEnd(n - 1, tc, zero);
      assert seq(n, _ => zero) == [zero] + seq(n - 1, _ => zero);
    }
  }

  /** An object array that announces more elements than there are. */
  lemma {:induction false} TaggedElementsStop(n: nat, ts: seq<Tree>)
    requires WellFormedAll(ts) && n >= |ts|
    ensures TaggedElements(n, TaggedPayloads(ts)) == Read(ReadTagged(ts, false) + seq(n - |ts|, _ => Null), [])
    decreases ts
  {
    hide Decode, Payload, Tag, ReadAs, WellFormed;
    if ts == [] {
      NoTagged(n);
      assert [] + seq(n, _ => Null) == seq(n, _ => Null);
    } else {
      var tail := TaggedPayloads(ts[1..]);
      TaggedElementsStep(n, Tag(ts[0]), Payload(ts[0]) + tail);
      TreeIsRead(ts[0], tail);
      TaggedElementsStop(n - 1, ts[1..]);
      var v, vs, nulls := ReadAs(ts[0], ts[1..] != []), ReadTagged(ts[1..], false), seq(n - |ts|, _ => Null);
      assert [v] + (vs + nulls) == ([v] + vs) + nulls;
    }
  }

  // ---- Tables and dictionaries that announce more than there is ----

  /** A table ends with the input: the parameters that are there are read, a lone key after them
      is consumed and dropped. */
  lemma TableStopsWithInput(count: Spelling, n: nat, fields: seq<Field>, key: byte)
    requires IsCount(count, n) && WellFormedFields(fields)
    ensures n >= |fields| ==>
      ParamTable(count + FieldBytes(fields)) == Read(ReadFields(fields, map[], false), [])
    ensures n > |fields| ==>
      ParamTable(count + (FieldBytes(fields) + [key])) == Read(ReadFields(fields, map[], true), [])
  {
    hide Count, IsCount, ParamEntries, FieldBytes, ReadFields;
    CountIsRead(count, n, FieldBytes(fields));
    CountIsRead(count, n, FieldBytes(fields) + [key]);
    if n >= |fields| {
      EntriesStop(n, fields, [], map[]);
      assert FieldBytes(fields) + [] == FieldBytes(fields);
    }
    if n > |fields| {
      EntriesStop(n, fields, [key], map[]);
    }
  }

  lemma {:induction false} EntriesStop(n: nat, fields: seq<Field>, rest: seq<byte>, m: Params)
    requires WellFormedFields(fields) && |rest| <= 1 && n >= |fields| + |rest|
    ensures ParamEntries(n, FieldBytes(fields) + rest, m) == Read(ReadFields(fields, m, rest != []), [])
    decreases fields
  {
    hide FieldByte, WellFormedField, Tag, ReadField, Decode;
    if fields == [] {
      assert [] + rest == rest;
    } else {
      var tail := FieldBytes(fields[1..]) + rest;
      assert FieldBytes(fields) + rest == FieldByte(fields[0]) + tail;
      FieldsTakeBytes(fields[1..]);
      assert tail != [] <==> (rest != [] || fields[1..] != []);
      FieldIsRead(fields[0], tail, m);
      EntriesStop(n - 1, fields[1..], rest, ReadField(fields[0], m, tail != []));
    }
  }

  /** So does a dictionary. */
  lemma DictionaryStopsWithInput(keyType: byte, valType: byte, count: Spelling, n: nat, items: seq<Item>)
    requires IsCount(count, n) && n >= |items|
    requires WellFormedItems(keyType, valType, items) && IsKept(keyType, valType, items, false)
    ensures Decode(20, [keyType, valType] + (count + ItemBytes(keyType, valType, items)))
         == Read(Dict(ReadItems(keyType, valType, 0, items, [], false)), [])
  {
    hide Decode, Count, IsCount, DictEntries, ItemBytes, ReadItems, IsKept, WellFormedItems;
    var body := ItemBytes(keyType, valType, items);
    var bs := [keyType, valType] + (count + body);
    CountIsRead(count, n, body);
    DecodeOfNested(bs);
    assert bs[1..][1..] == count + body;
    DictEntriesStop(0, n, keyType, valType, items, []);
  }

  lemma {:induction false} DictEntriesStop(
      i: nat, n: nat, keyType: byte, valType: byte, items: seq<Item>, m: seq<Entry>)
    requires WellFormedItems(keyType, valType, items) && n >= i + |items|
    requires IsKept(keyType, valType, items, false)
    ensures DictEntries(i, n, keyType, valType, ItemBytes(keyType, valType, items), m)
         == Read(ReadItems(keyType, valType, i, items, m, false), [])
    decreases items
  {
    hide DictEntry, ItemByte, WellFormedItem, NoEntryBytes, Put, StoredKey, ReadKey, ReadVal;
    if items == [] {
    } else {
      var tail := ItemBytes(keyType, valType, items[1..]);
      assert ItemByte(keyType, valType, items[0]) + tail != [] by { EntryIsEmpty(keyType, valType, items[0]); }
      EntryIsRead(keyType, valType, items[0], tail);
      var next := Put(m, StoredKey(i, ReadKey(items[0], tail != [])), ReadVal(items[0], tail != []));
      DictEntriesStop(i + 1, n, keyType, valType, items[1..], next);
    }
  }

  // ---- Messages that are too short ----

  /** A response below 3 bytes is nil and consumes nothing; with exactly 3, debug text and table are
      empty. A request or event without bytes has code 0 and no parameters. */
  lemma ShortMessages(bs: seq<byte>)
    ensures |bs| < 3 ==> Decode(25, bs) == Read(Null, bs)
    ensures |bs| == 3 ==>
      Decode(25, bs) == Read(Response(bs[0], ToInt16(bs[1] as int + 0x100 * (bs[2] as int)), [], map[]), [])
    ensures Decode(24, []) == Read(Request(0, map[]), []) && Decode(26, []) == Read(Event(0, map[]), [])
  {
    hide Decode, ParamTable, ResponseBody;
    DecodeOfNested(bs);
    DecodeOfNested([]);
    NoTable();
    ShortResponse(bs);
  }

  lemma ShortResponse(bs: seq<byte>)
    ensures |bs| < 3 ==> ResponseBody(bs) == Read(Null, bs)
    ensures |bs| == 3 ==>
      ResponseBody(bs) == Read(Response(bs[0], ToInt16(bs[1] as int + 0x100 * (bs[2] as int)), [], map[]), [])
  {
    hide Decode, ParamTable;
    NoTable();
    if |bs| == 3 {
      assert bs[1..][2..] == [];
    }
  }

  lemma NoTable()
    ensures ParamTable([]) == Read(map[], [])
  {
    assert Count([]) == Read(0, []);
  }
}
