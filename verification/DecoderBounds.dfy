/** What holds of decoding on every input, well-formed or not: the unread bytes are always a
    suffix of the input, and values nest no deeper than the input is long. Termination itself is
    the measure of the functions in `Protocol18`: unread bytes first, then the function, then the
    elements still wanted, although a count may exceed the bytes there are. */
module DecoderBounds {
  import opened Bytes
  import opened Values
  import opened Protocol18
  import Varint

  ghost predicate AllDepth(vs: seq<Value>, d: nat) {
    forall i :: 0 <= i < |vs| ==> DepthAtMost(vs[i], d)
  }

  ghost predicate EntriesDepth(m: seq<Entry>, d: nat) {
    forall i :: 0 <= i < |m| ==> DepthAtMost(m[i].key, d) && DepthAtMost(m[i].val, d)
  }

  ghost predicate TableDepth(m: Params, d: nat) {
    forall k :: k in m ==> DepthAtMost(m[k], d)
  }

  lemma {:induction false} DepthIsMonotone(v: Value, d: nat, e: nat)
    requires DepthAtMost(v, d) && d <= e
    ensures DepthAtMost(v, e)
    decreases d, 1
  {
    match v
    case Array(elems) =>
      forall i | 0 <= i < |elems| && d > 0
        ensures DepthAtMost(elems[i], e - 1)
      {
        DepthIsMonotone(elems[i], d - 1, e - 1);
      }
    case Dict(entries) =>
      forall i | 0 <= i < |entries| && d > 0
        ensures DepthAtMost(entries[i].key, e - 1) && DepthAtMost(entries[i].val, e - 1)
      {
        DepthIsMonotone(entries[i].key, d - 1, e - 1);
        DepthIsMonotone(entries[i].val, d - 1, e - 1);
      }
    case Request(_, params) => TableDepthIsMonotone(params, d, e);
    case Response(_, _, _, params) => TableDepthIsMonotone(params, d, e);
    case Event(_, params) => TableDepthIsMonotone(params, d, e);
    case _ =>
  }

  lemma {:induction false} TableDepthIsMonotone(params: Params, d: nat, e: nat)
    requires ParamsDepthAtMost(params, d) && d <= e
    ensures ParamsDepthAtMost(params, e)
    decreases d, 0
  {
    forall k | k in params && d > 0
      ensures DepthAtMost(params[k], e - 1)
    {
      DepthIsMonotone(params[k], d - 1, e - 1);
    }
  }

  lemma UvarintSuffix(width: nat, bs: seq<byte>)
    requires width == 32 || width == 64
    ensures IsSuffix(Varint.Uvarint(width, bs).rest, bs)
  {
    hide Varint.Loop, Varint.Groups, Varint.Uvarint;
    Varint.UvarintMeaning(width, bs);
  }

  lemma TextSuffix(bs: seq<byte>)
    ensures IsSuffix(Text(bs).rest, bs)
  {
    hide Varint.Uvarint;
    UvarintSuffix(32, bs);
    var n := Varint.Uvarint(32, bs);
    SuffixIsTransitive(Text(bs).rest, n.rest, bs);
  }

  lemma CustomSuffix(id: byte, slim: bool, bs: seq<byte>)
    ensures IsSuffix(CustomPayload(id, slim, bs).rest, bs)
    ensures DepthAtMost(CustomPayload(id, slim, bs).val, 0)
  {
    hide Varint.Uvarint;
    UvarintSuffix(32, bs);
    SuffixIsTransitive(CustomPayload(id, slim, bs).rest, Count(bs).rest, bs);
  }

  lemma ConstantDepth(tc: byte)
    ensures IsConstant(tc) ==> DepthAtMost(ConstantValue(tc), 0)
  {
    hide Ascii, Hex2;
  }

  lemma ScalarOfCustom(tc: byte, bs: seq<byte>)
    requires tc == TYPE_CUSTOM
    ensures Scalar(tc, bs) == var id := NextByte(bs); CustomPayload(id.val, false, id.rest)
  {
    hide CustomPayload, NextByte, Text, Varint.Varint, Fixed, Short16;
  }

  lemma CustomScalarBounds(tc: byte, bs: seq<byte>)
    requires tc == TYPE_CUSTOM
    ensures IsSuffix(Scalar(tc, bs).rest, bs) && DepthAtMost(Scalar(tc, bs).val, 0)
  {
    hide CustomPayload, NextByte, Scalar, DepthAtMost, IsSuffix;
    var id := NextByte(bs);
    ScalarOfCustom(tc, bs);
    NextByteSuffix(bs);
    CustomSuffix(id.val, false, id.rest);
    SuffixIsTransitive(CustomPayload(id.val, false, id.rest).rest, id.rest, bs);
  }

  /** A value without nested values. */
  predicate IsPlain(v: Value) {
    v.Null? || v.Bool? || v.Byte? || v.Short? || v.Int? || v.Long? || v.Float? || v.Double? || v.Str?
  }

  lemma PlainDepth(v: Value)
    requires IsPlain(v)
    ensures DepthAtMost(v, 0)
  {
  }

  lemma OctetScalarBounds(tc: byte, bs: seq<byte>)
    requires tc == TYPE_BOOLEAN || tc == TYPE_BYTE || tc == TYPE_INT1 || tc == TYPE_INT1_NEG
      || tc == TYPE_LONG1 || tc == TYPE_LONG1_NEG
    ensures IsSuffix(Scalar(tc, bs).rest, bs) && DepthAtMost(Scalar(tc, bs).val, 0)
  {
    hide NextByte, Fixed, Short16, Text, Varint.Varint, CustomPayload, ConstantValue, IsConstant, IsSuffix, DepthAtMost;
    PlainDepth(Scalar(tc, bs).val);
    NextByteSuffix(bs);
  }

  lemma FixedScalarBounds(tc: byte, bs: seq<byte>)
    requires tc == TYPE_FLOAT || tc == TYPE_DOUBLE || tc == TYPE_INT2 || tc == TYPE_INT2_NEG
      || tc == TYPE_LONG2 || tc == TYPE_LONG2_NEG
    ensures IsSuffix(Scalar(tc, bs).rest, bs) && DepthAtMost(Scalar(tc, bs).val, 0)
  {
    hide NextByte, Fixed, Short16, Text, Varint.Varint, CustomPayload, ConstantValue, IsConstant, IsSuffix, DepthAtMost;
    PlainDepth(Scalar(tc, bs).val);
    FixedSuffix(2, bs);
    FixedSuffix(4, bs);
    FixedSuffix(8, bs);
  }

  lemma OtherScalarBounds(tc: byte, bs: seq<byte>)
    requires tc == TYPE_SHORT || tc == TYPE_STRING || tc == TYPE_COMPRESSED_INT || tc == TYPE_COMPRESSED_LONG
    ensures IsSuffix(Scalar(tc, bs).rest, bs) && DepthAtMost(Scalar(tc, bs).val, 0)
  {
    hide NextByte, Fixed, Short16, Text, Varint.Varint, CustomPayload, ConstantValue, IsConstant, IsSuffix, DepthAtMost;
    PlainDepth(Scalar(tc, bs).val);
    ShortSuffix(bs);
    TextSuffix(bs);
    VarintSuffix(32, bs);
    VarintSuffix(64, bs);
  }

  lemma ConstantScalarBounds(tc: byte, bs: seq<byte>)
    requires IsConstant(tc)
    ensures IsSuffix(Scalar(tc, bs).rest, bs) && DepthAtMost(Scalar(tc, bs).val, 0)
  {
    hide NextByte, Fixed, Short16, Text, Varint.Varint, CustomPayload, ConstantValue, IsSuffix;
    ConstantDepth(tc);
    DropIsSuffix(bs, 0);
  }

  lemma ScalarBounds(tc: byte, bs: seq<byte>)
    requires tc < TYPE_ARRAY
    ensures IsSuffix(Scalar(tc, bs).rest, bs) && DepthAtMost(Scalar(tc, bs).val, 0)
  {
    if IsConstant(tc) {
      ConstantScalarBounds(tc, bs);
    } else if tc == TYPE_CUSTOM {
      CustomScalarBounds(tc, bs);
    } else if tc == TYPE_SHORT || TYPE_STRING <= tc <= TYPE_COMPRESSED_LONG {
      OtherScalarBounds(tc, bs);
    } else if TYPE_BOOLEAN <= tc <= TYPE_BYTE || TYPE_INT1 <= tc <= TYPE_INT1_NEG
              || TYPE_LONG1 <= tc <= TYPE_LONG1_NEG {
      OctetScalarBounds(tc, bs);
    } else if tc <= TYPE_LONG2_NEG {
      FixedScalarBounds(tc, bs);
    } else {
      NestedTagBounds(tc, bs);
    }
  }

  /** The type codes of nested values, which are decoded elsewhere. */
  lemma NestedTagBounds(tc: byte, bs: seq<byte>)
    requires TYPE_CUSTOM < tc < TYPE_ARRAY && !IsConstant(tc)
    ensures IsSuffix(Scalar(tc, bs).rest, bs) && DepthAtMost(Scalar(tc, bs).val, 0)
  {
    hide NextByte, Fixed, Short16, Text, Varint.Varint, CustomPayload, ConstantValue, IsConstant, IsSuffix;
    DropIsSuffix(bs, 0);
  }

  lemma FixedSuffix(k: nat, bs: seq<byte>)
    ensures IsSuffix(Fixed(k, bs).rest, bs)
  {
    hide LittleEndian;
  }

  lemma ShortSuffix(bs: seq<byte>)
    ensures IsSuffix(Short16(bs).rest, bs)
  {
  }

  lemma VarintSuffix(width: nat, bs: seq<byte>)
    requires Varint.IsWidth(width)
    ensures IsSuffix(Varint.Varint(width, bs).rest, bs)
  {
    hide Varint.Uvarint, Varint.Unzigzag;
    UvarintSuffix(width, bs);
  }

  /** Every value decodes to a suffix of the input, and is nested no deeper than its length. */
  lemma {:induction false} DecodeBounds(tc: byte, bs: seq<byte>)
    ensures IsSuffix(Decode(tc, bs).rest, bs)
    ensures DepthAtMost(Decode(tc, bs).val, |bs|)
    decreases |bs| + 1, 1, 0
  {
    hide Scalar, TypedArray, NestedArray, ObjectArray, Dictionary, RequestBody, ResponseBody, EventBody;
    hide CustomPayload, DepthAtMost;
    if tc >= CUSTOM_SLIM_BASE {
      CustomSuffix(tc % 0x80, true, bs);
      DepthIsMonotone(Decode(tc, bs).val, 0, |bs|);
    } else if tc == TYPE_ARRAY {
      NestedArrayBounds(bs);
    } else if tc > TYPE_ARRAY {
      TypedArrayBounds(tc - TYPE_ARRAY, bs);
    } else if tc == TYPE_DICTIONARY || tc == TYPE_HASHTABLE {
      DictionaryBounds(bs);
    } else if tc == TYPE_OBJECT_ARRAY {
      ObjectArrayBounds(bs);
    } else if tc == TYPE_OPERATION_REQUEST {
      RequestBounds(bs);
    } else if tc == TYPE_EVENT_DATA {
      EventBounds(bs);
    } else if tc == TYPE_OPERATION_RESPONSE {
      ResponseBounds(bs);
    } else {
      ScalarBounds(tc, bs);
      DepthIsMonotone(Scalar(tc, bs).val, 0, |bs|);
    }
  }

  lemma {:induction false} ElementsBounds(n: nat, tc: byte, bs: seq<byte>)
    ensures IsSuffix(Elements(n, tc, bs).rest, bs)
    ensures AllDepth(Elements(n, tc, bs).val, |bs|)
    decreases if n == 0 then 0 else |bs| + 1, 2, n
  {
    hide Decode, DepthAtMost, AllDepth, IsSuffix;
    if n == 0 {
      NoElements(tc, bs);
    } else {
      var v := Decode(tc, bs);
      var vs := Elements(n - 1, tc, v.rest);
      DecodeBounds(tc, bs);
      ElementsBounds(n - 1, tc, v.rest);
      SuffixIsTransitive(vs.rest, v.rest, bs);
      AllDepthIsMonotone(vs.val, |v.rest|, |bs|);
      AllDepthCons(v.val, vs.val, |bs|);
    }
  }

  lemma NoElements(tc: byte, bs: seq<byte>)
    ensures IsSuffix(Elements(0, tc, bs).rest, bs) && AllDepth(Elements(0, tc, bs).val, |bs|)
  {
    DropIsSuffix(bs, 0);
  }

  lemma AllDepthCons(v: Value, vs: seq<Value>, d: nat)
    requires DepthAtMost(v, d) && AllDepth(vs, d)
    ensures AllDepth([v] + vs, d)
  {
    hide DepthAtMost;
  }

  lemma AllDepthIsMonotone(vs: seq<Value>, d: nat, e: nat)
    requires AllDepth(vs, d) && d <= e
    ensures AllDepth(vs, e)
  {
    forall i | 0 <= i < |vs|
      ensures DepthAtMost(vs[i], e)
    {
      DepthIsMonotone(vs[i], d, e);
    }
  }

  lemma NoTaggedElements(n: nat, bs: seq<byte>)
    requires n == 0 || bs == []
    ensures IsSuffix(TaggedElements(n, bs).rest, bs) && AllDepth(TaggedElements(n, bs).val, |bs|)
  {
  }

  lemma {:induction false} TaggedElementsBounds(n: nat, bs: seq<byte>)
    ensures IsSuffix(TaggedElements(n, bs).rest, bs)
    ensures AllDepth(TaggedElements(n, bs).val, |bs|)
    decreases if n == 0 then 0 else |bs| + 1, 2, n
  {
    hide Decode, DepthAtMost, AllDepth, IsSuffix;
    if n == 0 || bs == [] {
      NoTaggedElements(n, bs);
    } else {
      var v := Decode(bs[0], bs[1..]);
      DropIsSuffix(bs, 1);
      var vs := TaggedElements(n - 1, v.rest);
      DecodeBounds(bs[0], bs[1..]);
      DepthIsMonotone(v.val, |bs| - 1, |bs|);
      TaggedElementsBounds(n - 1, v.rest);
      SuffixIsTransitive(v.rest, bs[1..], bs);
      SuffixIsTransitive(vs.rest, v.rest, bs);
      AllDepthIsMonotone(vs.val, |v.rest|, |bs|);
      AllDepthCons(v.val, vs.val, |bs|);
    }
  }

  lemma {:induction false} CustomElementsBounds(n: nat, id: byte, bs: seq<byte>)
    ensures IsSuffix(CustomElements(n, id, bs).rest, bs)
    ensures AllDepth(CustomElements(n, id, bs).val, 0)
  {
    hide CustomPayload;
    if n == 0 {
    } else {
      var v := CustomPayload(id, false, bs);
      CustomSuffix(id, false, bs);
      CustomElementsBounds(n - 1, id, v.rest);
      SuffixIsTransitive(CustomElements(n - 1, id, v.rest).rest, v.rest, bs);
    }
  }

  /** An array built from elements that were read after its count. */
  lemma ArrayDepth(vs: seq<Value>, d: nat, e: nat)
    requires AllDepth(vs, d) && (vs != [] ==> d < e)
    ensures DepthAtMost(Array(vs), e)
  {
    if vs != [] {
      AllDepthIsMonotone(vs, d, e - 1);
    }
  }

  lemma {:induction false} NestedArrayBounds(bs: seq<byte>)
    ensures IsSuffix(NestedArray(bs).rest, bs) && DepthAtMost(NestedArray(bs).val, |bs|)
    decreases |bs| + 1, 0, 0
  {
    hide Count, Elements, DepthAtMost, IsSuffix;
    var n := Count(bs);
    CountSuffix(bs);
    if n.rest == [] {
      DepthIsMonotone(Null, 0, |bs|) by { NullIsFlat(); }
    } else {
      DropIsSuffix(n.rest, 1);
      var vs := Elements(n.val, n.rest[0], n.rest[1..]);
      ElementsBounds(n.val, n.rest[0], n.rest[1..]);
      SuffixIsTransitive(vs.rest, n.rest[1..], n.rest);
      SuffixIsTransitive(vs.rest, n.rest, bs);
      ArrayDepth(vs.val, |n.rest| - 1, |bs|);
    }
  }

  lemma DropIsSuffix(bs: seq<byte>, k: nat)
    requires k <= |bs|
    ensures IsSuffix(bs[k..], bs)
  {
  }

  lemma NullIsFlat()
    ensures DepthAtMost(Null, 0)
  {
  }

  lemma {:induction false} ObjectArrayBounds(bs: seq<byte>)
    ensures IsSuffix(ObjectArray(bs).rest, bs) && DepthAtMost(ObjectArray(bs).val, |bs|)
    decreases |bs| + 1, 0, 0
  {
    hide Count, TaggedElements, DepthAtMost, IsSuffix;
    var n := Count(bs);
    CountSuffix(bs);
    var vs := TaggedElements(n.val, n.rest);
    TaggedElementsBounds(n.val, n.rest);
    SuffixIsTransitive(vs.rest, n.rest, bs);
    ArrayDepth(vs.val, |n.rest|, |bs|);
  }

  lemma PackedDepth(elemType: byte, vs: seq<Value>, d: nat)
    requires DepthAtMost(Array(vs), d)
    ensures DepthAtMost(Packed(elemType, vs), d)
  {
  }

  lemma FlagsSuffix(n: nat, bs: seq<byte>)
    ensures IsSuffix(PackedFlags(n, bs).rest, bs)
  {
    hide UnpackBits;
    var p := Padded((n + 7) / 8, bs);
    PaddedSuffix((n + 7) / 8, bs);
  }

  lemma PaddedSuffix(n: nat, bs: seq<byte>)
    ensures IsSuffix(Padded(n, bs).rest, bs)
  {
  }

  lemma FlagsAreFlat(flags: seq<bool>, d: nat)
    ensures DepthAtMost(BoolArray(flags), d)
  {
  }

  lemma CustomArrayBounds(n: nat, bs: seq<byte>, e: nat)
    requires n > 0 ==> e > 0
    ensures var id := NextByte(bs); var vs := CustomElements(n, id.val, id.rest);
      IsSuffix(vs.rest, bs) && DepthAtMost(Array(vs.val), e)
  {
    hide CustomElements, DepthAtMost, IsSuffix, EntryType, NextByte;
    var id := NextByte(bs);
    var vs := CustomElements(n, id.val, id.rest);
    NextByteSuffix(bs);
    CustomElementsBounds(n, id.val, id.rest);
    SuffixIsTransitive(vs.rest, id.rest, bs);
    ArrayDepth(vs.val, 0, e);
  }

  lemma NextByteSuffix(bs: seq<byte>)
    ensures IsSuffix(NextByte(bs).rest, bs)
  {
  }

  lemma CountSuffix(bs: seq<byte>)
    ensures IsSuffix(Count(bs).rest, bs)
  {
    UvarintSuffix(32, bs);
  }

  lemma {:induction false} TypedArrayBounds(elemType: byte, bs: seq<byte>)
    requires elemType < TYPE_ARRAY
    ensures IsSuffix(TypedArray(elemType, bs).rest, bs) && DepthAtMost(TypedArray(elemType, bs).val, |bs|)
    decreases |bs| + 1, 0, 0
  {
    hide Count, Elements, CustomElements, Packed, PackedFlags, NextByte, IsSuffix, DepthAtMost;
    var n := Count(bs);
    CountSuffix(bs);
    if elemType == TYPE_BOOLEAN {
      FlagsSuffix(n.val, n.rest);
      SuffixIsTransitive(PackedFlags(n.val, n.rest).rest, n.rest, bs);
      FlagsAreFlat(PackedFlags(n.val, n.rest).val, |bs|);
    } else if elemType == TYPE_CUSTOM {
      CustomArrayBounds(n.val, n.rest, |bs|);
      var id := NextByte(n.rest);
      SuffixIsTransitive(CustomElements(n.val, id.val, id.rest).rest, n.rest, bs);
    } else {
      var vs := Elements(n.val, elemType, n.rest);
      ElementsBounds(n.val, elemType, n.rest);
      SuffixIsTransitive(vs.rest, n.rest, bs);
      ArrayDepth(vs.val, |n.rest|, |bs|);
      PackedDepth(elemType, vs.val, |bs|);
    }
  }

  lemma {:induction false} PutDepth(m: seq<Entry>, key: Value, val: Value, d: nat)
    requires EntriesDepth(m, d) && DepthAtMost(key, d) && DepthAtMost(val, d)
    ensures EntriesDepth(Put(m, key, val), d)
  {
    hide KeyEq, DepthAtMost;
    if m == [] {
    } else {
      PutDepth(m[1..], key, val, d);
      assert forall i :: 0 <= i < |m| - 1 ==> m[1..][i] == m[i + 1];
    }
  }

  lemma StoredKeyDepth(i: nat, key: Value, d: nat)
    requires DepthAtMost(key, d)
    ensures DepthAtMost(StoredKey(i, key), d)
  {
  }

  lemma EntriesDepthIsMonotone(m: seq<Entry>, d: nat, e: nat)
    requires EntriesDepth(m, d) && d <= e
    ensures EntriesDepth(m, e)
  {
    forall i | 0 <= i < |m|
      ensures DepthAtMost(m[i].key, e) && DepthAtMost(m[i].val, e)
    {
      DepthIsMonotone(m[i].key, d, e);
      DepthIsMonotone(m[i].val, d, e);
    }
  }

  lemma EntryTypeSuffix(fixed: byte, bs: seq<byte>)
    ensures IsSuffix(EntryType(fixed, bs).rest, bs)
  {
  }

  lemma {:induction false} DictEntryBounds(keyType: byte, valType: byte, bs: seq<byte>)
    ensures var e := DictEntry(keyType, valType, bs);
      IsSuffix(e.rest, bs) && DepthAtMost(e.val.key, |bs|) && DepthAtMost(e.val.val, |bs|)
    decreases |bs| + 1, 1, 1
  {
    hide Decode, DepthAtMost, IsSuffix, EntryType;
    var kt := EntryType(keyType, bs);
    var vt := EntryType(valType, kt.rest);
    EntryTypeSuffix(keyType, bs);
    EntryTypeSuffix(valType, kt.rest);
    var key := Decode(kt.val, vt.rest);
    var val := Decode(vt.val, key.rest);
    DecodeBounds(kt.val, vt.rest);
    DecodeBounds(vt.val, key.rest);
    SuffixIsTransitive(vt.rest, kt.rest, bs);
    SuffixIsTransitive(key.rest, vt.rest, bs);
    SuffixIsTransitive(val.rest, key.rest, bs);
    DepthIsMonotone(key.val, |vt.rest|, |bs|);
    DepthIsMonotone(val.val, |key.rest|, |bs|);
  }

  lemma {:induction false} DictEntriesBounds(
      i: nat, count: nat, keyType: byte, valType: byte, bs: seq<byte>, m: seq<Entry>, d: nat)
    requires i <= count && EntriesDepth(m, d) && |bs| <= d
    ensures var r := DictEntries(i, count, keyType, valType, bs, m);
      IsSuffix(r.rest, bs) && EntriesDepth(r.val, d)
    decreases if i == count then 0 else |bs| + 1, 2, count - i
  {
    hide DictEntry, DepthAtMost, StoredKey, Put;
    if i < count && bs != [] {
      var e := DictEntry(keyType, valType, bs);
      DictEntryBounds(keyType, valType, bs);
      DepthIsMonotone(e.val.key, |bs|, d);
      DepthIsMonotone(e.val.val, |bs|, d);
      StoredKeyDepth(i, e.val.key, d);
      var m' := Put(m, StoredKey(i, e.val.key), e.val.val);
      PutDepth(m, StoredKey(i, e.val.key), e.val.val, d);
      DictEntriesBounds(i + 1, count, keyType, valType, e.rest, m', d);
      SuffixIsTransitive(DictEntries(i + 1, count, keyType, valType, e.rest, m').rest, e.rest, bs);
    }
  }

  lemma {:induction false} DictionaryBounds(bs: seq<byte>)
    ensures IsSuffix(Dictionary(bs).rest, bs) && DepthAtMost(Dictionary(bs).val, |bs|)
    decreases |bs| + 1, 0, 0
  {
    hide Count, DictEntries, IsSuffix, DepthAtMost, NextByte;
    var kt := NextByte(bs);
    var vt := NextByte(kt.rest);
    var n := Count(vt.rest);
    NextByteSuffix(bs);
    NextByteSuffix(kt.rest);
    CountSuffix(vt.rest);
    SuffixIsTransitive(vt.rest, kt.rest, bs);
    SuffixIsTransitive(n.rest, vt.rest, bs);
    DictEntriesBounds(0, n.val, kt.val, vt.val, n.rest, [], |n.rest|);
    var m := DictEntries(0, n.val, kt.val, vt.val, n.rest, []);
    SuffixIsTransitive(m.rest, n.rest, bs);
    NoEntriesWanted(kt.val, vt.val, n.rest);
    DictDepth(m.val, |n.rest|, |bs|);
  }

  lemma DictDepth(m: seq<Entry>, d: nat, e: nat)
    requires EntriesDepth(m, d) && (m != [] ==> d < e)
    ensures DepthAtMost(Dict(m), e)
  {
    if m != [] {
      EntriesDepthIsMonotone(m, d, e - 1);
    }
  }

  lemma NoEntriesWanted(keyType: byte, valType: byte, bs: seq<byte>)
    ensures DictEntries(0, 0, keyType, valType, bs, []) == Read([], bs)
  {
  }

  lemma TableDepthPut(m: Params, key: byte, v: Value, d: nat)
    requires TableDepth(m, d) && DepthAtMost(v, d)
    ensures TableDepth(m[key := v], d)
  {
    hide DepthAtMost;
  }

  lemma ParamEntriesEnd(n: nat, bs: seq<byte>, m: Params)
    requires n == 0 || |bs| <= 1
    ensures ParamEntries(n, bs, m).val == m && IsSuffix(ParamEntries(n, bs, m).rest, bs)
  {
  }

  lemma {:induction false} ParamEntriesBounds(n: nat, bs: seq<byte>, m: Params, d: nat)
    requires TableDepth(m, d) && |bs| <= d
    ensures var r := ParamEntries(n, bs, m); IsSuffix(r.rest, bs) && TableDepth(r.val, d)
    decreases if n == 0 then 0 else |bs| + 1, 2, n
  {
    hide Decode, DepthAtMost, IsSuffix, TableDepth;
    if n == 0 || |bs| <= 1 {
      ParamEntriesEnd(n, bs, m);
    } else {
      var v := Decode(bs[1], bs[2..]);
      DecodeBounds(bs[1], bs[2..]);
      DepthIsMonotone(v.val, |bs| - 2, d);
      var m' := m[bs[0] := v.val];
      TableDepthPut(m, bs[0], v.val, d);
      ParamEntriesBounds(n - 1, v.rest, m', d);
      DropIsSuffix(bs, 2);
      SuffixIsTransitive(v.rest, bs[2..], bs);
      SuffixIsTransitive(ParamEntries(n - 1, v.rest, m').rest, v.rest, bs);
    }
  }

  /** A table whose entries were read after its count. */
  lemma TableDepthBelow(m: Params, d: nat, e: nat)
    requires TableDepth(m, d) && (m != map[] ==> d < e)
    ensures ParamsDepthAtMost(m, e)
  {
    hide DepthAtMost;
    if m != map[] {
      forall k | k in m
        ensures DepthAtMost(m[k], e - 1)
      {
        DepthIsMonotone(m[k], d, e - 1);
      }
    }
  }

  lemma NoParamsWanted(bs: seq<byte>)
    ensures ParamEntries(0, bs, map[]) == Read(map[], bs)
  {
  }

  lemma EmptyTableDepth(d: nat)
    ensures TableDepth(map[], d)
  {
  }

  lemma {:induction false} TableBounds(bs: seq<byte>)
    ensures IsSuffix(ParamTable(bs).rest, bs) && ParamsDepthAtMost(ParamTable(bs).val, |bs|)
    decreases |bs| + 1, 0, 0
  {
    hide Count, ParamEntries, DepthAtMost, IsSuffix, TableDepth, ParamsDepthAtMost;
    var n := Count(bs);
    CountSuffix(bs);
    EmptyTableDepth(|n.rest|);
    ParamEntriesBounds(n.val, n.rest, map[], |n.rest|);
    var m := ParamEntries(n.val, n.rest, map[]);
    SuffixIsTransitive(m.rest, n.rest, bs);
    NoParamsWanted(n.rest);
    TableDepthBelow(m.val, |n.rest|, |bs|);
  }

  /** The depth of a message is that of its parameters. */
  lemma MessageDepth(op: byte, rc: int16, debug: seq<byte>, params: Params, d: nat)
    requires ParamsDepthAtMost(params, d)
    ensures DepthAtMost(Request(op, params), d) && DepthAtMost(Event(op, params), d)
    ensures DepthAtMost(Response(op, rc, debug, params), d)
  {
  }

  lemma {:induction false} RequestBounds(bs: seq<byte>)
    ensures IsSuffix(RequestBody(bs).rest, bs) && DepthAtMost(RequestBody(bs).val, |bs|)
    decreases |bs| + 1, 0, 1
  {
    hide ParamTable, NextByte, IsSuffix, DepthAtMost, ParamsDepthAtMost;
    var op := NextByte(bs);
    var ps := ParamTable(op.rest);
    assert RequestBody(bs) == Read(Request(op.val, ps.val), ps.rest);
    hide RequestBody;
    NextByteSuffix(bs);
    TableBounds(op.rest);
    SuffixIsTransitive(ps.rest, op.rest, bs);
    TableDepthIsMonotone(ps.val, |op.rest|, |bs|);
    MessageDepth(op.val, 0, [], ps.val, |bs|);
  }

  lemma {:induction false} EventBounds(bs: seq<byte>)
    ensures IsSuffix(EventBody(bs).rest, bs) && DepthAtMost(EventBody(bs).val, |bs|)
    decreases |bs| + 1, 0, 1
  {
    hide ParamTable, NextByte, IsSuffix, DepthAtMost, ParamsDepthAtMost;
    var code := NextByte(bs);
    var ps := ParamTable(code.rest);
    assert EventBody(bs) == Read(Event(code.val, ps.val), ps.rest);
    hide EventBody;
    NextByteSuffix(bs);
    TableBounds(code.rest);
    SuffixIsTransitive(ps.rest, code.rest, bs);
    TableDepthIsMonotone(ps.val, |code.rest|, |bs|);
    MessageDepth(code.val, 0, [], ps.val, |bs|);
  }

  lemma {:induction false} DebugBounds(bs: seq<byte>)
    ensures IsSuffix(DebugValue(bs).rest, bs)
    decreases |bs| + 1, 2, 0
  {
    hide Decode;
    if bs == [] {
    } else {
      DecodeBounds(bs[0], bs[1..]);
      SuffixIsTransitive(DebugValue(bs).rest, bs[1..], bs);
    }
  }

  lemma {:induction false} ResponseBounds(bs: seq<byte>)
    ensures IsSuffix(ResponseBody(bs).rest, bs) && DepthAtMost(ResponseBody(bs).val, |bs|)
    decreases |bs| + 1, 0, 0
  {
    if |bs| < 3 {
      NoResponse(bs);
    } else {
      hide ParamTable, DebugValue, IsSuffix, DepthAtMost, ParamsDepthAtMost;
      var rc := Short16(bs[1..]);
      assert rc.rest == bs[3..];
      DropIsSuffix(bs, 3);
      DebugBounds(rc.rest);
      var dbg := DebugValue(rc.rest);
      SuffixIsTransitive(dbg.rest, rc.rest, bs);
      TableBounds(dbg.rest);
      var ps := ParamTable(dbg.rest);
      SuffixIsTransitive(ps.rest, dbg.rest, bs);
      TableDepthIsMonotone(ps.val, |dbg.rest|, |bs|);
      MessageDepth(bs[0], rc.val, DebugText(dbg.val), ps.val, |bs|);
    }
  }

  lemma NoResponse(bs: seq<byte>)
    requires |bs| < 3
    ensures ResponseBody(bs) == Read(Null, bs) && IsSuffix(bs, bs) && DepthAtMost(Null, |bs|)
  {
  }

  // ---- The measure of depth ----

  /** `n` arrays, one in the other. */
  function Nest(n: nat): Value {
    if n == 0 then Null else Array([Nest(n - 1)])
  }

  /** They are nested exactly `n` deep. */
  lemma {:induction false} NestDepth(n: nat, d: nat)
    ensures DepthAtMost(Nest(n), d) <==> d >= n
  {
    if n == 0 {
    } else if d > 0 {
      NestDepth(n - 1, d - 1);
      assert [Nest(n - 1)][0] == Nest(n - 1);
    }
  }
}
