/** Decoding inverts printing, for every well-formed tree and whatever bytes follow it. */
module RoundTrip {
  import opened Bytes
  import opened Values
  import opened Protocol18
  import opened WireTree
  import Varint

  lemma CountRoundTrip(count: Spelling, n: nat, body: seq<byte>, rest: seq<byte>)
    requires IsCount(count, n)
    ensures count + body + rest == count + (body + rest)
    ensures Count(count + body + rest) == Read(n, body + rest)
  {
    hide Varint.Uvarint, Varint.Spells;
    Varint.SpellingRoundTrip(32, count, n, body + rest);
    assert count + body + rest == count + (body + rest);
  }

  lemma CutAfter(a: seq<byte>, rest: seq<byte>)
    ensures (a + rest)[..|a|] == a && (a + rest)[|a|..] == rest
  {
  }

  lemma CutFirst(x: byte, a: seq<byte>)
    ensures ([x] + a)[0] == x && ([x] + a)[1..] == a
  {
  }

  lemma TextRoundTrip(text: Chunk, rest: seq<byte>)
    requires IsChunk(text)
    ensures Text(Counted(text) + rest) == Read(text.data, rest)
  {
    hide IsCount;
    CountRoundTrip(text.length, |text.data|, text.data, rest);
    CutAfter(text.data, rest);
  }

  lemma CustomRoundTrip(id: byte, slim: bool, chunk: Chunk, rest: seq<byte>)
    requires IsChunk(chunk)
    ensures CustomPayload(id, slim, Counted(chunk) + rest) == Read(Custom(id, chunk.data), rest)
  {
    hide IsCount;
    CountRoundTrip(chunk.length, |chunk.data|, chunk.data, rest);
    CutAfter(chunk.data, rest);
  }

  lemma FixedRoundTrip(k: nat, bits: nat, rest: seq<byte>)
    requires bits < Pow256(k)
    ensures Fixed(k, ToLittleEndian(bits, k) + rest) == Read(bits, rest)
  {
    LittleEndianRoundTrip(bits, k);
    CutAfter(ToLittleEndian(bits, k), rest);
  }

  lemma ShortRoundTrip(bits: uint16, rest: seq<byte>)
    ensures Short16(ToLittleEndian(bits, 2) + rest) == Read(ToInt16(bits), rest)
  {
    assert ToLittleEndian(bits, 2) == [bits % 0x100, bits / 0x100];
    CutAfter(ToLittleEndian(bits, 2), rest);
  }

  lemma FixedTreeRoundTrip(tc: byte, bits: nat, rest: seq<byte>)
    requires WellFormed(FixedT(tc, bits))
    ensures Scalar(tc, Payload(FixedT(tc, bits)) + rest) == Read(Denote(FixedT(tc, bits)), rest)
  {
    hide Varint.Varint, Varint.Uvarint, Text, CustomPayload, ConstantValue, IsConstant, LittleEndian, ToLittleEndian;
    var k := FixedWidth(tc);
    var bs := ToLittleEndian(bits, k) + rest;
    assert Payload(FixedT(tc, bits)) + rest == bs;
    if tc == TYPE_SHORT {
      assert bits < 0x1_0000 by { Pow256Constants(); }
      assert Short16(bs) == Read(ToInt16(bits), rest) by { ShortRoundTrip(bits, rest); }
    } else {
      assert Fixed(k, bs) == Read(bits, rest) by { FixedRoundTrip(k, bits, rest); }
    }
  }

  lemma VarintTreeRoundTrip(t: Tree, rest: seq<byte>)
    requires t.VarintT? && WellFormed(t)
    ensures Scalar(t.tc, Payload(t) + rest) == Read(Denote(t), rest)
  {
    hide Varint.Spells, Varint.Zigzag, Varint.Varint;
    var width := if t.tc == TYPE_COMPRESSED_INT then 32 else 64;
    assert Varint.Varint(width, t.spelling + rest) == Read(t.num, rest) by {
      Pow2OfWidth(width);
      Varint.VarintRoundTrip(width, t.spelling, t.num, rest);
    }
  }

  lemma OctetTreeRoundTrip(tc: byte, octet: byte, rest: seq<byte>)
    requires WellFormed(OctetT(tc, octet))
    ensures Scalar(tc, Payload(OctetT(tc, octet)) + rest) == Read(Denote(OctetT(tc, octet)), rest)
  {
    assert NextByte([octet] + rest) == Read(octet, rest) by { CutFirst(octet, rest); }
  }

  lemma TextTreeRoundTrip(text: Chunk, rest: seq<byte>)
    requires IsChunk(text)
    ensures Scalar(TYPE_STRING, Payload(TextT(text)) + rest) == Read(Denote(TextT(text)), rest)
  {
    hide Text, IsChunk;
    TextRoundTrip(text, rest);
  }

  lemma CustomTreeRoundTrip(id: byte, data: Chunk, rest: seq<byte>)
    requires IsChunk(data)
    ensures Scalar(TYPE_CUSTOM, Payload(CustomT(id, data)) + rest) == Read(Denote(CustomT(id, data)), rest)
  {
    hide CustomPayload, IsChunk;
    assert Payload(CustomT(id, data)) + rest == [id] + (Counted(data) + rest);
    CutFirst(id, Counted(data) + rest);
    CustomRoundTrip(id, false, data, rest);
  }

  lemma ConstTreeRoundTrip(tc: byte, rest: seq<byte>)
    requires IsConstant(tc)
    ensures Scalar(tc, Payload(ConstT(tc)) + rest) == Read(Denote(ConstT(tc)), rest)
  {
    hide Varint.Varint, Text, CustomPayload, NextByte, Fixed, Short16, Ascii;
    assert [] + rest == rest;
  }

  predicate IsScalar(t: Tree) {
    t.ConstT? || t.OctetT? || t.FixedT? || t.VarintT? || t.TextT? || t.CustomT?
  }

  lemma ScalarRoundTrip(t: Tree, rest: seq<byte>)
    requires WellFormed(t) && IsScalar(t)
    ensures Scalar(Tag(t), Payload(t) + rest) == Read(Denote(t), rest)
  {
    hide IsChunk, Varint.Spells;
    match t
    case ConstT(tc) => ConstTreeRoundTrip(tc, rest);
    case OctetT(tc, octet) => OctetTreeRoundTrip(tc, octet, rest);
    case FixedT(tc, bits) => FixedTreeRoundTrip(tc, bits, rest);
    case VarintT(_, _, _) => VarintTreeRoundTrip(t, rest);
    case TextT(text) => TextTreeRoundTrip(text, rest);
    case CustomT(id, data) => CustomTreeRoundTrip(id, data, rest);
  }

  lemma ScalarTag(t: Tree)
    requires WellFormed(t) && IsScalar(t)
    ensures IsScalarTag(Tag(t))
  {
  }

  predicate IsScalarTag(tc: byte) {
    tc < TYPE_ARRAY && !(TYPE_DICTIONARY <= tc <= TYPE_HASHTABLE)
    && !(TYPE_OBJECT_ARRAY <= tc <= TYPE_EVENT_DATA)
  }

  lemma DecodeOfScalar(tc: byte, bs: seq<byte>)
    requires IsScalarTag(tc)
    ensures Decode(tc, bs) == Scalar(tc, bs)
  {
    hide Scalar;
  }

  lemma DecodeOfTyped(tc: byte, bs: seq<byte>)
    requires TYPE_ARRAY < tc < CUSTOM_SLIM_BASE
    ensures Decode(tc, bs) == TypedArray(tc - TYPE_ARRAY, bs)
  {
    hide Scalar, CustomPayload;
  }

  lemma DecodeOfNested(bs: seq<byte>)
    ensures Decode(0x40, bs) == NestedArray(bs) && Decode(23, bs) == ObjectArray(bs)
    ensures Decode(20, bs) == Dictionary(bs) == Decode(21, bs)
    ensures Decode(24, bs) == RequestBody(bs) && Decode(25, bs) == ResponseBody(bs) && Decode(26, bs) == EventBody(bs)
  {
    hide Scalar, CustomPayload, NestedArray, ObjectArray, Dictionary, RequestBody, EventBody, ResponseBody;
  }

  // ---- Bit-packed booleans ----

  lemma {:induction false} BitOfNat(flags: seq<bool>, i: nat)
    requires i < |flags|
    ensures Bit(BitsToNat(flags), i) == flags[i]
  {
    if i == 0 {
    } else {
      assert BitsToNat(flags) / 2 == BitsToNat(flags[1..]);
      BitOfNat(flags[1..], i - 1);
    }
  }

  lemma {:induction false} BitsBound(flags: seq<bool>)
    ensures BitsToNat(flags) < Pow2(|flags|)
  {
    if flags == [] {
    } else {
      BitsBound(flags[1..]);
    }
  }

  lemma BitsFitByte(flags: seq<bool>)
    requires |flags| <= 8
    ensures BitsToNat(flags) < 0x100
  {
    BitsBound(flags);
    Pow2IsMonotone(|flags|, 8);
    ShiftBy4(1, 0);
    ShiftBy4(1, 4);
  }

  lemma FirstPackedByte(flags: seq<bool>)
    requires flags != []
    ensures PackBits(flags)[0] == BitsToNat(if |flags| <= 8 then flags else flags[..8]) % 0x100
  {
    hide BitsToNat;
  }

  lemma LaterPackedByte(flags: seq<bool>, k: nat)
    requires |flags| > 8 && k + 1 < |PackBits(flags)|
    ensures PackBits(flags)[k + 1] == PackBits(flags[8..])[k]
  {
    hide BitsToNat;
  }

  /** Every flag is found at its bit. */
  lemma {:induction false} PackedBitIsFlag(flags: seq<bool>, i: nat)
    requires i < |flags|
    ensures PackedBit(PackBits(flags), i) == flags[i]
    decreases |flags|
  {
    hide Bit, BitsToNat, PackBits;
    if |flags| <= 8 || i < 8 {
      var low := if |flags| <= 8 then flags else flags[..8];
      FirstPackedByte(flags);
      BitsFitByte(low);
      assert i / 8 == 0 && i % 8 == i;
      BitOfNat(low, i);
    } else {
      PackedBitIsFlag(flags[8..], i - 8);
      assert i / 8 == (i - 8) / 8 + 1;
      LaterPackedByte(flags, (i - 8) / 8);
    }
  }

  lemma UnpackPack(flags: seq<bool>)
    ensures UnpackBits(|flags|, PackBits(flags)) == flags
  {
    var unpacked := UnpackBits(|flags|, PackBits(flags));
    forall i | 0 <= i < |flags|
      ensures unpacked[i] == flags[i]
    {
      PackedBitIsFlag(flags, i);
    }
  }

  lemma FlagsRoundTrip(flags: seq<bool>, rest: seq<byte>)
    ensures PackedFlags(|flags|, PackBits(flags) + rest) == Read(flags, rest)
  {
    CutAfter(PackBits(flags), rest);
    UnpackPack(flags);
  }

  lemma FlagsTreeRoundTrip(count: Spelling, flags: seq<bool>, rest: seq<byte>)
    requires IsCount(count, |flags|)
    ensures TypedArray(TYPE_BOOLEAN, Payload(FlagsT(count, flags)) + rest) == Read(BoolArray(flags), rest)
  {
    hide Count, PackBits, UnpackBits, IsCount;
    CountRoundTrip(count, |flags|, PackBits(flags), rest);
    FlagsRoundTrip(flags, rest);
  }

  // ---- Custom arrays ----

  lemma {:induction false} CustomElementsRoundTrip(id: byte, payloads: seq<Chunk>, rest: seq<byte>)
    requires AllChunks(payloads)
    ensures CustomElements(|payloads|, id, CountedAll(payloads) + rest) == Read(Customs(id, payloads), rest)
  {
    hide IsChunk, CustomPayload, Counted;
    if payloads == [] {
      assert [] + rest == rest;
    } else {
      var tail := CountedAll(payloads[1..]) + rest;
      var bs := Counted(payloads[0]) + tail;
      assert CountedAll(payloads) + rest == bs;
      CustomRoundTrip(id, false, payloads[0], tail);
      CustomElementsRoundTrip(id, payloads[1..], rest);
    }
  }

  lemma CustomsTreeRoundTrip(count: Spelling, id: byte, payloads: seq<Chunk>, rest: seq<byte>)
    requires IsCount(count, |payloads|) && AllChunks(payloads)
    ensures TypedArray(TYPE_CUSTOM, Payload(CustomsT(count, id, payloads)) + rest)
         == Read(Array(Customs(id, payloads)), rest)
  {
    hide Count, CustomElements, CountedAll, Customs, IsCount, AllChunks;
    var body := CountedAll(payloads) + rest;
    CountRoundTrip(count, |payloads|, [id] + CountedAll(payloads), rest);
    assert [id] + CountedAll(payloads) + rest == [id] + body;
    CutFirst(id, body);
    CustomElementsRoundTrip(id, payloads, rest);
  }

  // ---- What the end of a buffer leaves alone ----

  lemma {:induction false} AllFollowed(ts: seq<Tree>)
    ensures ReadAll(ts, true) == DenoteAll(ts) == ReadTagged(ts, true)
  {
    hide Denote;
    if ts == [] {
    } else {
      AllFollowed(ts[1..]);
    }
  }

  lemma ItemFollowed(i: nat, item: Item, m: seq<Entry>)
    ensures Put(m, StoredKey(i, ReadKey(item, true)), ReadVal(item, true)) == StoreItem(i, item, m)
  {
    hide Denote, Put, StoredKey;
  }

  lemma {:induction false} ItemsFollowed(keyType: byte, valType: byte, i: nat, items: seq<Item>, m: seq<Entry>)
    ensures ReadItems(keyType, valType, i, items, m, true) == StoreItems(i, items, m)
    decreases items
  {
    hide StoreItem, ReadKey, ReadVal, Put, StoredKey;
    if items == [] {
    } else {
      ItemFollowed(i, items[0], m);
      ItemsFollowed(keyType, valType, i + 1, items[1..], StoreItem(i, items[0], m));
    }
  }

  lemma FieldFollowed(field: Field, m: Params)
    ensures ReadField(field, m, true) == StoreField(field, m)
  {
    hide Denote;
  }

  lemma {:induction false} FieldsFollowed(fields: seq<Field>, m: Params)
    ensures ReadFields(fields, m, true) == StoreFields(fields, m)
    decreases fields
  {
    hide ReadField, StoreField;
    if fields == [] {
    } else {
      FieldFollowed(fields[0], m);
      FieldsFollowed(fields[1..], StoreField(fields[0], m));
    }
  }

  lemma ParamsFollowed(table: ParamList)
    ensures ReadParams(table, true) == ParamsOf(table)
  {
    hide ReadFields, StoreFields;
    FieldsFollowed(table.fields, map[]);
  }

  lemma FollowedParts(t: Tree)
    ensures t.DictT? ==> ReadItems(t.keyType, t.valType, 0, t.items, [], true) == StoreItems(0, t.items, [])
    ensures t.RequestT? || t.ResponseT? || t.EventT? ==> ReadParams(t.table, true) == ParamsOf(t.table)
    ensures t.TypedT? || t.NestedT? || t.ObjectsT? ==>
      ReadAll(t.elems, true) == DenoteAll(t.elems) == ReadTagged(t.elems, true)
  {
    hide *;
    if t.DictT? {
      ItemsFollowed(t.keyType, t.valType, 0, t.items, []);
    } else if t.RequestT? || t.ResponseT? || t.EventT? {
      ParamsFollowed(t.table);
    } else if t.TypedT? || t.NestedT? || t.ObjectsT? {
      AllFollowed(t.elems);
    }
  }

  predicate IsFlat(t: Tree) {
    IsScalar(t) || t.SlimT? || t.FlagsT? || t.CustomsT?
  }

  lemma TextOfDebug(t: Tree)
    ensures DebugText(Denote(t)) == TextIn(t)
  {
    hide Packed, DenoteAll, StoreItems, ParamsOf, Customs, ToInt16, Ascii;
    if t.TypedT? {
      SliceIsNoText(t.elemType, DenoteAll(t.elems));
    }
  }

  lemma SliceIsNoText(elemType: byte, vs: seq<Value>)
    ensures !Packed(elemType, vs).Str?
  {
  }

  /** How a tree is read from its parts, followed or not. */
  lemma ReadFromParts(t: Tree, more: bool)
    ensures t.TypedT? ==> ReadAs(t, more) == Packed(t.elemType, ReadAll(t.elems, more))
    ensures t.NestedT? ==> ReadAs(t, more) == Array(ReadAll(t.elems, more))
    ensures t.ObjectsT? ==> ReadAs(t, more) == Array(ReadTagged(t.elems, more))
    ensures t.DictT? ==>
      ReadAs(t, more) == Dict(if IsKept(t.keyType, t.valType, t.items, more)
                              then ReadItems(t.keyType, t.valType, 0, t.items, [], more) else [])
    ensures t.RequestT? ==> ReadAs(t, more) == Request(t.opCode, ReadParams(t.table, more))
    ensures t.ResponseT? ==>
      ReadAs(t, more) == Response(t.opCode, t.returnCode, TextIn(t.debug), ReadParams(t.table, more))
    ensures t.EventT? ==> ReadAs(t, more) == Event(t.code, ReadParams(t.table, more))
    ensures IsFlat(t) ==> ReadAs(t, more) == Denote(t)
  {
    hide ReadAll, ReadTagged, ReadItems, ReadParams, DenoteAll, StoreItems, ParamsOf, Packed, NoEntryBytes, TextIn;
    FollowedParts(t);
  }

  // ---- Trees with subtrees ----

  /** WHAT IS READ: decoding the payload of any well-formed tree gives exactly the value that the
      tree is read as, which depends on the bytes after it only in that there are any, and leaves
      exactly those bytes. */
  lemma {:induction false} TreeIsRead(t: Tree, rest: seq<byte>)
    requires WellFormed(t)
    ensures Decode(Tag(t), Payload(t) + rest) == Read(ReadAs(t, rest != []), rest)
    decreases t, 2
  {
    hide Decode, Payload, Tag, Denote, ReadAs, WellFormed;
    if IsScalar(t) {
      FlatIsRead(t, rest);
    } else if t.SlimT? {
      SlimIsRead(t, rest);
    } else if t.FlagsT? || t.CustomsT? || t.TypedT? {
      TypedIsRead(t, rest);
    } else if t.NestedT? {
      NestedIsRead(t, rest);
    } else if t.ObjectsT? {
      ObjectsAreRead(t, rest);
    } else if t.DictT? {
      DictIsRead(t, rest);
    } else {
      MessageIsRead(t, rest);
    }
  }

  lemma FlatIsRead(t: Tree, rest: seq<byte>)
    requires WellFormed(t) && IsScalar(t)
    ensures Decode(Tag(t), Payload(t) + rest) == Read(ReadAs(t, rest != []), rest)
  {
    hide Decode, Scalar, Payload, Denote, ReadAs;
    ReadFromParts(t, rest != []);
    ScalarTag(t);
    DecodeOfScalar(Tag(t), Payload(t) + rest);
    ScalarRoundTrip(t, rest);
  }

  lemma DecodeOfSlim(tc: byte, bs: seq<byte>)
    requires tc >= CUSTOM_SLIM_BASE
    ensures Decode(tc, bs) == CustomPayload(tc % 0x80, true, bs)
  {
    hide Scalar, CustomPayload;
  }

  lemma SlimIsRead(t: Tree, rest: seq<byte>)
    requires WellFormed(t) && t.SlimT?
    ensures Decode(Tag(t), Payload(t) + rest) == Read(ReadAs(t, rest != []), rest)
  {
    hide Decode, CustomPayload, IsChunk;
    match t
    case SlimT(id, data) =>
      DecodeOfSlim(CUSTOM_SLIM_BASE + id, Counted(data) + rest);
      CustomRoundTrip(id, true, data, rest);
  }

  lemma {:induction false} TypedIsRead(t: Tree, rest: seq<byte>)
    requires WellFormed(t) && (t.FlagsT? || t.CustomsT? || t.TypedT?)
    ensures Decode(Tag(t), Payload(t) + rest) == Read(ReadAs(t, rest != []), rest)
    decreases t, 1
  {
    hide Decode, TypedArray, IsCount, WellFormedAll, AllTagged, AllChunks;
    hide PackBits, Payloads, CountedAll, DenoteAll, Customs, Packed, ReadAs;
    DecodeOfTyped(Tag(t), Payload(t) + rest);
    ReadFromParts(t, rest != []);
    match t
    case FlagsT(count, flags) => FlagsTreeRoundTrip(count, flags, rest);
    case CustomsT(count, id, payloads) => CustomsTreeRoundTrip(count, id, payloads, rest);
    case TypedT(_, _, _) => TypedTreeIsRead(t, rest);
  }

  lemma {:induction false} TypedTreeIsRead(t: Tree, rest: seq<byte>)
    requires WellFormed(t) && t.TypedT?
    ensures TypedArray(t.elemType, Payload(t) + rest) == Read(Packed(t.elemType, ReadAll(t.elems, rest != [])), rest)
    decreases t, 0
  {
    hide Count, IsCount, Payloads, Elements, WellFormedAll, AllTagged, ReadAll, Packed;
    match t
    case TypedT(count, elemType, elems) =>
      CountRoundTrip(count, |elems|, Payloads(elems), rest);
      ElementsAreRead(elemType, elems, rest);
  }

  lemma {:induction false} ElementsAreRead(tc: byte, ts: seq<Tree>, rest: seq<byte>)
    requires WellFormedAll(ts) && AllTagged(ts, tc)
    ensures Elements(|ts|, tc, Payloads(ts) + rest) == Read(ReadAll(ts, rest != []), rest)
    decreases ts
  {
    hide Decode, Payload, Tag, ReadAs, WellFormed;
    if ts == [] {
      assert [] + rest == rest;
    } else {
      var tail := Payloads(ts[1..]) + rest;
      assert tail != [] <==> (rest != [] || Payloads(ts[1..]) != []);
      TreeIsRead(ts[0], tail);
      assert Payloads(ts) + rest == Payload(ts[0]) + tail;
      ElementsAreRead(tc, ts[1..], rest);
    }
  }

  lemma TaggedElementsStep(n: nat, tc: byte, body: seq<byte>)
    requires n > 0
    ensures var v := Decode(tc, body); var vs := TaggedElements(n - 1, v.rest);
      TaggedElements(n, [tc] + body) == Read([v.val] + vs.val, vs.rest)
  {
    hide Decode;
    CutFirst(tc, body);
  }

  lemma {:induction false} TaggedElementsAreRead(ts: seq<Tree>, rest: seq<byte>)
    requires WellFormedAll(ts)
    ensures TaggedElements(|ts|, TaggedPayloads(ts) + rest) == Read(ReadTagged(ts, rest != []), rest)
    decreases ts
  {
    hide Decode, Payload, Tag, ReadAs, WellFormed;
    if ts == [] {
      assert [] + rest == rest;
    } else {
      var tail := TaggedPayloads(ts[1..]) + rest;
      assert tail != [] <==> (rest != [] || ts[1..] != []);
      assert TaggedPayloads(ts) + rest == [Tag(ts[0])] + (Payload(ts[0]) + tail);
      TaggedElementsStep(|ts|, Tag(ts[0]), Payload(ts[0]) + tail);
      TreeIsRead(ts[0], tail);
      TaggedElementsAreRead(ts[1..], rest);
    }
  }

  lemma {:induction false} NestedIsRead(t: Tree, rest: seq<byte>)
    requires WellFormed(t) && t.NestedT?
    ensures Decode(Tag(t), Payload(t) + rest) == Read(ReadAs(t, rest != []), rest)
    decreases t, 0
  {
    hide Scalar, Elements, Payloads, Count, IsCount, ReadAs, ReadAll, WellFormedAll, AllTagged;
    ReadFromParts(t, rest != []);
    var body := [t.elemType] + Payloads(t.elems);
    CountRoundTrip(t.count, |t.elems|, body, rest);
    assert body + rest == [t.elemType] + (Payloads(t.elems) + rest);
    ElementsAreRead(t.elemType, t.elems, rest);
  }

  lemma {:induction false} ObjectsAreRead(t: Tree, rest: seq<byte>)
    requires WellFormed(t) && t.ObjectsT?
    ensures Decode(Tag(t), Payload(t) + rest) == Read(ReadAs(t, rest != []), rest)
    decreases t, 0
  {
    hide Scalar, TaggedElements, TaggedPayloads, Count, IsCount, ReadAs, ReadTagged, WellFormedAll;
    ReadFromParts(t, rest != []);
    CountRoundTrip(t.count, |t.elems|, TaggedPayloads(t.elems), rest);
    TaggedElementsAreRead(t.elems, rest);
  }

  // ---- Dictionaries ----

  lemma SpellingIsNotEmpty(width: nat, spelling: Spelling, n: nat)
    requires Varint.IsWidth(width) && Varint.Spells(width, spelling, n)
    ensures spelling != []
  {
    hide Varint.Spells;
    Varint.SpellingRoundTrip(width, spelling, n, []);
  }

  /** The spelling that a payload contains, if it does. */
  function CountOf(t: Tree): Option<Spelling> {
    match t
    case VarintT(_, spelling, _) => Some(spelling)
    case TextT(text) => Some(text.length)
    case CustomT(_, data) => Some(data.length)
    case SlimT(_, data) => Some(data.length)
    case FlagsT(count, _) => Some(count)
    case CustomsT(count, _, _) => Some(count)
    case TypedT(count, _, _) => Some(count)
    case NestedT(count, _, _) => Some(count)
    case ObjectsT(count, _) => Some(count)
    case _ => None
  }

  lemma CountIsNotEmpty(t: Tree)
    requires WellFormed(t) && CountOf(t).Some?
    ensures CountOf(t).value != []
  {
    hide Varint.Spells;
    forall width, spelling, n | Varint.IsWidth(width) && Varint.Spells(width, spelling, n)
      ensures spelling != []
    {
      SpellingIsNotEmpty(width, spelling, n);
    }
  }

  /** Only the constants have an empty payload. */
  lemma PayloadIsEmpty(t: Tree)
    requires WellFormed(t)
    ensures Payload(t) == [] <==> IsConstant(Tag(t))
  {
    hide Varint.Spells;
    if CountOf(t).Some? {
      CountIsNotEmpty(t);
    } else if t.FixedT? {
      assert |Payload(t)| == FixedWidth(t.tc) > 0;
    }
  }

  /** Where an entry takes no bytes at all. */
  lemma EntryIsEmpty(keyType: byte, valType: byte, item: Item)
    requires WellFormedItem(keyType, valType, item)
    ensures ItemByte(keyType, valType, item) == [] <==> NoEntryBytes(keyType, valType)
  {
    hide WellFormed, Payload, Tag;
    PayloadIsEmpty(item.key);
    PayloadIsEmpty(item.val);
  }

  lemma {:induction false} EntryIsRead(keyType: byte, valType: byte, item: Item, rest: seq<byte>)
    requires WellFormedItem(keyType, valType, item)
    ensures DictEntry(keyType, valType, ItemByte(keyType, valType, item) + rest)
         == Read(Entry(ReadKey(item, rest != []), ReadVal(item, rest != [])), rest)
    decreases item
  {
    hide Decode, Payload, Tag, ReadAs, WellFormed;
    match item
    case Item(key, val) =>
      var bs := ItemByte(keyType, valType, item) + rest;
      var tail := Payload(key) + (Payload(val) + rest);
      assert bs == EntryTag(keyType, key) + (EntryTag(valType, val) + tail);
      CutAfter(EntryTag(keyType, key), EntryTag(valType, val) + tail);
      CutAfter(EntryTag(valType, val), tail);
      assert EntryType(keyType, bs) == Read(Tag(key), EntryTag(valType, val) + tail);
      assert EntryType(valType, EntryTag(valType, val) + tail) == Read(Tag(val), tail);
      assert Payload(val) + rest != [] <==> (rest != [] || Payload(val) != []);
      TreeIsRead(key, Payload(val) + rest);
      TreeIsRead(val, rest);
  }

  lemma {:induction false} EntriesAreRead(
      i: nat, count: nat, keyType: byte, valType: byte, items: seq<Item>, rest: seq<byte>, m: seq<Entry>)
    requires WellFormedItems(keyType, valType, items) && count == i + |items|
    requires IsKept(keyType, valType, items, rest != [])
    ensures DictEntries(i, count, keyType, valType, ItemBytes(keyType, valType, items) + rest, m)
         == Read(ReadItems(keyType, valType, i, items, m, rest != []), rest)
    decreases items
  {
    hide DictEntry, ItemByte, WellFormedItem, NoEntryBytes, Put, StoredKey, ReadKey, ReadVal;
    if items == [] {
      assert [] + rest == rest;
    } else {
      var tail := ItemBytes(keyType, valType, items[1..]) + rest;
      var bs := ItemBytes(keyType, valType, items) + rest;
      assert bs == ItemByte(keyType, valType, items[0]) + tail;
      assert tail != [] <==> (rest != [] || ItemBytes(keyType, valType, items[1..]) != []);
      assert bs != [] by { EntryIsEmpty(keyType, valType, items[0]); }
      EntryIsRead(keyType, valType, items[0], tail);
      var next := Put(m, StoredKey(i, ReadKey(items[0], tail != [])), ReadVal(items[0], tail != []));
      EntriesAreRead(i + 1, count, keyType, valType, items[1..], rest, next);
    }
  }

  lemma {:induction false} NoItemBytes(keyType: byte, valType: byte, items: seq<Item>)
    requires WellFormedItems(keyType, valType, items) && NoEntryBytes(keyType, valType)
    ensures ItemBytes(keyType, valType, items) == []
    decreases items
  {
    hide WellFormedItem, ItemByte, NoEntryBytes;
    if items == [] {
    } else {
      EntryIsEmpty(keyType, valType, items[0]);
      NoItemBytes(keyType, valType, items[1..]);
    }
  }

  lemma EmptyBufferEndsDictionary(count: nat, keyType: byte, valType: byte)
    ensures DictEntries(0, count, keyType, valType, [] + [], []) == Read([], [])
  {
  }

  lemma {:induction false} DictIsRead(t: Tree, rest: seq<byte>)
    requires WellFormed(t) && t.DictT?
    ensures Decode(Tag(t), Payload(t) + rest) == Read(ReadAs(t, rest != []), rest)
    decreases t, 1
  {
    hide Scalar, Dictionary, DictEntries, ItemBytes, ReadItems, IsCount, NoEntryBytes, WellFormedItems, ReadAs;
    ReadFromParts(t, rest != []);
    match t
    case DictT(tc, keyType, valType, count, items) =>
      DictionaryHeader(keyType, valType, count, items, rest);
      if IsKept(keyType, valType, items, rest != []) {
        EntriesAreRead(0, |items|, keyType, valType, items, rest, []);
      } else {
        NoItemBytes(keyType, valType, items);
        EmptyBufferEndsDictionary(|items|, keyType, valType);
      }
  }

  lemma DictionaryHeader(keyType: byte, valType: byte, count: Spelling, items: seq<Item>, rest: seq<byte>)
    requires IsCount(count, |items|)
    ensures var bs := [keyType, valType] + (count + ItemBytes(keyType, valType, items)) + rest;
      var m := DictEntries(0, |items|, keyType, valType, ItemBytes(keyType, valType, items) + rest, []);
      Dictionary(bs) == Read(Dict(m.val), m.rest)
  {
    hide Count, IsCount, DictEntries, ItemBytes;
    var body := count + ItemBytes(keyType, valType, items);
    var bs := [keyType, valType] + body + rest;
    assert bs[1..][1..] == body + rest;
    CountRoundTrip(count, |items|, ItemBytes(keyType, valType, items), rest);
  }

  // ---- Parameter tables and messages ----

  lemma {:induction false} FieldIsRead(field: Field, rest: seq<byte>, m: Params)
    requires WellFormedField(field)
    ensures var bs := FieldByte(field) + rest;
      |bs| >= 2 && bs[0] == field.key
      && Decode(bs[1], bs[2..]).rest == rest
      && m[bs[0] := Decode(bs[1], bs[2..]).val] == ReadField(field, m, rest != [])
    decreases field
  {
    hide Decode, Payload, Tag, ReadAs, WellFormed;
    match field
    case Field(key, val) =>
      assert (FieldByte(field) + rest)[2..] == Payload(val) + rest;
      TreeIsRead(val, rest);
  }

  lemma FieldsTakeBytes(fields: seq<Field>)
    ensures FieldBytes(fields) != [] <==> fields != []
  {
    hide Payload, Tag;
  }

  lemma {:induction false} FieldsAreRead(fields: seq<Field>, rest: seq<byte>, m: Params)
    requires WellFormedFields(fields)
    ensures ParamEntries(|fields|, FieldBytes(fields) + rest, m) == Read(ReadFields(fields, m, rest != []), rest)
    decreases fields
  {
    hide FieldByte, WellFormedField, Tag, ReadField, Decode;
    if fields == [] {
      assert [] + rest == rest;
    } else {
      var tail := FieldBytes(fields[1..]) + rest;
      assert FieldBytes(fields) + rest == FieldByte(fields[0]) + tail;
      FieldsTakeBytes(fields[1..]);
      assert tail != [] <==> (rest != [] || fields[1..] != []);
      FieldIsRead(fields[0], tail, m);
      FieldsAreRead(fields[1..], rest, ReadField(fields[0], m, tail != []));
    }
  }

  lemma {:induction false} TableIsRead(table: ParamList, rest: seq<byte>)
    requires WellFormedTable(table)
    ensures ParamTable(TableBytes(table) + rest) == Read(ReadParams(table, rest != []), rest)
    decreases table
  {
    hide Count, IsCount, WellFormedFields, FieldBytes, ReadFields, ParamEntries;
    match table
    case ParamList(count, fields) =>
      CountRoundTrip(count, |fields|, FieldBytes(fields), rest);
      FieldsAreRead(fields, rest, map[]);
  }

  lemma {:induction false} MessageIsRead(t: Tree, rest: seq<byte>)
    requires WellFormed(t) && (t.RequestT? || t.ResponseT? || t.EventT?)
    ensures Decode(Tag(t), Payload(t) + rest) == Read(ReadAs(t, rest != []), rest)
    decreases t, 1
  {
    hide Decode, ResponseBody, Payload, ReadAs, WellFormed;
    if t.RequestT? {
      RequestIsRead(t, rest);
    } else if t.EventT? {
      EventIsRead(t, rest);
    } else {
      ResponseIsRead(t, rest);
      DecodeOfResponse(Payload(t) + rest);
    }
  }

  lemma DecodeOfResponse(bs: seq<byte>)
    ensures Decode(TYPE_OPERATION_RESPONSE, bs) == ResponseBody(bs)
  {
    hide Scalar, CustomPayload, ResponseBody;
  }

  lemma {:induction false} RequestIsRead(t: Tree, rest: seq<byte>)
    requires WellFormed(t) && t.RequestT?
    ensures Decode(Tag(t), Payload(t) + rest) == Read(ReadAs(t, rest != []), rest)
    decreases t, 0
  {
    hide Scalar, ParamTable, TableBytes, ReadParams, WellFormedTable, ReadAs;
    ReadFromParts(t, rest != []);
    assert Payload(t) + rest == [t.opCode] + (TableBytes(t.table) + rest);
    TableIsRead(t.table, rest);
  }

  lemma {:induction false} EventIsRead(t: Tree, rest: seq<byte>)
    requires WellFormed(t) && t.EventT?
    ensures Decode(Tag(t), Payload(t) + rest) == Read(ReadAs(t, rest != []), rest)
    decreases t, 0
  {
    hide Scalar, ParamTable, TableBytes, ReadParams, WellFormedTable, ReadAs;
    ReadFromParts(t, rest != []);
    assert Payload(t) + rest == [t.code] + (TableBytes(t.table) + rest);
    TableIsRead(t.table, rest);
  }

  lemma ResponseBodySplits(opCode: byte, code: seq<byte>, tc: byte, body: seq<byte>)
    requires |code| == 2
    ensures var rc := Short16(code + ([tc] + body)); var dbg := Decode(tc, body);
      var ps := ParamTable(dbg.rest);
      rc.rest == [tc] + body &&
      ResponseBody([opCode] + (code + ([tc] + body)))
        == Read(Response(opCode, rc.val, DebugText(dbg.val), ps.val), ps.rest)
  {
    var tail := [tc] + body;
    CutFirst(opCode, code + tail);
    CutAfter(code, tail);
    CutFirst(tc, body);
  }

  lemma ResponseIsLaidOut(t: Tree)
    requires WellFormed(t) && t.ResponseT?
    ensures WellFormed(t.debug) && WellFormedTable(t.table)
    ensures Payload(t) == ([t.opCode] + ToLittleEndian(FromInt16(t.returnCode), 2))
                          + ([Tag(t.debug)] + Payload(t.debug) + TableBytes(t.table))
  {
    hide Tag, TableBytes, WellFormedTable, ToLittleEndian;
  }

  lemma ResponseBytes(
      op: seq<byte>, code: seq<byte>, tag: seq<byte>, payload: seq<byte>, table: seq<byte>, rest: seq<byte>)
    ensures (op + code) + (tag + payload + table) + rest == op + (code + (tag + (payload + (table + rest))))
  {
  }

  lemma TableIsNotEmpty(table: ParamList)
    requires WellFormedTable(table)
    ensures TableBytes(table) != []
  {
    hide Varint.Spells, WellFormedFields, FieldBytes;
    SpellingIsNotEmpty(32, table.count, |table.fields|);
  }

  lemma FollowedIsDenoted(t: Tree)
    ensures ReadAs(t, true) == Denote(t)
  {
    hide Denote;
  }

  lemma {:induction false} ResponseIsRead(t: Tree, rest: seq<byte>)
    requires WellFormed(t) && t.ResponseT?
    ensures ResponseBody(Payload(t) + rest) == Read(ReadAs(t, rest != []), rest)
    decreases t, 0
  {
    hide Decode, ParamTable, ResponseBody, TableBytes, ReadParams, ReadAs, Denote;
    hide Payload, Tag, WellFormed, WellFormedTable, TextIn, DebugText, ToLittleEndian;
    ReadFromParts(t, rest != []);
    ResponseIsLaidOut(t);
    match t
    case ResponseT(opCode, returnCode, debug, params) =>
      var code := ToLittleEndian(FromInt16(returnCode), 2);
      var table := TableBytes(params) + rest;
      var body := Payload(debug) + table;
      ResponseBytes([opCode], code, [Tag(debug)], Payload(debug), TableBytes(params), rest);
      ResponseBodySplits(opCode, code, Tag(debug), body);
      ShortRoundTrip(FromInt16(returnCode), [Tag(debug)] + body);
      TableIsNotEmpty(params);
      TreeIsRead(debug, table);
      FollowedIsDenoted(debug);
      TextOfDebug(debug);
      TableIsRead(params, rest);
  }

  // ---- Maps with distinct keys ----

  /** Keys that a Go map keeps apart. */
  ghost predicate DistinctKeys(items: seq<Item>) {
    && (forall a :: 0 <= a < |items| ==> IsComparable(Denote(items[a].key)))
    && (forall a, b :: 0 <= a < b < |items| ==> !KeyEq(Denote(items[a].key), Denote(items[b].key)))
  }

  function ItemValue(item: Item): Entry {
    Entry(Denote(item.key), Denote(item.val))
  }

  function ItemValues(items: seq<Item>): seq<Entry> {
    if items == [] then [] else [ItemValue(items[0])] + ItemValues(items[1..])
  }

  ghost predicate KeysAbsent(m: seq<Entry>, items: seq<Item>) {
    forall a, b :: 0 <= a < |m| && 0 <= b < |items| ==> !KeyEq(m[a].key, Denote(items[b].key))
  }

  lemma StoreFirst(i: nat, items: seq<Item>, m: seq<Entry>)
    requires items != [] && DistinctKeys(items) && KeysAbsent(m, items)
    ensures StoreItem(i, items[0], m) == m + [ItemValue(items[0])]
    ensures DistinctKeys(items[1..]) && KeysAbsent(m + [ItemValue(items[0])], items[1..])
  {
    hide Denote, KeyEq, IsComparable;
    StoreOfComparable(i, items[0], m);
    PutNew(m, Denote(items[0].key), Denote(items[0].val));
  }

  /** With distinct comparable keys, no entry is overwritten or renamed: the map holds exactly
      the items. */
  lemma {:induction false} DistinctItemsAreKept(i: nat, items: seq<Item>, m: seq<Entry>)
    requires DistinctKeys(items) && KeysAbsent(m, items)
    ensures StoreItems(i, items, m) == m + ItemValues(items)
    decreases items
  {
    hide Denote, KeyEq, IsComparable, StoreItem, DistinctKeys, KeysAbsent;
    if items == [] {
      assert m + ItemValues(items) == m;
    } else {
      var e := ItemValue(items[0]);
      StoreFirst(i, items, m);
      DistinctItemsAreKept(i + 1, items[1..], m + [e]);
      assert m + [e] + ItemValues(items[1..]) == m + ([e] + ItemValues(items[1..]));
    }
  }

  lemma StoreOfComparable(i: nat, item: Item, m: seq<Entry>)
    requires IsComparable(Denote(item.key))
    ensures StoreItem(i, item, m) == Put(m, Denote(item.key), Denote(item.val))
  {
  }
}
