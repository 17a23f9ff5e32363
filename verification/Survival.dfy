/** Exactly which trees are read back as what they stand for. Only the end of a buffer can do harm:
    the loop over a dictionary's entries also stops with the input, so a dictionary whose entries
    take no bytes loses them there. */
module Survival {
  import opened Bytes
  import opened Values
  import opened Protocol18
  import opened WireTree
  import opened RoundTrip
  import Varint

  /** No dictionary that the buffer's end reaches loses its entries. Keys are exempt: a value with
      a dictionary in it cannot be a map key, and is stored under a name made from its type. */
  predicate Survives(t: Tree, more: bool)
    decreases t
  {
    more ||
    match t
    case TypedT(_, _, elems) => AllSurvive(elems)
    case NestedT(_, _, elems) => AllSurvive(elems)
    case ObjectsT(_, elems) => LastSurvives(elems)
    case DictT(_, keyType, valType, _, items) =>
      IsKept(keyType, valType, items, false) && ItemsSurvive(keyType, valType, items)
    case RequestT(_, table) => TableSurvives(table)
    case ResponseT(_, _, _, table) => TableSurvives(table)
    case EventT(_, table) => TableSurvives(table)
    case _ => true
  }

  predicate AllSurvive(ts: seq<Tree>)
    decreases ts
  {
    ts == [] || (Survives(ts[0], Payloads(ts[1..]) != []) && AllSurvive(ts[1..]))
  }

  predicate LastSurvives(ts: seq<Tree>)
    decreases ts
  {
    ts == [] || (Survives(ts[0], ts[1..] != []) && LastSurvives(ts[1..]))
  }

  predicate ItemSurvives(item: Item, more: bool)
    decreases item
  {
    match item
    case Item(_, val) => Survives(val, more)
  }

  predicate ItemsSurvive(keyType: byte, valType: byte, items: seq<Item>)
    decreases items
  {
    items == []
    || (ItemSurvives(items[0], ItemBytes(keyType, valType, items[1..]) != [])
        && ItemsSurvive(keyType, valType, items[1..]))
  }

  predicate FieldSurvives(field: Field, more: bool)
    decreases field
  {
    match field
    case Field(_, val) => Survives(val, more)
  }

  predicate FieldsSurvive(fields: seq<Field>)
    decreases fields
  {
    fields == [] || (FieldSurvives(fields[0], fields[1..] != []) && FieldsSurvive(fields[1..]))
  }

  predicate TableSurvives(table: ParamList)
    decreases table
  {
    match table
    case ParamList(_, fields) => FieldsSurvive(fields)
  }

  // ---- Reading what a tree stands for is surviving ----

  lemma {:induction false} ReadExactly(t: Tree, more: bool)
    requires WellFormed(t)
    ensures ReadAs(t, more) == Denote(t) <==> Survives(t, more)
    decreases t, 1
  {
    hide ReadAs, Denote, WellFormed, Survives;
    if more {
      FollowedIsDenoted(t);
      FollowedSurvives(t);
    } else if t.TypedT? || t.NestedT? || t.ObjectsT? {
      ArrayExactly(t);
    } else if t.DictT? {
      DictExactly(t);
    } else if t.RequestT? || t.ResponseT? || t.EventT? {
      MessageExactly(t);
    } else {
      FlatSurvives(t, false);
    }
  }

  lemma FollowedSurvives(t: Tree)
    ensures Survives(t, true)
  {
  }

  lemma FlatSurvives(t: Tree, more: bool)
    requires IsFlat(t)
    ensures ReadAs(t, more) == Denote(t) && Survives(t, more)
  {
    hide Denote;
  }

  // ---- Arrays ----

  lemma {:induction false} AllExactly(ts: seq<Tree>)
    requires WellFormedAll(ts)
    ensures ReadAll(ts, false) == DenoteAll(ts) <==> AllSurvive(ts)
    decreases ts
  {
    hide ReadAs, Denote, WellFormed, Survives, Payloads;
    if ts == [] {
    } else {
      ReadExactly(ts[0], Payloads(ts[1..]) != []);
      AllExactly(ts[1..]);
      SameCons(ReadAs(ts[0], Payloads(ts[1..]) != []), ReadAll(ts[1..], false), Denote(ts[0]), DenoteAll(ts[1..]));
    }
  }

  lemma {:induction false} LastExactly(ts: seq<Tree>)
    requires WellFormedAll(ts)
    ensures ReadTagged(ts, false) == DenoteAll(ts) <==> LastSurvives(ts)
    decreases ts
  {
    hide ReadAs, Denote, WellFormed, Survives;
    if ts == [] {
    } else {
      ReadExactly(ts[0], ts[1..] != []);
      LastExactly(ts[1..]);
      SameCons(ReadAs(ts[0], ts[1..] != []), ReadTagged(ts[1..], false), Denote(ts[0]), DenoteAll(ts[1..]));
    }
  }

  lemma SameCons(a: Value, vs: seq<Value>, b: Value, ws: seq<Value>)
    ensures [a] + vs == [b] + ws <==> a == b && vs == ws
  {
    var x, y := [a] + vs, [b] + ws;
    assert x[0] == a && y[0] == b && x[1..] == vs && y[1..] == ws;
  }

  /** Element types whose slices keep less than the values: their values are never lost. */
  lemma {:induction false} ScalarsSurvive(ts: seq<Tree>, tc: byte)
    requires WellFormedAll(ts) && AllTagged(ts, tc) && IsScalarTag(tc)
    ensures AllSurvive(ts)
    decreases ts
  {
    hide WellFormed, Tag, Survives, Payloads;
    if ts == [] {
    } else {
      ScalarTagIsFlat(ts[0]);
      FlatSurvives(ts[0], Payloads(ts[1..]) != []);
      ScalarsSurvive(ts[1..], tc);
    }
  }

  lemma ScalarTagIsFlat(t: Tree)
    requires WellFormed(t) && IsScalarTag(Tag(t))
    ensures IsFlat(t)
  {
    hide Varint.Spells;
  }

  lemma PackedIsArray(elemType: byte, vs: seq<Value>)
    requires !IsScalarTag(elemType)
    ensures Packed(elemType, vs) == Array(vs)
  {
  }

  lemma {:induction false} ArrayExactly(t: Tree)
    requires WellFormed(t) && (t.TypedT? || t.NestedT? || t.ObjectsT?)
    ensures ReadAs(t, false) == Denote(t) <==> Survives(t, false)
    decreases t, 0
  {
    hide ReadAll, ReadTagged, DenoteAll, AllSurvive, LastSurvives, WellFormedAll, AllTagged, IsCount, Packed, ReadAs;
    ReadFromParts(t, false);
    match t
    case TypedT(_, elemType, elems) =>
      AllExactly(elems);
      if IsScalarTag(elemType) {
        ScalarsSurvive(elems, elemType);
      } else {
        PackedIsArray(elemType, ReadAll(elems, false));
        PackedIsArray(elemType, DenoteAll(elems));
      }
    case NestedT(_, _, elems) => AllExactly(elems);
    case ObjectsT(_, elems) => LastExactly(elems);
  }

  // ---- Dictionaries ----

  /** What a key is stored under does not depend on losses inside it. */
  lemma SameKey(i: nat, t: Tree, more: bool)
    requires WellFormed(t)
    ensures StoredKey(i, ReadAs(t, more)) == StoredKey(i, Denote(t))
  {
    hide ReadAs, WellFormed, StoredKey;
    ReadFromParts(t, more);
    if IsFlat(t) {
    } else {
      SameType(t, more);
      SameName(i, ReadAs(t, more), Denote(t));
    }
  }

  lemma SameName(i: nat, v: Value, w: Value)
    requires !IsComparable(v) && !IsComparable(w) && TypeName(v) == TypeName(w)
    ensures StoredKey(i, v) == StoredKey(i, w)
  {
    hide Decimal, Ascii;
  }

  lemma SameType(t: Tree, more: bool)
    requires !IsFlat(t)
    ensures !IsComparable(ReadAs(t, more)) && !IsComparable(Denote(t))
    ensures TypeName(ReadAs(t, more)) == TypeName(Denote(t))
  {
    hide ReadAll, ReadTagged, ReadItems, ReadParams, IsKept, TextIn, ReadAs, Denote, Packed;
    ReadFromParts(t, more);
    ReadFromParts(t, true);
    FollowedIsDenoted(t);
    if t.TypedT? {
      SlicesAlike(t.elemType, ReadAll(t.elems, more), ReadAll(t.elems, true));
      SlicesAlike(t.elemType, ReadAll(t.elems, true), []);
    }
  }

  lemma SlicesAlike(elemType: byte, vs: seq<Value>, ws: seq<Value>)
    ensures !IsComparable(Packed(elemType, vs)) && TypeName(Packed(elemType, vs)) == TypeName(Packed(elemType, ws))
  {
    hide OctetsOf, ShortsOf, IntsOf, LongsOf, FloatsOf, DoublesOf, TextsOf;
  }

  lemma {:induction false} PutIsInjective(m: seq<Entry>, key: Value, v: Value, w: Value)
    ensures Put(m, key, v) == Put(m, key, w) <==> v == w
  {
    hide KeyEq;
    if m == [] {
      assert Put(m, key, v)[0].val == v && Put(m, key, w)[0].val == w;
    } else if KeyEq(m[0].key, key) {
      assert Put(m, key, v)[0].val == v && Put(m, key, w)[0].val == w;
    } else {
      PutIsInjective(m[1..], key, v, w);
      assert Put(m, key, v)[1..] == Put(m[1..], key, v) && Put(m, key, w)[1..] == Put(m[1..], key, w);
    }
  }

  function PutItem(i: nat, item: Item, m: seq<Entry>, more: bool): seq<Entry> {
    Put(m, StoredKey(i, ReadKey(item, more)), ReadVal(item, more))
  }

  lemma {:induction false} ItemExactly(keyType: byte, valType: byte, i: nat, item: Item, m: seq<Entry>, more: bool)
    requires WellFormedItem(keyType, valType, item)
    ensures PutItem(i, item, m, more) == StoreItem(i, item, m) <==> ItemSurvives(item, more)
    decreases item
  {
    hide ReadAs, Denote, WellFormed, Survives, Put, StoredKey, Payload, Tag;
    match item
    case Item(key, val) =>
      ReadExactly(val, more);
      SameKey(i, key, more || Payload(val) != []);
      PutIsInjective(m, StoredKey(i, Denote(key)), ReadAs(val, more), Denote(val));
  }

  /** Where further entries take no bytes, no value takes any, and a value without bytes is not lost. */
  lemma BytelessSurvives(keyType: byte, valType: byte, items: seq<Item>)
    requires WellFormedItems(keyType, valType, items) && |items| > 1
    requires ItemBytes(keyType, valType, items[1..]) == []
    ensures ItemSurvives(items[0], false)
  {
    hide Payload, Survives, Tag, WellFormed, ItemByte;
    assert ItemByte(keyType, valType, items[1..][0]) == [];
    EntryIsEmpty(keyType, valType, items[1..][0]);
    ConstantIsFlat(items[0].val);
    FlatSurvives(items[0].val, false);
  }

  lemma ConstantIsFlat(t: Tree)
    requires WellFormed(t)
    ensures IsConstant(Tag(t)) ==> IsFlat(t)
  {
    hide Varint.Spells;
  }

  /** Only the last entry can be followed by nothing, and it is stored last: its value shows. */
  lemma {:induction false} ItemsExactly(keyType: byte, valType: byte, i: nat, items: seq<Item>, m: seq<Entry>)
    requires WellFormedItems(keyType, valType, items)
    ensures ReadItems(keyType, valType, i, items, m, false) == StoreItems(i, items, m)
      <==> ItemsSurvive(keyType, valType, items)
    decreases items
  {
    hide StoreItem, ReadKey, ReadVal, Put, StoredKey, ItemSurvives, WellFormedItem, ItemBytes, PutItem;
    if items == [] {
    } else {
      var followed := ItemBytes(keyType, valType, items[1..]) != [];
      var next := PutItem(i, items[0], m, followed);
      StepOfItems(keyType, valType, i, items, m);
      ItemExactly(keyType, valType, i, items[0], m, followed);
      if items[1..] != [] {
        if followed {
          ItemFollowedSurvives(items[0]);
        } else {
          BytelessSurvives(keyType, valType, items);
        }
        ItemsExactly(keyType, valType, i + 1, items[1..], next);
      }
    }
  }

  lemma ItemFollowedSurvives(item: Item)
    ensures ItemSurvives(item, true)
  {
    hide Survives;
    FollowedSurvives(item.val);
  }

  lemma StepOfItems(keyType: byte, valType: byte, i: nat, items: seq<Item>, m: seq<Entry>)
    requires items != []
    ensures var next := PutItem(i, items[0], m, ItemBytes(keyType, valType, items[1..]) != []);
      ReadItems(keyType, valType, i, items, m, false) == ReadItems(keyType, valType, i + 1, items[1..], next, false)
  {
    hide Put, StoredKey, ReadKey, ReadVal, ItemBytes;
  }

  lemma {:induction false} DictExactly(t: Tree)
    requires WellFormed(t) && t.DictT?
    ensures ReadAs(t, false) == Denote(t) <==> Survives(t, false)
    decreases t, 0
  {
    hide ReadItems, StoreItems, ItemsSurvive, WellFormedItems, IsCount, NoEntryBytes, ReadAs;
    ReadFromParts(t, false);
    match t
    case DictT(_, keyType, valType, _, items) =>
      if IsKept(keyType, valType, items, false) {
        ItemsExactly(keyType, valType, 0, items, []);
      } else {
        StoredIsNotEmpty(0, items, []);
      }
  }

  lemma {:induction false} StoredIsNotEmpty(i: nat, items: seq<Item>, m: seq<Entry>)
    requires items != [] || m != []
    ensures StoreItems(i, items, m) != []
    decreases items
  {
    hide Denote, StoredKey;
    if items == [] {
    } else {
      StoredIsNotEmpty(i + 1, items[1..], StoreItem(i, items[0], m));
    }
  }

  // ---- Parameter tables and messages ----

  lemma {:induction false} FieldExactly(field: Field, m: Params, more: bool)
    requires WellFormedField(field)
    ensures ReadField(field, m, more) == StoreField(field, m) <==> FieldSurvives(field, more)
    decreases field
  {
    hide ReadAs, Denote, WellFormed, Survives;
    match field
    case Field(key, val) =>
      ReadExactly(val, more);
      assert m[key := ReadAs(val, more)][key] == ReadAs(val, more) && m[key := Denote(val)][key] == Denote(val);
  }

  lemma {:induction false} FieldsExactly(fields: seq<Field>, m: Params)
    requires WellFormedFields(fields)
    ensures ReadFields(fields, m, false) == StoreFields(fields, m) <==> FieldsSurvive(fields)
    decreases fields
  {
    hide ReadField, StoreField, FieldSurvives, WellFormedField;
    if fields == [] {
    } else {
      FieldExactly(fields[0], m, fields[1..] != []);
      if fields[1..] == [] {
      } else {
        FieldFollowedSurvives(fields[0]);
        FieldsExactly(fields[1..], StoreField(fields[0], m));
      }
    }
  }

  lemma FieldFollowedSurvives(field: Field)
    ensures FieldSurvives(field, true)
  {
    hide Survives;
    FollowedSurvives(field.val);
  }

  lemma {:induction false} TableExactly(table: ParamList)
    requires WellFormedTable(table)
    ensures ReadParams(table, false) == ParamsOf(table) <==> TableSurvives(table)
    decreases table
  {
    hide ReadFields, StoreFields, FieldsSurvive, WellFormedFields, IsCount;
    match table
    case ParamList(_, fields) => FieldsExactly(fields, map[]);
  }

  lemma {:induction false} MessageExactly(t: Tree)
    requires WellFormed(t) && (t.RequestT? || t.ResponseT? || t.EventT?)
    ensures ReadAs(t, false) == Denote(t) <==> Survives(t, false)
    decreases t, 0
  {
    hide ReadParams, ParamsOf, TableSurvives, WellFormedTable, TextIn, ReadAs;
    ReadFromParts(t, false);
    match t
    case RequestT(_, table) => TableExactly(table);
    case ResponseT(_, _, _, table) => TableExactly(table);
    case EventT(_, table) => TableExactly(table);
  }

  // ---- The round trip ----

  /** EXACTLY WHEN THE ROUND TRIP HOLDS: for every well-formed tree and whatever bytes follow,
      decoding the payload gives exactly the value that the tree stands for and leaves exactly those
      bytes, if and only if bytes do follow or no dictionary loses its entries to the end. */
  lemma TreeRoundTripExactly(t: Tree, rest: seq<byte>)
    requires WellFormed(t)
    ensures Decode(Tag(t), Payload(t) + rest) == Read(Denote(t), rest) <==> Survives(t, rest != [])
  {
    hide *;
    TreeIsRead(t, rest);
    ReadExactly(t, rest != []);
  }

  /** The round trip itself. Followed by at least one byte, every well-formed tree is read back. */
  lemma TreeRoundTrip(t: Tree, rest: seq<byte>)
    requires WellFormed(t) && (rest != [] || Survives(t, false))
    ensures Decode(Tag(t), Payload(t) + rest) == Read(Denote(t), rest)
  {
    hide *;
    if rest != [] {
      FollowedSurvives(t);
    }
    TreeRoundTripExactly(t, rest);
  }

  /** A parameter table is read back if and only if bytes follow it or no dictionary is lost. */
  lemma TableRoundTripExactly(table: ParamList, rest: seq<byte>)
    requires WellFormedTable(table)
    ensures ParamTable(TableBytes(table) + rest) == Read(ParamsOf(table), rest)
      <==> (rest != [] || TableSurvives(table))
  {
    hide *;
    TableIsRead(table, rest);
    if rest == [] {
      TableExactly(table);
    } else {
      ParamsFollowed(table);
    }
  }

  /** A dictionary is read back if and only if bytes follow it, or it has no entries, or they take
      bytes and the values among them survive. */
  lemma DictionaryRoundTripExactly(t: Tree, rest: seq<byte>)
    requires WellFormed(t) && t.DictT?
    ensures Decode(t.tc, Payload(t) + rest) == Read(Denote(t), rest)
      <==> (rest != [] || (IsKept(t.keyType, t.valType, t.items, false) && ItemsSurvive(t.keyType, t.valType, t.items)))
  {
    hide Decode, Payload, Denote, WellFormed, IsKept, ItemsSurvive;
    TreeRoundTripExactly(t, rest);
  }

  // ---- Instances ----

  const NIL_ITEM: Item := Item(ConstT(TYPE_NULL), ConstT(TYPE_NULL))
  const LOST: Tree := DictT(TYPE_DICTIONARY, TYPE_NULL, TYPE_NULL, [1], [NIL_ITEM])

  lemma OneIsSpelled()
    ensures IsCount([1], 1)
  {
    Pow2OfWidth(32);
    Varint.UvarintRoundTrip(32, 1, []);
  }

  lemma OneItem(keyType: byte, valType: byte, item: Item)
    requires WellFormedItem(keyType, valType, item)
    ensures WellFormedItems(keyType, valType, [item])
    ensures StoreItems(0, [item], []) == StoreItem(0, item, [])
    ensures ItemsSurvive(keyType, valType, [item]) <==> ItemSurvives(item, false)
  {
    hide WellFormedItem, StoreItem, ItemSurvives, ItemByte;
    assert [item][1..] == [];
    assert ItemBytes(keyType, valType, []) == [];
    assert WellFormedItems(keyType, valType, []);
    assert ItemsSurvive(keyType, valType, []);
    assert StoreItems(1, [], StoreItem(0, item, [])) == StoreItem(0, item, []);
  }

  lemma LostIsWellFormed()
    ensures WellFormed(LOST) && NoEntryBytes(TYPE_NULL, TYPE_NULL)
    ensures Denote(LOST) == Dict([Entry(Null, Null)])
  {
    hide IsCount, StoreItems, WellFormedItems, ItemsSurvive;
    OneIsSpelled();
    OneItem(TYPE_NULL, TYPE_NULL, NIL_ITEM);
    assert StoreItem(0, NIL_ITEM, []) == [Entry(Null, Null)];
  }

  /** The smallest lost dictionary, nil := nil with fixed types: at the end of a buffer it is read
      as an empty one. */
  lemma LostDictionary()
    ensures Denote(LOST) == Dict([Entry(Null, Null)])
    ensures Decode(TYPE_DICTIONARY, Payload(LOST) + []) == Read(Dict([]), [])
  {
    hide Decode, Payload, Denote, WellFormed, ReadAs;
    LostIsWellFormed();
    TreeIsRead(LOST, []);
    ReadFromParts(LOST, false);
  }

  /** The same dictionary at the end of an array is lost there too; as a key it is not missed. */
  lemma LostInside()
    ensures var outer := ObjectsT([1], [LOST]);
      Decode(Tag(outer), Payload(outer) + []) != Read(Denote(outer), [])
    ensures var dict := DictT(TYPE_DICTIONARY, TYPE_DICTIONARY, TYPE_NULL, [1], [Item(LOST, ConstT(TYPE_NULL))]);
      Decode(Tag(dict), Payload(dict) + []) == Read(Denote(dict), [])
  {
    hide Decode, Payload, Denote, IsCount;
    LostIsWellFormed();
    OneIsSpelled();
    LostInArray();
    TreeRoundTripExactly(ObjectsT([1], [LOST]), []);
    LostAsKey();
    TreeRoundTripExactly(DictT(TYPE_DICTIONARY, TYPE_DICTIONARY, TYPE_NULL, [1], [Item(LOST, ConstT(TYPE_NULL))]), []);
  }

  lemma LostInArray()
    ensures WellFormed(ObjectsT([1], [LOST])) && !Survives(ObjectsT([1], [LOST]), false)
  {
    hide IsCount;
    OneIsSpelled();
    LostIsWellFormed();
    assert [LOST][1..] == [] && WellFormedAll([]);
    assert WellFormedAll([LOST]) && !Survives(LOST, false);
    assert !LastSurvives([LOST]);
  }

  lemma LostAsKey()
    ensures var dict := DictT(TYPE_DICTIONARY, TYPE_DICTIONARY, TYPE_NULL, [1], [Item(LOST, ConstT(TYPE_NULL))]);
      WellFormed(dict) && Survives(dict, false)
  {
    hide IsCount, ItemsSurvive, WellFormedItems, StoreItems;
    OneIsSpelled();
    LostIsWellFormed();
    var item := Item(LOST, ConstT(TYPE_NULL));
    assert WellFormedItem(TYPE_DICTIONARY, TYPE_NULL, item) && ItemSurvives(item, false);
    OneItem(TYPE_DICTIONARY, TYPE_NULL, item);
  }
}
