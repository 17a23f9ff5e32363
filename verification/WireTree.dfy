/** Protocol18 values as they are spelled on the wire: the tree of type codes and payloads that
    a sender prints, its bytes, and the Go value it stands for. */
module WireTree {
  import opened Bytes
  import opened Values
  import opened Protocol18
  import Varint

  /** A compressed integer may have several spellings on the wire, so a tree carries the bytes of
      each. */
  type Spelling = seq<byte>

  datatype Tree =
    | ConstT(tc: byte)                                              // no payload
    | OctetT(tc: byte, octet: byte)                                 // one payload byte
    | FixedT(tc: byte, bits: nat)                                   // a fixed number of payload bytes
    | VarintT(tc: byte, spelling: Spelling, num: int)               // a compressed integer
    | TextT(text: Chunk)
    | CustomT(id: byte, data: Chunk)                                // id in the payload
    | SlimT(id: byte, data: Chunk)                                  // id in the type code
    | FlagsT(count: Spelling, flags: seq<bool>)                     // typed array of booleans, bit-packed
    | CustomsT(count: Spelling, id: byte, payloads: seq<Chunk>)     // typed array of one custom type
    | TypedT(count: Spelling, elemType: byte, elems: seq<Tree>)     // typed array of anything else
    | NestedT(count: Spelling, elemType: byte, elems: seq<Tree>)    // bare array
    | ObjectsT(count: Spelling, elems: seq<Tree>)                   // every element with its own type code
    | DictT(tc: byte, keyType: byte, valType: byte, count: Spelling, items: seq<Item>)
    | RequestT(opCode: byte, table: ParamList)
    | ResponseT(opCode: byte, returnCode: int16, debug: Tree, table: ParamList)
    | EventT(code: byte, table: ParamList)

  /** Bytes behind their length. */
  datatype Chunk = Chunk(length: Spelling, data: seq<byte>)

  datatype Item = Item(key: Tree, val: Tree)

  datatype Field = Field(key: byte, val: Tree)

  /** Parameters behind their number. */
  datatype ParamList = ParamList(count: Spelling, fields: seq<Field>)

  // ---- The bytes. Type codes are numbers here, as on the wire, not the decoder's names. ----

  /** The type code. */
  function Tag(t: Tree): byte {
    match t
    case ConstT(tc) => tc
    case OctetT(tc, _) => tc
    case FixedT(tc, _) => tc
    case VarintT(tc, _, _) => tc
    case TextT(_) => 7
    case CustomT(_, _) => 19
    case SlimT(id, _) => 0x80 + id % 0x80
    case FlagsT(_, _) => 0x42
    case CustomsT(_, _, _) => 0x53
    case TypedT(_, elemType, _) => 0x40 + elemType % 0x40
    case NestedT(_, _, _) => 0x40
    case ObjectsT(_, _) => 23
    case DictT(tc, _, _, _, _) => tc
    case RequestT(_, _) => 24
    case ResponseT(_, _, _, _) => 25
    case EventT(_, _) => 26
  }

  function FixedWidth(tc: byte): nat {
    if tc == 5 then 4 else if tc == 6 then 8 else 2
  }

  /** The bytes after the type code. */
  function Payload(t: Tree): seq<byte> {
    match t
    case ConstT(_) => []
    case OctetT(_, octet) => [octet]
    case FixedT(tc, bits) => ToLittleEndian(bits, FixedWidth(tc))
    case VarintT(_, spelling, _) => spelling
    case TextT(text) => Counted(text)
    case CustomT(id, data) => [id] + Counted(data)
    case SlimT(_, data) => Counted(data)
    case FlagsT(count, flags) => count + PackBits(flags)
    case CustomsT(count, id, payloads) => count + ([id] + CountedAll(payloads))
    case TypedT(count, _, elems) => count + Payloads(elems)
    case NestedT(count, elemType, elems) => count + ([elemType] + Payloads(elems))
    case ObjectsT(count, elems) => count + TaggedPayloads(elems)
    case DictT(_, keyType, valType, count, items) =>
      [keyType, valType] + (count + ItemBytes(keyType, valType, items))
    case RequestT(opCode, table) => [opCode] + TableBytes(table)
    case ResponseT(opCode, returnCode, debug, table) =>
      ([opCode] + ToLittleEndian(FromInt16(returnCode), 2)) + ([Tag(debug)] + Payload(debug) + TableBytes(table))
    case EventT(code, table) => [code] + TableBytes(table)
  }

  function Counted(c: Chunk): seq<byte> {
    c.length + c.data
  }

  function CountedAll(payloads: seq<Chunk>): seq<byte> {
    if payloads == [] then [] else Counted(payloads[0]) + CountedAll(payloads[1..])
  }

  function Payloads(ts: seq<Tree>): seq<byte> {
    if ts == [] then [] else Payload(ts[0]) + Payloads(ts[1..])
  }

  function TaggedPayloads(ts: seq<Tree>): seq<byte> {
    if ts == [] then [] else [Tag(ts[0])] + (Payload(ts[0]) + TaggedPayloads(ts[1..]))
  }

  /** A type code goes into an entry only where the dictionary does not fix it. */
  function EntryTag(fixed: byte, t: Tree): seq<byte> {
    if fixed == 0 then [Tag(t)] else []
  }

  function ItemByte(keyType: byte, valType: byte, item: Item): seq<byte>
    decreases item
  {
    match item
    case Item(key, val) => EntryTag(keyType, key) + EntryTag(valType, val) + Payload(key) + Payload(val)
  }

  function ItemBytes(keyType: byte, valType: byte, items: seq<Item>): seq<byte>
    decreases items
  {
    if items == [] then [] else ItemByte(keyType, valType, items[0]) + ItemBytes(keyType, valType, items[1..])
  }

  function FieldByte(field: Field): seq<byte>
    decreases field
  {
    match field
    case Field(key, val) => [key, Tag(val)] + Payload(val)
  }

  function FieldBytes(fields: seq<Field>): seq<byte>
    decreases fields
  {
    if fields == [] then [] else FieldByte(fields[0]) + FieldBytes(fields[1..])
  }

  function TableBytes(table: ParamList): seq<byte>
    decreases table
  {
    match table
    case ParamList(count, fields) => count + FieldBytes(fields)
  }

  /** Up to eight flags as a number, the first flag lowest. */
  function BitsToNat(flags: seq<bool>): nat {
    if flags == [] then 0 else (if flags[0] then 1 else 0) + 2 * BitsToNat(flags[1..])
  }

  function PackBits(flags: seq<bool>): (r: seq<byte>)
    ensures |r| == (|flags| + 7) / 8
    decreases |flags|
  {
    if |flags| == 0 then []
    else if |flags| <= 8 then [BitsToNat(flags) % 0x100]
    else [BitsToNat(flags[..8]) % 0x100] + PackBits(flags[8..])
  }

  // ---- The value ----

  function Denote(t: Tree): Value {
    match t
    case ConstT(tc) => ConstMeaning(tc)
    case OctetT(tc, octet) =>
      if tc == 2 then Bool(octet != 0)
      else if tc == 3 then Byte(octet)
      else if tc == 11 then Int(octet)
      else if tc == 12 then Int(-(octet as int))
      else if tc == 15 then Long(octet)
      else Long(-(octet as int))
    case FixedT(tc, bits) =>
      if tc == 4 then Short(ToInt16(bits % 0x1_0000))
      else if tc == 5 then Float(bits)
      else if tc == 6 then Double(bits)
      else if tc == 13 then Int(bits)
      else if tc == 14 then Int(-(bits as int))
      else if tc == 17 then Long(bits)
      else Long(-(bits as int))
    case VarintT(tc, _, num) => if tc == 9 then Int(num) else Long(num)
    case TextT(text) => Str(text.data)
    case CustomT(id, chunk) => Custom(id, chunk.data)
    case SlimT(id, chunk) => Custom(id, chunk.data)
    case FlagsT(_, flags) => BoolArray(flags)
    case CustomsT(_, id, payloads) => Array(Customs(id, payloads))
    case TypedT(_, elemType, elems) => Packed(elemType, DenoteAll(elems))
    case NestedT(_, _, elems) => Array(DenoteAll(elems))
    case ObjectsT(_, elems) => Array(DenoteAll(elems))
    case DictT(_, _, _, _, items) => Dict(StoreItems(0, items, []))
    case RequestT(opCode, table) => Request(opCode, ParamsOf(table))
    case ResponseT(opCode, returnCode, debug, table) =>
      Response(opCode, returnCode, TextIn(debug), ParamsOf(table))
    case EventT(code, table) => Event(code, ParamsOf(table))
  }

  /** The value of a code without payload; an unassigned code stands for an error text. */
  function ConstMeaning(tc: byte): Value {
    match tc
    case 0 => Null
    case 8 => Null
    case 27 => Bool(false)
    case 28 => Bool(true)
    case 29 => Short(0)
    case 30 => Int(0)
    case 31 => Long(0)
    case 32 => Float(0)
    case 33 => Double(0)
    case 34 => Byte(0)
    case _ => Str(Ascii("ERROR - unknown type 0x" + ["0123456789ABCDEF"[tc / 16], "0123456789ABCDEF"[tc % 16]]))
  }

  /** The debug text that a tree in debug position stands for: a string's, or an unassigned code's. */
  function TextIn(t: Tree): seq<byte> {
    match t
    case TextT(text) => text.data
    case ConstT(tc) => (match ConstMeaning(tc) case Str(text) => text case _ => [])
    case _ => []
  }

  function DenoteAll(ts: seq<Tree>): (r: seq<Value>)
    ensures |r| == |ts|
  {
    if ts == [] then [] else [Denote(ts[0])] + DenoteAll(ts[1..])
  }

  function Customs(id: byte, payloads: seq<Chunk>): (r: seq<Value>)
    ensures |r| == |payloads|
  {
    if payloads == [] then [] else [Custom(id, payloads[0].data)] + Customs(id, payloads[1..])
  }

  /** Item number `i` assigned to a Go map. */
  function StoreItem(i: nat, item: Item, m: seq<Entry>): seq<Entry>
    decreases item
  {
    match item
    case Item(key, val) => Put(m, StoredKey(i, Denote(key)), Denote(val))
  }

  /** The items assigned in order, the first being number `i`. */
  function StoreItems(i: nat, items: seq<Item>, m: seq<Entry>): seq<Entry>
    decreases items
  {
    if items == [] then m else StoreItems(i + 1, items[1..], StoreItem(i, items[0], m))
  }

  function StoreField(field: Field, m: Params): Params
    decreases field
  {
    match field
    case Field(key, val) => m[key := Denote(val)]
  }

  function StoreFields(fields: seq<Field>, m: Params): Params
    decreases fields
  {
    if fields == [] then m else StoreFields(fields[1..], StoreField(fields[0], m))
  }

  function ParamsOf(table: ParamList): Params
    decreases table
  {
    match table
    case ParamList(_, fields) => StoreFields(fields, map[])
  }

  // ---- Which trees can be printed ----

  /** A count or length: 32 bits, in any spelling. */
  predicate IsCount(spelling: Spelling, n: nat) {
    Varint.Spells(32, spelling, n)
  }

  predicate IsChunk(c: Chunk) {
    IsCount(c.length, |c.data|)
  }

  /** Type codes fit the payloads, numbers fit their fields and counts are spelled right. */
  predicate WellFormed(t: Tree) {
    match t
    case ConstT(tc) => IsConstant(tc)
    case OctetT(tc, _) =>
      tc == 2 || tc == 3 || tc == 11 || tc == 12 || tc == 15 || tc == 16
    case FixedT(tc, bits) =>
      && (tc == 4 || tc == 5 || tc == 6 || tc == 13 || tc == 14 || tc == 17 || tc == 18)
      && bits < Pow256(FixedWidth(tc))
    case VarintT(tc, spelling, num) =>
      || (tc == 9 && -0x8000_0000 <= num < 0x8000_0000
          && Varint.Spells(32, spelling, Varint.Zigzag(num)))
      || (tc == 10 && -0x8000_0000_0000_0000 <= num < 0x8000_0000_0000_0000
          && Varint.Spells(64, spelling, Varint.Zigzag(num)))
    case TextT(text) => IsChunk(text)
    case CustomT(_, data) => IsChunk(data)
    case SlimT(id, data) => id < 0x80 && IsChunk(data)
    case FlagsT(count, flags) => IsCount(count, |flags|)
    case CustomsT(count, _, payloads) => IsCount(count, |payloads|) && AllChunks(payloads)
    case TypedT(count, elemType, elems) =>
      && 0 < elemType < 0x40 && elemType != 2 && elemType != 19
      && IsCount(count, |elems|) && WellFormedAll(elems) && AllTagged(elems, elemType)
    case NestedT(count, elemType, elems) =>
      IsCount(count, |elems|) && WellFormedAll(elems) && AllTagged(elems, elemType)
    case ObjectsT(count, elems) => IsCount(count, |elems|) && WellFormedAll(elems)
    case DictT(tc, keyType, valType, count, items) =>
      && (tc == 20 || tc == 21)
      && IsCount(count, |items|) && WellFormedItems(keyType, valType, items)
    case RequestT(_, table) => WellFormedTable(table)
    case ResponseT(_, _, debug, table) => WellFormed(debug) && WellFormedTable(table)
    case EventT(_, table) => WellFormedTable(table)
  }

  predicate AllChunks(payloads: seq<Chunk>) {
    payloads == [] || (IsChunk(payloads[0]) && AllChunks(payloads[1..]))
  }

  predicate WellFormedAll(ts: seq<Tree>) {
    ts == [] || (WellFormed(ts[0]) && WellFormedAll(ts[1..]))
  }

  predicate AllTagged(ts: seq<Tree>, tc: byte) {
    ts == [] || (Tag(ts[0]) == tc && AllTagged(ts[1..], tc))
  }

  predicate WellFormedItem(keyType: byte, valType: byte, item: Item)
    decreases item
  {
    match item
    case Item(key, val) =>
      && WellFormed(key) && WellFormed(val)
      && (keyType == 0 || Tag(key) == keyType) && (valType == 0 || Tag(val) == valType)
  }

  predicate WellFormedItems(keyType: byte, valType: byte, items: seq<Item>)
    decreases items
  {
    items == []
    || (WellFormedItem(keyType, valType, items[0]) && WellFormedItems(keyType, valType, items[1..]))
  }

  predicate WellFormedField(field: Field) {
    match field
    case Field(_, val) => WellFormed(val)
  }

  predicate WellFormedFields(fields: seq<Field>) {
    fields == [] || (WellFormedField(fields[0]) && WellFormedFields(fields[1..]))
  }

  predicate WellFormedTable(table: ParamList) {
    match table
    case ParamList(count, fields) => IsCount(count, |fields|) && WellFormedFields(fields)
  }

  // ---- What is read at the end of a buffer ----

  /** The dictionary fixes both types, and neither has a payload: entries take no bytes. */
  predicate NoEntryBytes(keyType: byte, valType: byte) {
    keyType != 0 && valType != 0 && IsConstant(keyType) && IsConstant(valType)
  }

  /** The input does not end before the entries do; `more` says whether bytes follow them. */
  predicate IsKept(keyType: byte, valType: byte, items: seq<Item>, more: bool) {
    items == [] || !NoEntryBytes(keyType, valType) || more
  }

  /** The value that a tree is read as. Followed by more bytes, it is what the tree stands for. At
      the end of a buffer, every dictionary that the end reaches before its entries is empty. */
  function ReadAs(t: Tree, more: bool): Value
    decreases t
  {
    if more then Denote(t)
    else
      match t
      case TypedT(_, elemType, elems) => Packed(elemType, ReadAll(elems, false))
      case NestedT(_, _, elems) => Array(ReadAll(elems, false))
      case ObjectsT(_, elems) => Array(ReadTagged(elems, false))
      case DictT(_, keyType, valType, _, items) =>
        Dict(if IsKept(keyType, valType, items, false) then ReadItems(keyType, valType, 0, items, [], false) else [])
      case RequestT(opCode, table) => Request(opCode, ReadParams(table, false))
      case ResponseT(opCode, returnCode, debug, table) =>
        Response(opCode, returnCode, TextIn(debug), ReadParams(table, false))
      case EventT(code, table) => Event(code, ReadParams(table, false))
      case _ => Denote(t)
  }

  function ReadAll(ts: seq<Tree>, more: bool): (r: seq<Value>)
    ensures |r| == |ts|
    decreases ts
  {
    if ts == [] then [] else [ReadAs(ts[0], more || Payloads(ts[1..]) != [])] + ReadAll(ts[1..], more)
  }

  function ReadTagged(ts: seq<Tree>, more: bool): (r: seq<Value>)
    ensures |r| == |ts|
    decreases ts
  {
    if ts == [] then [] else [ReadAs(ts[0], more || ts[1..] != [])] + ReadTagged(ts[1..], more)
  }

  function ReadKey(item: Item, more: bool): Value
    decreases item
  {
    match item
    case Item(key, val) => ReadAs(key, more || Payload(val) != [])
  }

  function ReadVal(item: Item, more: bool): Value
    decreases item
  {
    match item
    case Item(_, val) => ReadAs(val, more)
  }

  function ReadItems(keyType: byte, valType: byte, i: nat, items: seq<Item>, m: seq<Entry>, more: bool): seq<Entry>
    decreases items
  {
    if items == [] then m
    else
      var followed := more || ItemBytes(keyType, valType, items[1..]) != [];
      ReadItems(keyType, valType, i + 1, items[1..],
                Put(m, StoredKey(i, ReadKey(items[0], followed)), ReadVal(items[0], followed)), more)
  }

  function ReadField(field: Field, m: Params, more: bool): Params
    decreases field
  {
    match field
    case Field(key, val) => m[key := ReadAs(val, more)]
  }

  function ReadFields(fields: seq<Field>, m: Params, more: bool): Params
    decreases fields
  {
    if fields == [] then m
    else ReadFields(fields[1..], ReadField(fields[0], m, more || fields[1..] != []), more)
  }

  function ReadParams(table: ParamList, more: bool): Params
    decreases table
  {
    match table
    case ParamList(_, fields) => ReadFields(fields, map[], more)
  }
}
