/** What the Protocol18 decoder computes, as functions from the unread bytes to a value and the
    bytes left over. Typed arrays are defined here by decoding element after element; the
    specialised loops of the deserializer are proved against this form. */
module Protocol18 {
  import opened Bytes
  import opened Values
  import Varint

  const TYPE_UNKNOWN: byte := 0
  const TYPE_BOOLEAN: byte := 2
  const TYPE_BYTE: byte := 3
  const TYPE_SHORT: byte := 4
  const TYPE_FLOAT: byte := 5
  const TYPE_DOUBLE: byte := 6
  const TYPE_STRING: byte := 7
  const TYPE_NULL: byte := 8
  const TYPE_COMPRESSED_INT: byte := 9
  const TYPE_COMPRESSED_LONG: byte := 10
  const TYPE_INT1: byte := 11
  const TYPE_INT1_NEG: byte := 12
  const TYPE_INT2: byte := 13
  const TYPE_INT2_NEG: byte := 14
  const TYPE_LONG1: byte := 15
  const TYPE_LONG1_NEG: byte := 16
  const TYPE_LONG2: byte := 17
  const TYPE_LONG2_NEG: byte := 18
  const TYPE_CUSTOM: byte := 19
  const TYPE_DICTIONARY: byte := 20
  const TYPE_HASHTABLE: byte := 21
  const TYPE_OBJECT_ARRAY: byte := 23
  const TYPE_OPERATION_REQUEST: byte := 24
  const TYPE_OPERATION_RESPONSE: byte := 25
  const TYPE_EVENT_DATA: byte := 26
  const TYPE_BOOL_FALSE: byte := 27
  const TYPE_BOOL_TRUE: byte := 28
  const TYPE_SHORT_ZERO: byte := 29
  const TYPE_INT_ZERO: byte := 30
  const TYPE_LONG_ZERO: byte := 31
  const TYPE_FLOAT_ZERO: byte := 32
  const TYPE_DOUBLE_ZERO: byte := 33
  const TYPE_BYTE_ZERO: byte := 34
  const TYPE_ARRAY: byte := 0x40
  const CUSTOM_SLIM_BASE: byte := 0x80

  // ---- Readers of fixed shape. All are total: past the end they yield zeros. ----

  /** One byte, or 0 at the end. */
  function NextByte(bs: seq<byte>): (r: Read<byte>)
    ensures |r.rest| <= |bs|
    ensures bs != [] ==> |r.rest| < |bs|
  {
    if bs == [] then Read(0, []) else Read(bs[0], bs[1..])
  }

  /** A fixed-width little-endian number: with too few bytes, all are consumed for a 0. */
  function Fixed(k: nat, bs: seq<byte>): (r: Read<nat>)
    ensures |r.rest| <= |bs|
  {
    if |bs| < k then Read(0, []) else Read(LittleEndian(bs[..k]), bs[k..])
  }

  function Short16(bs: seq<byte>): (r: Read<int16>)
    ensures |r.rest| <= |bs|
  {
    if |bs| < 2 then Read(0, []) else Read(ToInt16(bs[0] as int + 0x100 * (bs[1] as int)), bs[2..])
  }

  /** Reading into a slice of length `n`: what is missing stays zero. */
  function Padded(n: nat, bs: seq<byte>): (r: Read<seq<byte>>)
    ensures |r.val| == n
    ensures |r.rest| <= |bs|
  {
    if n <= |bs| then Read(bs[..n], bs[n..]) else Read(bs + Zeros(n - |bs|), [])
  }

  /** An element count. */
  function Count(bs: seq<byte>): (r: Read<nat>)
    ensures |r.rest| <= |bs|
    ensures r.val > 0 ==> |r.rest| < |bs|
  {
    Varint.Uvarint(32, bs)
  }

  /** A string; a length that exceeds the input gives the empty string and consumes no more. */
  function Text(bs: seq<byte>): (r: Read<seq<byte>>)
    ensures |r.rest| <= |bs|
  {
    var n := Varint.Uvarint(32, bs);
    if n.val <= 0 || n.val > |n.rest| then Read([], n.rest) else Read(n.rest[..n.val], n.rest[n.val..])
  }

  /** A custom payload; an over-long size takes the rest in the slim form and nothing otherwise. */
  function CustomPayload(id: byte, slim: bool, bs: seq<byte>): (r: Read<Value>)
    ensures |r.rest| <= |bs|
  {
    var n := Count(bs);
    if n.val > |n.rest| then
      if slim then Read(Custom(id, n.rest), []) else Read(Null, n.rest)
    else Read(Custom(id, n.rest[..n.val]), n.rest[n.val..])
  }

  /** Bit `i` of a packed array: low bit first within each byte. */
  function PackedBit(packed: seq<byte>, i: nat): bool
    requires i / 8 < |packed|
  {
    Bit(packed[i / 8], i % 8)
  }

  function UnpackBits(n: nat, packed: seq<byte>): (r: seq<bool>)
    requires |packed| == (n + 7) / 8
    ensures |r| == n
  {
    seq(n, i requires 0 <= i < n => PackedBit(packed, i))
  }

  function PackedFlags(n: nat, bs: seq<byte>): (r: Read<seq<bool>>)
    ensures |r.rest| <= |bs|
  {
    var p := Padded((n + 7) / 8, bs);
    Read(UnpackBits(n, p.val), p.rest)
  }

  // ---- Values without payload ----

  /** Type codes that take no payload bytes at all, among them every unassigned code. */
  predicate IsConstant(tc: byte) {
    tc == 0 || tc == 1 || tc == TYPE_NULL || tc == 22 || TYPE_BOOL_FALSE <= tc < TYPE_ARRAY
  }

  function ConstantValue(tc: byte): Value
    requires IsConstant(tc)
  {
    if tc == TYPE_UNKNOWN || tc == TYPE_NULL then Null
    else if tc == TYPE_BOOL_FALSE then Bool(false)
    else if tc == TYPE_BOOL_TRUE then Bool(true)
    else if tc == TYPE_SHORT_ZERO then Short(0)
    else if tc == TYPE_INT_ZERO then Int(0)
    else if tc == TYPE_LONG_ZERO then Long(0)
    else if tc == TYPE_FLOAT_ZERO then Float(0)
    else if tc == TYPE_DOUBLE_ZERO then Double(0)
    else if tc == TYPE_BYTE_ZERO then Byte(0)
    else Str(Ascii("ERROR - unknown type 0x" + Hex2(tc)))
  }

  // ---- The slices of typed arrays ----

  function ShortsOf(vs: seq<Value>): seq<int16> {
    seq(|vs|, i requires 0 <= i < |vs| => if vs[i].Short? then vs[i].short else 0)
  }

  function IntsOf(vs: seq<Value>): seq<int> {
    seq(|vs|, i requires 0 <= i < |vs| => if vs[i].Int? then vs[i].num else 0)
  }

  function LongsOf(vs: seq<Value>): seq<int> {
    seq(|vs|, i requires 0 <= i < |vs| => if vs[i].Long? then vs[i].long else 0)
  }

  function FloatsOf(vs: seq<Value>): seq<nat> {
    seq(|vs|, i requires 0 <= i < |vs| => if vs[i].Float? then vs[i].bits32 else 0)
  }

  function DoublesOf(vs: seq<Value>): seq<nat> {
    seq(|vs|, i requires 0 <= i < |vs| => if vs[i].Double? then vs[i].bits64 else 0)
  }

  function TextsOf(vs: seq<Value>): seq<seq<byte>> {
    seq(|vs|, i requires 0 <= i < |vs| => if vs[i].Str? then vs[i].text else [])
  }

  function OctetsOf(vs: seq<Value>): seq<byte> {
    seq(|vs|, i requires 0 <= i < |vs| => if vs[i].Byte? then vs[i].octet else 0)
  }

  /** The slice type in which an array of the given element type comes out. */
  function Packed(elemType: byte, vs: seq<Value>): Value {
    if elemType == TYPE_BYTE then ByteArray(OctetsOf(vs))
    else if elemType == TYPE_SHORT then ShortArray(ShortsOf(vs))
    else if elemType == TYPE_FLOAT then FloatArray(FloatsOf(vs))
    else if elemType == TYPE_DOUBLE then DoubleArray(DoublesOf(vs))
    else if elemType == TYPE_STRING then StrArray(TextsOf(vs))
    else if elemType == TYPE_COMPRESSED_INT then IntArray(IntsOf(vs))
    else if elemType == TYPE_COMPRESSED_LONG then LongArray(LongsOf(vs))
    else Array(vs)
  }

  // ---- The decoder. Every measure starts with the number of unread bytes. ----

  function Decode(tc: byte, bs: seq<byte>): (r: Read<Value>)
    ensures |r.rest| <= |bs|
    decreases |bs| + 1, 1, 0
  {
    if tc >= CUSTOM_SLIM_BASE then CustomPayload(tc % 0x80, true, bs)
    else if tc == TYPE_ARRAY then NestedArray(bs)
    else if tc > TYPE_ARRAY then TypedArray(tc - TYPE_ARRAY, bs)
    else if tc == TYPE_DICTIONARY || tc == TYPE_HASHTABLE then Dictionary(bs)
    else if tc == TYPE_OBJECT_ARRAY then ObjectArray(bs)
    else if tc == TYPE_OPERATION_REQUEST then RequestBody(bs)
    else if tc == TYPE_OPERATION_RESPONSE then ResponseBody(bs)
    else if tc == TYPE_EVENT_DATA then EventBody(bs)
    else Scalar(tc, bs)
  }

  /** The values without nested values. */
  function Scalar(tc: byte, bs: seq<byte>): (r: Read<Value>)
    requires tc < TYPE_ARRAY
    ensures |r.rest| <= |bs|
  {
    if tc == TYPE_BOOLEAN then var b := NextByte(bs); Read(Bool(b.val != 0), b.rest)
    else if tc == TYPE_BYTE then var b := NextByte(bs); Read(Byte(b.val), b.rest)
    else if tc == TYPE_SHORT then var s := Short16(bs); Read(Short(s.val), s.rest)
    else if tc == TYPE_FLOAT then var f := Fixed(4, bs); Read(Float(f.val), f.rest)
    else if tc == TYPE_DOUBLE then var f := Fixed(8, bs); Read(Double(f.val), f.rest)
    else if tc == TYPE_STRING then var t := Text(bs); Read(Str(t.val), t.rest)
    else if tc == TYPE_COMPRESSED_INT then var v := Varint.Varint(32, bs); Read(Int(v.val), v.rest)
    else if tc == TYPE_COMPRESSED_LONG then var v := Varint.Varint(64, bs); Read(Long(v.val), v.rest)
    else if tc == TYPE_INT1 then var b := NextByte(bs); Read(Int(b.val), b.rest)
    else if tc == TYPE_INT1_NEG then var b := NextByte(bs); Read(Int(-(b.val as int)), b.rest)
    else if tc == TYPE_INT2 then var u := Fixed(2, bs); Read(Int(u.val), u.rest)
    else if tc == TYPE_INT2_NEG then var u := Fixed(2, bs); Read(Int(-(u.val as int)), u.rest)
    else if tc == TYPE_LONG1 then var b := NextByte(bs); Read(Long(b.val), b.rest)
    else if tc == TYPE_LONG1_NEG then var b := NextByte(bs); Read(Long(-(b.val as int)), b.rest)
    else if tc == TYPE_LONG2 then var u := Fixed(2, bs); Read(Long(u.val), u.rest)
    else if tc == TYPE_LONG2_NEG then var u := Fixed(2, bs); Read(Long(-(u.val as int)), u.rest)
    else if tc == TYPE_CUSTOM then var id := NextByte(bs); CustomPayload(id.val, false, id.rest)
    else if IsConstant(tc) then Read(ConstantValue(tc), bs)
    else Read(Null, bs)
  }

  /** `n` values of one type, one after the other. */
  function Elements(n: nat, tc: byte, bs: seq<byte>): (r: Read<seq<Value>>)
    ensures |r.val| == n
    ensures |r.rest| <= |bs|
    decreases if n == 0 then 0 else |bs| + 1, 2, n
  {
    if n == 0 then Read([], bs)
    else
      var v := Decode(tc, bs);
      var vs := Elements(n - 1, tc, v.rest);
      Read([v.val] + vs.val, vs.rest)
  }

  function CustomElements(n: nat, id: byte, bs: seq<byte>): (r: Read<seq<Value>>)
    ensures |r.val| == n
    ensures |r.rest| <= |bs|
  {
    if n == 0 then Read([], bs)
    else
      var v := CustomPayload(id, false, bs);
      var vs := CustomElements(n - 1, id, v.rest);
      Read([v.val] + vs.val, vs.rest)
  }

  function TypedArray(elemType: byte, bs: seq<byte>): (r: Read<Value>)
    requires elemType < TYPE_ARRAY
    ensures |r.rest| <= |bs|
    decreases |bs| + 1, 0, 0
  {
    var n := Count(bs);
    if elemType == TYPE_BOOLEAN then
      var flags := PackedFlags(n.val, n.rest);
      Read(BoolArray(flags.val), flags.rest)
    else if elemType == TYPE_CUSTOM then
      var id := NextByte(n.rest);
      var vs := CustomElements(n.val, id.val, id.rest);
      Read(Array(vs.val), vs.rest)
    else
      var vs := Elements(n.val, elemType, n.rest);
      Read(Packed(elemType, vs.val), vs.rest)
  }

  function NestedArray(bs: seq<byte>): (r: Read<Value>)
    ensures |r.rest| <= |bs|
    decreases |bs| + 1, 0, 0
  {
    var n := Count(bs);
    if n.rest == [] then Read(Null, [])
    else
      var vs := Elements(n.val, n.rest[0], n.rest[1..]);
      Read(Array(vs.val), vs.rest)
  }

  /** Values that carry their own type codes; at the end of the input, the rest stays nil. */
  function TaggedElements(n: nat, bs: seq<byte>): (r: Read<seq<Value>>)
    ensures |r.val| == n
    ensures |r.rest| <= |bs|
    decreases if n == 0 then 0 else |bs| + 1, 2, n
  {
    if n == 0 then Read([], bs)
    else if bs == [] then Read(seq(n, _ => Null), [])
    else
      var v := Decode(bs[0], bs[1..]);
      var vs := TaggedElements(n - 1, v.rest);
      Read([v.val] + vs.val, vs.rest)
  }

  function ObjectArray(bs: seq<byte>): (r: Read<Value>)
    ensures |r.rest| <= |bs|
    decreases |bs| + 1, 0, 0
  {
    var n := Count(bs);
    var vs := TaggedElements(n.val, n.rest);
    Read(Array(vs.val), vs.rest)
  }

  /** A type code fixed for the whole dictionary, or one read from the entry if that is 0. */
  function EntryType(fixed: byte, bs: seq<byte>): (r: Read<byte>)
    ensures |r.rest| <= |bs|
  {
    if fixed == 0 then NextByte(bs) else Read(fixed, bs)
  }

  /** One entry: the type codes that it carries, then the key, then the value. */
  function DictEntry(keyType: byte, valType: byte, bs: seq<byte>): (r: Read<Entry>)
    ensures |r.rest| <= |bs|
    decreases |bs| + 1, 1, 1
  {
    var kt := EntryType(keyType, bs);
    var vt := EntryType(valType, kt.rest);
    var key := Decode(kt.val, vt.rest);
    var val := Decode(vt.val, key.rest);
    Read(Entry(key.val, val.val), val.rest)
  }

  /** Entries `i`, ..., `count` - 1, stored into `m`. The loop also ends with the input. */
  function DictEntries(i: nat, count: nat, keyType: byte, valType: byte, bs: seq<byte>, m: seq<Entry>)
    : (r: Read<seq<Entry>>)
    requires i <= count
    ensures |r.rest| <= |bs|
    decreases if i == count then 0 else |bs| + 1, 2, count - i
  {
    if i == count || bs == [] then Read(m, bs)
    else
      var e := DictEntry(keyType, valType, bs);
      DictEntries(i + 1, count, keyType, valType, e.rest, Put(m, StoredKey(i, e.val.key), e.val.val))
  }

  function Dictionary(bs: seq<byte>): (r: Read<Value>)
    ensures |r.rest| <= |bs|
    decreases |bs| + 1, 0, 0
  {
    var kt := NextByte(bs);
    var vt := NextByte(kt.rest);
    var n := Count(vt.rest);
    var m := DictEntries(0, n.val, kt.val, vt.val, n.rest, []);
    Read(Dict(m.val), m.rest)
  }

  /** `n` parameters stored into `m`. The loop also ends with the input, or within an entry. */
  function ParamEntries(n: nat, bs: seq<byte>, m: Params): (r: Read<Params>)
    ensures |r.rest| <= |bs|
    decreases if n == 0 then 0 else |bs| + 1, 2, n
  {
    if n == 0 || bs == [] then Read(m, bs)
    else if |bs| == 1 then Read(m, [])
    else
      var v := Decode(bs[1], bs[2..]);
      ParamEntries(n - 1, v.rest, m[bs[0] := v.val])
  }

  function ParamTable(bs: seq<byte>): (r: Read<Params>)
    ensures |r.rest| <= |bs|
    decreases |bs| + 1, 0, 0
  {
    var n := Count(bs);
    ParamEntries(n.val, n.rest, map[])
  }

  function RequestBody(bs: seq<byte>): (r: Read<Value>)
    ensures |r.rest| <= |bs|
    decreases |bs| + 1, 0, 1
  {
    var op := NextByte(bs);
    var ps := ParamTable(op.rest);
    Read(Request(op.val, ps.val), ps.rest)
  }

  function EventBody(bs: seq<byte>): (r: Read<Value>)
    ensures |r.rest| <= |bs|
    decreases |bs| + 1, 0, 1
  {
    var code := NextByte(bs);
    var ps := ParamTable(code.rest);
    Read(Event(code.val, ps.val), ps.rest)
  }

  /** The value in debug-message position, nil when the input has ended. */
  function DebugValue(bs: seq<byte>): (r: Read<Value>)
    ensures |r.rest| <= |bs|
    decreases |bs|, 3, 0
  {
    if bs == [] then Read(Null, []) else Decode(bs[0], bs[1..])
  }

  function DebugText(v: Value): seq<byte> {
    if v.Str? then v.text else []
  }

  function ResponseBody(bs: seq<byte>): (r: Read<Value>)
    ensures |r.rest| <= |bs|
    decreases |bs| + 1, 0, 0
  {
    if |bs| < 3 then Read(Null, bs)
    else
      var rc := Short16(bs[1..]);
      var dbg := DebugValue(rc.rest);
      var ps := ParamTable(dbg.rest);
      Read(Response(bs[0], rc.val, DebugText(dbg.val), ps.val), ps.rest)
  }
}
