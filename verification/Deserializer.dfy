/** The deserializer itself: readers that advance a shared buffer, with a specialised loop for
    each kind of typed array. Every method is proved to compute its function of `Protocol18`. */
module Deserializer {
  import opened Bytes
  import opened Values
  import opened Protocol18
  import Varint

  /** Go's bytes.Buffer: the bytes not read so far. */
  class ByteBuffer {
    var unread: seq<byte>

    constructor (data: seq<byte>)
      ensures unread == data
    {
      unread := data;
    }

    function Len(): nat
      reads this
    {
      |unread|
    }

    /** One byte, with a flag for Go's io.EOF. */
    method ReadByte() returns (b: byte, ok: bool)
      modifies this
      ensures ok == (old(unread) != [])
      ensures Read(b, unread) == NextByte(old(unread))
    {
      if unread == [] {
        return 0, false;
      }
      b, ok := unread[0], true;
      unread := unread[1..];
    }

    /** Fills a slice of length `n` as far as the bytes go. */
    method ReadInto(n: nat) returns (p: seq<byte>)
      modifies this
      ensures Read(p, unread) == Padded(n, old(unread))
    {
      var k := Min(n, |unread|);
      p := unread[..k] + Zeros(n - k);
      assert p == if k == n then unread[..n] else unread + Zeros(n - |unread|);
      unread := unread[k..];
    }

    /** encoding/binary.Read of an unsigned little-endian number of `k` bytes. */
    method ReadFixed(k: nat) returns (v: nat)
      modifies this
      ensures Read(v, unread) == Fixed(k, old(unread))
    {
      if |unread| < k {
        v, unread := 0, [];
      } else {
        v := LittleEndian(unread[..k]);
        unread := unread[k..];
      }
    }
  }

  method ReadInt16(buf: ByteBuffer) returns (v: int16)
    modifies buf
    ensures Read(v, buf.unread) == Short16(old(buf.unread))
  {
    if buf.Len() < 2 {
      v, buf.unread := 0, [];
    } else {
      v := ToInt16(buf.unread[0] as int + 0x100 * (buf.unread[1] as int));
      buf.unread := buf.unread[2..];
    }
  }

  /** readCompressedUint32 and readCompressedUint64, which differ only in the width. */
  method ReadCompressedUint(width: nat, buf: ByteBuffer) returns (value: nat)
    requires width == 32 || width == 64
    modifies buf
    ensures Read(value, buf.unread) == Varint.Uvarint(width, old(buf.unread))
  {
    var shift := 0;
    value := 0;
    while true
      invariant Varint.Loop(width, buf.unread, value, shift) == Varint.Uvarint(width, old(buf.unread))
      decreases |buf.unread|
    {
      var b, ok := buf.ReadByte();
      if !ok {
        return 0;
      }
      value := BitOr(value, Truncate(ShiftLeft(b % 0x80, shift), width));
      if b < 0x80 {
        return value;
      }
      shift := shift + 7;
      if shift >= Varint.ShiftLimit(width) {
        return 0;
      }
    }
  }

  method ReadCount(buf: ByteBuffer) returns (n: nat)
    modifies buf
    ensures Read(n, buf.unread) == Count(old(buf.unread))
  {
    n := ReadCompressedUint(32, buf);
  }

  method ReadCompressedInt(width: nat, buf: ByteBuffer) returns (v: int)
    requires width == 32 || width == 64
    modifies buf
    ensures Read(v, buf.unread) == Varint.Varint(width, old(buf.unread))
  {
    var u := ReadCompressedUint(width, buf);
    v := Varint.Unzigzag(width, u);
  }

  method ReadString(buf: ByteBuffer) returns (s: seq<byte>)
    modifies buf
    ensures Read(s, buf.unread) == Text(old(buf.unread))
  {
    var length := ReadCompressedUint(32, buf);
    if length <= 0 || length > buf.Len() {
      return [];
    }
    s := buf.ReadInto(length);
  }

  method DeserializeCustomPayload(buf: ByteBuffer, customID: byte, isSlim: bool) returns (v: Value)
    modifies buf
    ensures Read(v, buf.unread) == CustomPayload(customID, isSlim, old(buf.unread))
  {
    var size := ReadCount(buf);
    var data;
    if size < 0 || size > buf.Len() {
      if isSlim {
        ghost var unread := buf.unread;
        assert unread[..|unread|] == unread && unread[|unread|..] == [];
        data := buf.ReadInto(buf.Len());
        return Custom(customID, data);
      }
      return Null;
    }
    data := buf.ReadInto(size);
    v := Custom(customID, data);
  }

  method DeserializeCustom(buf: ByteBuffer, gpType: byte) returns (v: Value)
    modifies buf
    ensures Read(v, buf.unread) ==
      if gpType >= CUSTOM_SLIM_BASE then CustomPayload(gpType % 0x80, true, old(buf.unread))
      else var id := NextByte(old(buf.unread)); CustomPayload(id.val, false, id.rest)
  {
    var customID: byte;
    var isSlim := gpType >= CUSTOM_SLIM_BASE;
    if isSlim {
      customID := gpType % 0x80;
    } else {
      var ok;
      customID, ok := buf.ReadByte();
    }
    v := DeserializeCustomPayload(buf, customID, isSlim);
  }

  /** One value of a given type code. */
  method Deserialize(buf: ByteBuffer, tc: byte) returns (v: Value)
    modifies buf
    ensures Read(v, buf.unread) == Decode(tc, old(buf.unread))
    decreases |buf.unread| + 1, 1, 0
  {
    if tc >= CUSTOM_SLIM_BASE {
      v := DeserializeCustom(buf, tc);
      return;
    }
    if tc == TYPE_DICTIONARY {
      v := DeserializeDictionary(buf);
    } else if tc == TYPE_HASHTABLE {
      v := DeserializeHashtable(buf);
    } else if tc == TYPE_OBJECT_ARRAY {
      v := DeserializeObjectArray(buf);
    } else if tc == TYPE_OPERATION_REQUEST {
      v := DeserializeOperationRequestInner(buf);
    } else if tc == TYPE_OPERATION_RESPONSE {
      v := DeserializeOperationResponseInner(buf);
    } else if tc == TYPE_EVENT_DATA {
      v := DeserializeEventDataInner(buf);
    } else if tc == TYPE_ARRAY {
      v := DeserializeNestedArray(buf);
    } else if tc < TYPE_ARRAY {
      v := DeserializeScalar(buf, tc);
    } else {
      v := DeserializeTypedArray(buf, tc - TYPE_ARRAY);
    }
  }

  /** The branches of `deserialize` that read no nested value. */
  method DeserializeScalar(buf: ByteBuffer, tc: byte) returns (v: Value)
    requires tc < TYPE_ARRAY && !(TYPE_DICTIONARY <= tc <= TYPE_HASHTABLE)
    requires !(TYPE_OBJECT_ARRAY <= tc <= TYPE_EVENT_DATA)
    modifies buf
    ensures Read(v, buf.unread) == Scalar(tc, old(buf.unread))
  {
    if tc == TYPE_BOOLEAN {
      var b, _ := buf.ReadByte();
      v := Bool(b != 0);
    } else if tc == TYPE_BYTE {
      var b, _ := buf.ReadByte();
      v := Byte(b);
    } else if tc == TYPE_SHORT {
      var s := ReadInt16(buf);
      v := Short(s);
    } else if tc == TYPE_FLOAT {
      var bits := buf.ReadFixed(4);
      v := Float(bits);
    } else if tc == TYPE_DOUBLE {
      var bits := buf.ReadFixed(8);
      v := Double(bits);
    } else if tc == TYPE_STRING {
      var s := ReadString(buf);
      v := Str(s);
    } else if tc == TYPE_COMPRESSED_INT {
      var n := ReadCompressedInt(32, buf);
      v := Int(n);
    } else if tc == TYPE_COMPRESSED_LONG {
      var n := ReadCompressedInt(64, buf);
      v := Long(n);
    } else if tc == TYPE_INT1 || tc == TYPE_INT1_NEG {
      var b, _ := buf.ReadByte();
      v := Int(if tc == TYPE_INT1 then b as int else -(b as int));
    } else if tc == TYPE_INT2 || tc == TYPE_INT2_NEG {
      var u := buf.ReadFixed(2);
      v := Int(if tc == TYPE_INT2 then u as int else -(u as int));
    } else if tc == TYPE_LONG1 || tc == TYPE_LONG1_NEG {
      var b, _ := buf.ReadByte();
      v := Long(if tc == TYPE_LONG1 then b as int else -(b as int));
    } else if tc == TYPE_LONG2 || tc == TYPE_LONG2_NEG {
      var u := buf.ReadFixed(2);
      v := Long(if tc == TYPE_LONG2 then u as int else -(u as int));
    } else if tc == TYPE_CUSTOM {
      v := DeserializeCustom(buf, 0);
    } else if tc == TYPE_UNKNOWN || tc == TYPE_NULL {
      v := Null;
    } else if tc == TYPE_BOOL_FALSE {
      v := Bool(false);
    } else if tc == TYPE_BOOL_TRUE {
      v := Bool(true);
    } else if tc == TYPE_SHORT_ZERO {
      v := Short(0);
    } else if tc == TYPE_INT_ZERO {
      v := Int(0);
    } else if tc == TYPE_LONG_ZERO {
      v := Long(0);
    } else if tc == TYPE_FLOAT_ZERO {
      v := Float(0);
    } else if tc == TYPE_DOUBLE_ZERO {
      v := Double(0);
    } else if tc == TYPE_BYTE_ZERO {
      v := Byte(0);
    } else {
      v := Str(Ascii("ERROR - unknown type 0x" + Hex2(tc)));
    }
  }

  /** The packed booleans of a typed array. */
  method DeserializeFlags(buf: ByteBuffer, size: nat) returns (result: seq<bool>)
    modifies buf
    ensures Read(result, buf.unread) == PackedFlags(size, old(buf.unread))
  {
    var packed := buf.ReadInto((size + 7) / 8);
    result := seq(size, _ => false);
    for i := 0 to size
      invariant |result| == size
      invariant result[..i] == UnpackBits(size, packed)[..i]
    {
      result := result[i := Bit(packed[i / 8], i % 8)];
    }
    assert result == result[..size] && UnpackBits(size, packed) == UnpackBits(size, packed)[..size];
  }

  /** `done` are the first of `size` elements decoded from `start`; the others are still to be
      decoded from `unread`. */
  ghost predicate Continues(tc: byte, size: nat, start: seq<byte>, done: seq<Value>, unread: seq<byte>) {
    |done| <= size &&
    var vs := Elements(size - |done|, tc, unread);
    Elements(size, tc, start) == Read(done + vs.val, vs.rest)
  }

  lemma ContinuesAtStart(tc: byte, size: nat, start: seq<byte>)
    ensures Continues(tc, size, start, [], start)
  {
    var vs := Elements(size, tc, start);
    assert [] + vs.val == vs.val;
  }

  lemma ContinuesOn(tc: byte, size: nat, start: seq<byte>, done: seq<Value>, unread: seq<byte>)
    requires Continues(tc, size, start, done, unread) && |done| < size
    ensures var v := Decode(tc, unread);
      Continues(tc, size, start, done + [v.val], v.rest) && |v.rest| <= |unread|
  {
    var v := Decode(tc, unread);
    var vs := Elements(size - |done| - 1, tc, v.rest);
    assert done + ([v.val] + vs.val) == (done + [v.val]) + vs.val;
  }

  lemma ContinuesAtEnd(tc: byte, size: nat, start: seq<byte>, done: seq<Value>, unread: seq<byte>)
    requires Continues(tc, size, start, done, unread) && |done| == size
    ensures Elements(size, tc, start) == Read(done, unread)
  {
    assert done + [] == done;
  }

  /** The loop of short arrays. */
  method DeserializeShorts(buf: ByteBuffer, size: nat) returns (result: seq<int16>)
    modifies buf
    ensures var vs := Elements(size, TYPE_SHORT, old(buf.unread));
      result == ShortsOf(vs.val) && buf.unread == vs.rest
  {
    ghost var vs: seq<Value> := [];
    result := seq(size, _ => 0);
    ContinuesAtStart(TYPE_SHORT, size, buf.unread);
    for i := 0 to size
      invariant |result| == size && |vs| == i && ShortsOf(vs) == result[..i]
      invariant Continues(TYPE_SHORT, size, old(buf.unread), vs, buf.unread)
    {
      ContinuesOn(TYPE_SHORT, size, old(buf.unread), vs, buf.unread);
      var s := ReadInt16(buf);
      result := result[i := s];
      vs := vs + [Short(s)];
    }
    ContinuesAtEnd(TYPE_SHORT, size, old(buf.unread), vs, buf.unread);
  }

  /** The numbers of an array, by element type. */
  function NumbersOf(tc: byte, vs: seq<Value>): seq<int> {
    if tc == TYPE_FLOAT then FloatsOf(vs)
    else if tc == TYPE_DOUBLE then DoublesOf(vs)
    else if tc == TYPE_COMPRESSED_INT then IntsOf(vs)
    else LongsOf(vs)
  }

  function NumberValue(tc: byte, n: int): Value
    requires tc == TYPE_FLOAT || tc == TYPE_DOUBLE ==> n >= 0
  {
    if tc == TYPE_FLOAT then Float(n)
    else if tc == TYPE_DOUBLE then Double(n)
    else if tc == TYPE_COMPRESSED_INT then Int(n)
    else Long(n)
  }

  lemma NumbersAppend(tc: byte, vs: seq<Value>, n: int)
    requires tc == TYPE_FLOAT || tc == TYPE_DOUBLE || tc == TYPE_COMPRESSED_INT || tc == TYPE_COMPRESSED_LONG
    requires tc == TYPE_FLOAT || tc == TYPE_DOUBLE ==> n >= 0
    ensures NumbersOf(tc, vs + [NumberValue(tc, n)]) == NumbersOf(tc, vs) + [n]
  {
  }

  lemma NumbersOfNone(tc: byte)
    ensures NumbersOf(tc, []) == []
  {
  }

  /** How the element types of the number loops decode. */
  lemma DecodeOfNumber(tc: byte, bs: seq<byte>)
    ensures tc == TYPE_FLOAT ==> Decode(tc, bs) == var u := Fixed(4, bs); Read(Float(u.val), u.rest)
    ensures tc == TYPE_DOUBLE ==> Decode(tc, bs) == var u := Fixed(8, bs); Read(Double(u.val), u.rest)
    ensures tc == TYPE_COMPRESSED_INT ==> Decode(tc, bs) == var v := Varint.Varint(32, bs); Read(Int(v.val), v.rest)
    ensures tc == TYPE_COMPRESSED_LONG ==> Decode(tc, bs) == var v := Varint.Varint(64, bs); Read(Long(v.val), v.rest)
  {
    hide Fixed, Varint.Varint, CustomPayload, Text, ConstantValue;
  }

  /** The loops of float arrays (k == 4) and of double arrays (k == 8), on bit patterns. */
  method DeserializePatterns(buf: ByteBuffer, size: nat, k: nat) returns (result: seq<nat>)
    requires k == 4 || k == 8
    modifies buf
    ensures var tc := if k == 4 then TYPE_FLOAT else TYPE_DOUBLE; var vs := Elements(size, tc, old(buf.unread));
      result == NumbersOf(tc, vs.val) && buf.unread == vs.rest
  {
    hide Elements, Decode, Continues, NumbersOf, Fixed;
    ghost var tc := if k == 4 then TYPE_FLOAT else TYPE_DOUBLE;
    ghost var vs: seq<Value> := [];
    result := seq(size, _ => 0);
    ContinuesAtStart(tc, size, buf.unread);
    NumbersOfNone(tc);
    for i := 0 to size
      invariant |result| == size && |vs| == i && result[..i] == NumbersOf(tc, vs)
      invariant Continues(tc, size, old(buf.unread), vs, buf.unread)
    {
      ContinuesOn(tc, size, old(buf.unread), vs, buf.unread);
      DecodeOfNumber(tc, buf.unread);
      var bits := buf.ReadFixed(k);
      NumbersAppend(tc, vs, bits);
      result := result[i := bits];
      vs := vs + [NumberValue(tc, bits)];
    }
    ContinuesAtEnd(tc, size, old(buf.unread), vs, buf.unread);
  }

  /** The loops of compressed int arrays (width 32) and long arrays (width 64). */
  method DeserializeCompressed(buf: ByteBuffer, size: nat, width: nat) returns (result: seq<int>)
    requires width == 32 || width == 64
    modifies buf
    ensures var tc := if width == 32 then TYPE_COMPRESSED_INT else TYPE_COMPRESSED_LONG;
      var vs := Elements(size, tc, old(buf.unread));
      result == NumbersOf(tc, vs.val) && buf.unread == vs.rest
  {
    hide Elements, Decode, Continues, NumbersOf, Varint.Varint;
    ghost var tc := if width == 32 then TYPE_COMPRESSED_INT else TYPE_COMPRESSED_LONG;
    ghost var vs: seq<Value> := [];
    result := seq(size, _ => 0);
    ContinuesAtStart(tc, size, buf.unread);
    NumbersOfNone(tc);
    for i := 0 to size
      invariant |result| == size && |vs| == i && result[..i] == NumbersOf(tc, vs)
      invariant Continues(tc, size, old(buf.unread), vs, buf.unread)
    {
      ContinuesOn(tc, size, old(buf.unread), vs, buf.unread);
      DecodeOfNumber(tc, buf.unread);
      var n := ReadCompressedInt(width, buf);
      NumbersAppend(tc, vs, n);
      result := result[i := n];
      vs := vs + [NumberValue(tc, n)];
    }
    ContinuesAtEnd(tc, size, old(buf.unread), vs, buf.unread);
  }

  /** The loop of string arrays. */
  method DeserializeStrings(buf: ByteBuffer, size: nat) returns (result: seq<seq<byte>>)
    modifies buf
    ensures var vs := Elements(size, TYPE_STRING, old(buf.unread));
      result == TextsOf(vs.val) && buf.unread == vs.rest
  {
    ghost var vs: seq<Value> := [];
    result := seq(size, _ => []);
    ContinuesAtStart(TYPE_STRING, size, buf.unread);
    for i := 0 to size
      invariant |result| == size && |vs| == i && TextsOf(vs) == result[..i]
      invariant Continues(TYPE_STRING, size, old(buf.unread), vs, buf.unread)
    {
      ContinuesOn(TYPE_STRING, size, old(buf.unread), vs, buf.unread);
      var s := ReadString(buf);
      result := result[i := s];
      vs := vs + [Str(s)];
    }
    ContinuesAtEnd(TYPE_STRING, size, old(buf.unread), vs, buf.unread);
  }

  /** Reading `n` bytes at once is reading one byte and then `n` - 1 bytes, also at the end. */
  lemma PaddedStep(n: nat, bs: seq<byte>)
    requires n > 0
    ensures var b := NextByte(bs); var p := Padded(n - 1, b.rest);
      Padded(n, bs) == Read([b.val] + p.val, p.rest)
  {
    var b := NextByte(bs);
    var p := Padded(n - 1, b.rest);
    assert Padded(n, bs).val == [b.val] + p.val;
    assert Padded(n, bs).rest == p.rest;
  }

  lemma {:induction false} OctetsAreRead(n: nat, bs: seq<byte>)
    ensures var vs := Elements(n, TYPE_BYTE, bs);
      Padded(n, bs) == Read(OctetsOf(vs.val), vs.rest)
  {
    if n == 0 {
      assert bs[0..] == bs && OctetsOf([]) == bs[..0];
    } else {
      hide NextByte, Padded, Decode, OctetsOf;
      var b := NextByte(bs);
      var vs := Elements(n - 1, TYPE_BYTE, b.rest).val;
      OctetsAreRead(n - 1, b.rest);
      PaddedStep(n, bs);
      OctetIsRead(bs);
      OctetsCons(b.val, vs);
    }
  }

  lemma OctetIsRead(bs: seq<byte>)
    ensures var b := NextByte(bs); Decode(TYPE_BYTE, bs) == Read(Byte(b.val), b.rest)
  {
    hide NextByte;
  }

  lemma OctetsCons(b: byte, vs: seq<Value>)
    ensures OctetsOf([Byte(b)] + vs) == [b] + OctetsOf(vs)
  {
  }

  /** The bulk read of byte arrays. */
  method DeserializeOctets(buf: ByteBuffer, size: nat) returns (data: seq<byte>)
    modifies buf
    ensures var vs := Elements(size, TYPE_BYTE, old(buf.unread));
      data == OctetsOf(vs.val) && buf.unread == vs.rest
  {
    OctetsAreRead(size, buf.unread);
    data := buf.ReadInto(size);
  }

  /** Moving an element over the boundary of a partly decoded array. */
  lemma Reassociate<T>(done: seq<T>, x: T, rest: seq<T>)
    ensures done + ([x] + rest) == (done + [x]) + rest
  {
  }

  /** As `Continues`, for the elements of a custom array. */
  ghost predicate CustomContinues(id: byte, size: nat, start: seq<byte>, done: seq<Value>, unread: seq<byte>) {
    |done| <= size &&
    var vs := CustomElements(size - |done|, id, unread);
    CustomElements(size, id, start) == Read(done + vs.val, vs.rest)
  }

  lemma CustomContinuesOn(id: byte, size: nat, start: seq<byte>, done: seq<Value>, unread: seq<byte>)
    requires CustomContinues(id, size, start, done, unread) && |done| < size
    ensures var v := CustomPayload(id, false, unread);
      CustomContinues(id, size, start, done + [v.val], v.rest)
  {
    var v := CustomPayload(id, false, unread);
    Reassociate(done, v.val, CustomElements(size - |done| - 1, id, v.rest).val);
  }

  lemma CustomContinuesEnds(id: byte, size: nat, start: seq<byte>, done: seq<Value>, unread: seq<byte>)
    ensures CustomContinues(id, size, start, [], start)
    ensures CustomContinues(id, size, start, done, unread) && |done| == size ==>
      CustomElements(size, id, start) == Read(done, unread)
  {
    var vs := CustomElements(size, id, start);
    assert [] + vs.val == vs.val;
    assert done + [] == done;
  }

  /** The loop of custom arrays, whose elements share one type id. */
  method DeserializeCustoms(buf: ByteBuffer, size: nat) returns (result: seq<Value>)
    modifies buf
    ensures var id := NextByte(old(buf.unread));
      Read(result, buf.unread) == CustomElements(size, id.val, id.rest)
  {
    hide CustomPayload, CustomElements, CustomContinues;
    var customTypeID, _ := buf.ReadByte();
    ghost var start := buf.unread;
    result := seq(size, _ => Null);
    CustomContinuesEnds(customTypeID, size, start, [], start);
    for i := 0 to size
      invariant |result| == size
      invariant CustomContinues(customTypeID, size, start, result[..i], buf.unread)
    {
      CustomContinuesOn(customTypeID, size, start, result[..i], buf.unread);
      var v := DeserializeCustomPayload(buf, customTypeID, false);
      result := result[i := v];
      assert result[..i + 1] == result[..i] + [v];
    }
    assert result[..size] == result;
    CustomContinuesEnds(customTypeID, size, start, result, buf.unread);
  }

  /** The generic loop: `size` values of one type code. */
  method DeserializeElements(buf: ByteBuffer, size: nat, tc: byte) returns (result: seq<Value>)
    modifies buf
    ensures Read(result, buf.unread) == Elements(size, tc, old(buf.unread))
    decreases if size == 0 then 0 else |buf.unread| + 1, 2, 0
  {
    result := seq(size, _ => Null);
    ContinuesAtStart(tc, size, buf.unread);
    for i := 0 to size
      invariant |result| == size && |buf.unread| <= |old(buf.unread)|
      invariant Continues(tc, size, old(buf.unread), result[..i], buf.unread)
    {
      ContinuesOn(tc, size, old(buf.unread), result[..i], buf.unread);
      var v := Deserialize(buf, tc);
      result := result[i := v];
      assert result[..i + 1] == result[..i] + [v];
    }
    assert result[..size] == result;
    ContinuesAtEnd(tc, size, old(buf.unread), result, buf.unread);
  }

  /** The loops of dictionary and hashtable arrays. */
  method DeserializeTables(buf: ByteBuffer, size: nat, tc: byte) returns (result: seq<Value>)
    requires tc == TYPE_DICTIONARY || tc == TYPE_HASHTABLE
    modifies buf
    ensures Read(result, buf.unread) == Elements(size, tc, old(buf.unread))
    decreases if size == 0 then 0 else |buf.unread| + 1, 2, 0
  {
    result := seq(size, _ => Null);
    ContinuesAtStart(tc, size, buf.unread);
    for i := 0 to size
      invariant |result| == size && |buf.unread| <= |old(buf.unread)|
      invariant Continues(tc, size, old(buf.unread), result[..i], buf.unread)
    {
      ContinuesOn(tc, size, old(buf.unread), result[..i], buf.unread);
      var v;
      if tc == TYPE_DICTIONARY {
        v := DeserializeDictionary(buf);
      } else {
        v := DeserializeHashtable(buf);
      }
      result := result[i := v];
      assert result[..i + 1] == result[..i] + [v];
    }
    assert result[..size] == result;
    ContinuesAtEnd(tc, size, old(buf.unread), result, buf.unread);
  }

  method DeserializeTypedArray(buf: ByteBuffer, elemType: byte) returns (v: Value)
    requires elemType < TYPE_ARRAY
    modifies buf
    ensures Read(v, buf.unread) == TypedArray(elemType, old(buf.unread))
    decreases |buf.unread| + 1, 0, 0
  {
    var size := ReadCount(buf);
    if elemType == TYPE_BOOLEAN {
      var flags := DeserializeFlags(buf, size);
      v := BoolArray(flags);
    } else if elemType == TYPE_BYTE {
      var data := DeserializeOctets(buf, size);
      v := ByteArray(data);
    } else if elemType == TYPE_SHORT {
      var result := DeserializeShorts(buf, size);
      v := ShortArray(result);
    } else if elemType == TYPE_FLOAT {
      var result := DeserializePatterns(buf, size, 4);
      v := FloatArray(result);
    } else if elemType == TYPE_DOUBLE {
      var result := DeserializePatterns(buf, size, 8);
      v := DoubleArray(result);
    } else if elemType == TYPE_STRING {
      var result := DeserializeStrings(buf, size);
      v := StrArray(result);
    } else if elemType == TYPE_CUSTOM {
      var result := DeserializeCustoms(buf, size);
      v := Array(result);
    } else if elemType == TYPE_DICTIONARY || elemType == TYPE_HASHTABLE {
      var result := DeserializeTables(buf, size, elemType);
      v := Array(result);
    } else if elemType == TYPE_COMPRESSED_INT {
      var result := DeserializeCompressed(buf, size, 32);
      v := IntArray(result);
    } else if elemType == TYPE_COMPRESSED_LONG {
      var result := DeserializeCompressed(buf, size, 64);
      v := LongArray(result);
    } else {
      var result := DeserializeElements(buf, size, elemType);
      v := Array(result);
    }
  }

  method DeserializeNestedArray(buf: ByteBuffer) returns (v: Value)
    modifies buf
    ensures Read(v, buf.unread) == NestedArray(old(buf.unread))
    decreases |buf.unread| + 1, 0, 0
  {
    var size := ReadCount(buf);
    var tc, ok := buf.ReadByte();
    if !ok {
      return Null;
    }
    var result := DeserializeElements(buf, size, tc);
    v := Array(result);
  }

  method DeserializeObjectArray(buf: ByteBuffer) returns (v: Value)
    modifies buf
    ensures Read(v, buf.unread) == ObjectArray(old(buf.unread))
    decreases |buf.unread| + 1, 0, 0
  {
    hide Decode, Varint.Uvarint;
    var size := ReadCount(buf);
    ghost var start := buf.unread;
    var result: seq<Value> := seq(size, _ => Null);
    var i := 0;
    assert result[..0] + TaggedElements(size, start).val == TaggedElements(size, start).val;
    while i < size
      invariant 0 <= i <= size == |result|
      invariant |buf.unread| <= |start|
      invariant result[i..] == seq(size - i, _ => Null)
      invariant var vs := TaggedElements(size - i, buf.unread);
        TaggedElements(size, start) == Read(result[..i] + vs.val, vs.rest)
    {
      var tc, ok := buf.ReadByte();
      if !ok {
        break;
      }
      ghost var done := result[..i];
      var e := Deserialize(buf, tc);
      Reassociate(done, e, TaggedElements(size - i - 1, buf.unread).val);
      result := result[i := e];
      assert result[..i + 1] == done + [e];
      i := i + 1;
    }
    assert result == result[..i] + result[i..];
    v := Array(result);
  }

  /** One entry of a dictionary. */
  method DeserializeEntry(buf: ByteBuffer, keyTC: byte, valTC: byte) returns (key: Value, val: Value)
    modifies buf
    ensures Read(Entry(key, val), buf.unread) == DictEntry(keyTC, valTC, old(buf.unread))
    decreases |buf.unread| + 1, 1, 1
  {
    var kt, vt, ok := keyTC, valTC, true;
    if keyTC == 0 {
      kt, ok := buf.ReadByte();
    }
    if valTC == 0 {
      vt, ok := buf.ReadByte();
    }
    key := Deserialize(buf, kt);
    val := Deserialize(buf, vt);
  }

  method DeserializeDictionary(buf: ByteBuffer) returns (v: Value)
    modifies buf
    ensures Read(v, buf.unread) == Dictionary(old(buf.unread))
    decreases |buf.unread| + 1, 0, 0
  {
    hide DictEntry, Put, StoredKey, Varint.Uvarint;
    var keyTC, _ := buf.ReadByte();
    var valTC, _ := buf.ReadByte();
    var count := ReadCount(buf);
    var out: seq<Entry> := [];
    ghost var start := buf.unread;
    var i := 0;
    while i < count && buf.Len() > 0
      invariant 0 <= i <= count && |buf.unread| <= |start|
      invariant DictEntries(i, count, keyTC, valTC, buf.unread, out) == DictEntries(0, count, keyTC, valTC, start, [])
    {
      var key, val := DeserializeEntry(buf, keyTC, valTC);
      out := Put(out, StoredKey(i, key), val);
      i := i + 1;
    }
    v := Dict(out);
  }

  method DeserializeHashtable(buf: ByteBuffer) returns (v: Value)
    modifies buf
    ensures Read(v, buf.unread) == Dictionary(old(buf.unread))
    decreases |buf.unread| + 1, 0, 1
  {
    v := DeserializeDictionary(buf);
  }

  method ReadParameterTable(buf: ByteBuffer) returns (params: Params)
    modifies buf
    ensures Read(params, buf.unread) == ParamTable(old(buf.unread))
    decreases |buf.unread| + 1, 0, 0
  {
    var count := ReadCount(buf);
    params := map[];
    ghost var start := buf.unread;
    var i := 0;
    while i < count && buf.Len() > 0
      invariant 0 <= i <= count && |buf.unread| <= |start|
      invariant ParamEntries(count - i, buf.unread, params) == ParamEntries(count, start, map[])
    {
      var key, _ := buf.ReadByte();
      var tc, ok := buf.ReadByte();
      if !ok {
        break;
      }
      var v := Deserialize(buf, tc);
      params := params[key := v];
      i := i + 1;
    }
  }

  method DeserializeOperationRequestInner(buf: ByteBuffer) returns (v: Value)
    modifies buf
    ensures Read(v, buf.unread) == RequestBody(old(buf.unread))
    decreases |buf.unread| + 1, 0, 1
  {
    var opCode, _ := buf.ReadByte();
    var params := ReadParameterTable(buf);
    v := Request(opCode, params);
  }

  method DeserializeOperationResponseInner(buf: ByteBuffer) returns (v: Value)
    modifies buf
    ensures Read(v, buf.unread) == ResponseBody(old(buf.unread))
    decreases |buf.unread| + 1, 0, 1
  {
    if buf.Len() < 3 {
      return Null;
    }
    var opCode, _ := buf.ReadByte();
    var returnCode := ReadInt16(buf);
    var debugMsg := [];
    if buf.Len() > 0 {
      var tc, _ := buf.ReadByte();
      var dbg := Deserialize(buf, tc);
      if dbg.Str? {
        debugMsg := dbg.text;
      }
    }
    var params := ReadParameterTable(buf);
    v := Response(opCode, returnCode, debugMsg, params);
  }

  method DeserializeEventDataInner(buf: ByteBuffer) returns (v: Value)
    modifies buf
    ensures Read(v, buf.unread) == EventBody(old(buf.unread))
    decreases |buf.unread| + 1, 0, 1
  {
    var code, _ := buf.ReadByte();
    var params := ReadParameterTable(buf);
    v := Event(code, params);
  }

  method DeserializeParameterTable(data: seq<byte>) returns (params: Params)
    ensures params == ParamTable(data).val
  {
    var buf := new ByteBuffer(data);
    params := ReadParameterTable(buf);
  }
}
