/** The Go values that a Protocol18 decoder produces, and Go's map assignment on them. */
module Values {
  import opened Bytes

  /** A decoded value. Each constructor is one dynamic Go type; floats are kept as their bit
      patterns. `Array` is []interface{}; `Dict` is map[interface{}]interface{}, as the list of its
      entries; `Custom`, `Request`, `Response` and `Event` are the string-keyed maps that the
      decoder builds. */
  datatype Value =
    | Null
    | Bool(flag: bool)
    | Byte(octet: byte)
    | Short(short: int16)
    | Int(num: int)
    | Long(long: int)
    | Float(bits32: nat)
    | Double(bits64: nat)
    | Str(text: seq<byte>)
    | BoolArray(flags: seq<bool>)
    | ByteArray(octets: seq<byte>)
    | ShortArray(shorts: seq<int16>)
    | IntArray(nums: seq<int>)
    | LongArray(longs: seq<int>)
    | FloatArray(floats: seq<nat>)
    | DoubleArray(doubles: seq<nat>)
    | StrArray(texts: seq<seq<byte>>)
    | Array(elems: seq<Value>)
    | Dict(entries: seq<Entry>)
    | Custom(id: byte, data: seq<byte>)
    | Request(opCode: byte, params: map<byte, Value>)
    | Response(opCode: byte, returnCode: int16, debug: seq<byte>, params: map<byte, Value>)
    | Event(code: byte, params: map<byte, Value>)

  datatype Entry = Entry(key: Value, val: Value)

  type Params = map<byte, Value>

  /** Whether Go can use the value as a map key: slices and maps cannot be compared. */
  predicate IsComparable(v: Value) {
    v.Null? || v.Bool? || v.Byte? || v.Short? || v.Int? || v.Long? || v.Float? || v.Double? || v.Str?
  }

  predicate IsNaN32(bits: nat) {
    bits / 0x80_0000 % 0x100 == 0xFF && bits % 0x80_0000 != 0
  }

  predicate IsNaN64(bits: nat) {
    bits / 0x10_0000_0000_0000 % 0x800 == 0x7FF && bits % 0x10_0000_0000_0000 != 0
  }

  /** Go's `==` on two comparable interface values: a NaN equals nothing, not even itself, and
      the two zeros are equal. */
  predicate KeyEq(a: Value, b: Value) {
    if a.Float? && b.Float? then
      !IsNaN32(a.bits32) && !IsNaN32(b.bits32)
      && (a.bits32 == b.bits32 || (a.bits32 % 0x8000_0000 == 0 && b.bits32 % 0x8000_0000 == 0))
    else if a.Double? && b.Double? then
      !IsNaN64(a.bits64) && !IsNaN64(b.bits64)
      && (a.bits64 == b.bits64
          || (a.bits64 % 0x8000_0000_0000_0000 == 0 && b.bits64 % 0x8000_0000_0000_0000 == 0))
    else a == b
  }

  /** The Go assignment `m[key] = val`: an equal key is overwritten, any other is added. */
  function Put(m: seq<Entry>, key: Value, val: Value): seq<Entry> {
    if m == [] then [Entry(key, val)]
    else if KeyEq(m[0].key, key) then [Entry(key, val)] + m[1..]
    else [m[0]] + Put(m[1..], key, val)
  }

  /** The key under which entry number `i` of a dictionary is stored. */
  function StoredKey(i: nat, key: Value): Value {
    if IsComparable(key) then key
    else Str(Ascii("UNHASHABLE_" + Decimal(i) + "_" + TypeName(key)))
  }

  function Ascii(s: string): seq<byte> {
    seq(|s|, i requires 0 <= i < |s| => s[i] as int % 0x100)
  }

  function Decimal(n: nat): string {
    if n < 10 then [DIGITS[n]] else Decimal(n / 10) + [DIGITS[n % 10]]
  }

  const DIGITS: string := "0123456789ABCDEF"

  function Hex2(b: byte): string {
    [DIGITS[b / 0x10], DIGITS[b % 0x10]]
  }

  /** Go's %T of the values that cannot be map keys. */
  function TypeName(v: Value): string {
    match v
    case BoolArray(_) => "[]bool"
    case ByteArray(_) => "[]uint8"
    case ShortArray(_) => "[]int16"
    case IntArray(_) => "[]int32"
    case LongArray(_) => "[]int64"
    case FloatArray(_) => "[]float32"
    case DoubleArray(_) => "[]float64"
    case StrArray(_) => "[]string"
    case Array(_) => "[]interface {}"
    case Dict(_) => "map[interface {}]interface {}"
    case _ => "map[string]interface {}"
  }

  /** Storing under a key equal to none present adds one entry and changes no other. */
  lemma {:induction false} PutNew(m: seq<Entry>, key: Value, val: Value)
    requires forall i :: 0 <= i < |m| ==> !KeyEq(m[i].key, key)
    ensures Put(m, key, val) == m + [Entry(key, val)]
  {
    if m == [] {
    } else {
      PutNew(m[1..], key, val);
    }
  }

  /** Storing under a key equal to one present, and to none before it, overwrites that entry only. */
  lemma {:induction false} PutOld(m: seq<Entry>, key: Value, val: Value, i: nat)
    requires i < |m| && KeyEq(m[i].key, key) && forall j :: 0 <= j < i ==> !KeyEq(m[j].key, key)
    ensures Put(m, key, val) == m[i := Entry(key, val)]
  {
    if i == 0 {
    } else {
      PutOld(m[1..], key, val, i - 1);
    }
  }

  /** Go's map keys: equal values are equal keys except NaN, and only the two zeros are different
      values that are equal keys. */
  lemma KeysAreGo(a: Value, b: Value)
    ensures KeyEq(a, a) <==> !((a.Float? && IsNaN32(a.bits32)) || (a.Double? && IsNaN64(a.bits64)))
    ensures a != b && KeyEq(a, b) ==> (a.Float? && b.Float?) || (a.Double? && b.Double?)
    ensures (a != b && KeyEq(a, b) && a.Float? && a.bits32 < 0x1_0000_0000 && b.bits32 < 0x1_0000_0000)
      ==> {a.bits32, b.bits32} == {0, 0x8000_0000}
    ensures (a != b && KeyEq(a, b) && a.Double?
             && a.bits64 < 0x1_0000_0000_0000_0000 && b.bits64 < 0x1_0000_0000_0000_0000)
      ==> {a.bits64, b.bits64} == {0, 0x8000_0000_0000_0000}
    ensures KeyEq(Float(0), Float(0x8000_0000)) && KeyEq(Double(0x8000_0000_0000_0000), Double(0))
    ensures IsNaN32(0x7FC0_0000) && IsNaN32(0xFF80_0001) && !IsNaN32(0x7F80_0000) && !IsNaN32(0x3F80_0000)
    ensures IsNaN64(0x7FF8_0000_0000_0000) && !IsNaN64(0x7FF0_0000_0000_0000) && !IsNaN64(0x3FF0_0000_0000_0000)
  {
  }

  /** The number that decimal digits spell. */
  function FromDecimal(s: string): int {
    if s == [] then 0 else 10 * FromDecimal(s[..|s| - 1]) + (s[|s| - 1] as int - '0' as int)
  }

  lemma DigitsAreDigits(d: nat)
    requires d < 10
    ensures DIGITS[d] as int - '0' as int == d
  {
  }

  /** %d: digits only, spelling the number, without leading zeros. */
  lemma {:induction false} DecimalSpells(n: nat)
    ensures Decimal(n) != [] && FromDecimal(Decimal(n)) == n
    ensures forall i :: 0 <= i < |Decimal(n)| ==> '0' <= Decimal(n)[i] <= '9'
    ensures n > 0 ==> Decimal(n)[0] != '0'
  {
    DigitsAreDigits(n % 10);
    if n < 10 {
      assert [DIGITS[n]][..0] == [];
    } else {
      DecimalSpells(n / 10);
      var s := Decimal(n);
      assert s[..|s| - 1] == Decimal(n / 10);
    }
  }

  lemma AsciiAt(s: string, i: nat)
    requires i < |s| && s[i] as int < 0x80
    ensures |Ascii(s)| == |s| && Ascii(s)[i] == s[i] as int
  {
  }

  /** What can be a key is stored as it is; everything else under a name with its number and type. */
  lemma KeysAreStored(i: nat, v: Value)
    ensures StoredKey(i, v) ==
      if v.Null? || v.Bool? || v.Byte? || v.Short? || v.Int? || v.Long? || v.Float? || v.Double? || v.Str? then v
      else Str(Ascii("UNHASHABLE_" + Decimal(i) + "_" + TypeName(v)))
  {
    hide Decimal, Ascii, TypeName;
  }

  lemma SliceNames(v: Value)
    ensures v.BoolArray? ==> TypeName(v) == "[]bool"
    ensures v.ByteArray? ==> TypeName(v) == "[]uint8"
    ensures v.ShortArray? ==> TypeName(v) == "[]int16"
    ensures v.IntArray? ==> TypeName(v) == "[]int32"
    ensures v.LongArray? ==> TypeName(v) == "[]int64"
    ensures v.FloatArray? ==> TypeName(v) == "[]float32"
  {
  }

  lemma OtherNames(v: Value)
    ensures v.DoubleArray? ==> TypeName(v) == "[]float64"
    ensures v.StrArray? ==> TypeName(v) == "[]string"
    ensures v.Array? ==> TypeName(v) == "[]interface {}"
    ensures v.Dict? ==> TypeName(v) == "map[interface {}]interface {}"
    ensures v.Custom? || v.Request? || v.Response? || v.Event? ==> TypeName(v) == "map[string]interface {}"
  {
  }

  /** Nesting depth: scalars and flat arrays are at depth 0. */
  ghost predicate DepthAtMost(v: Value, d: nat)
    decreases d, 1
  {
    match v
    case Array(elems) => elems == [] || (d > 0 && forall i :: 0 <= i < |elems| ==> DepthAtMost(elems[i], d - 1))
    case Dict(entries) =>
      entries == [] || (d > 0 && forall i :: 0 <= i < |entries| ==>
        DepthAtMost(entries[i].key, d - 1) && DepthAtMost(entries[i].val, d - 1))
    case Request(_, params) => ParamsDepthAtMost(params, d)
    case Response(_, _, _, params) => ParamsDepthAtMost(params, d)
    case Event(_, params) => ParamsDepthAtMost(params, d)
    case _ => true
  }

  ghost predicate ParamsDepthAtMost(params: Params, d: nat)
    decreases d, 0
  {
    params == map[] || (d > 0 && forall k :: k in params ==> DepthAtMost(params[k], d - 1))
  }
}
