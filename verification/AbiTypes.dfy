/**
 The parameter types, the values they carry, and what the type converters write and read back.
 */
module AbiTypes {
  import opened Options
  import opened Words

  datatype Type =
    | UInt(size: nat)
    | Int(size: nat)
    | Fixed(m: nat, n: nat)
    | UFixed(m: nat, n: nat)
    | Bool
    | StaticBytes(length: nat)
    | DynamicBytes
    | StaticArray(component: Type, count: nat)
    | DynamicArray(component: Type)

  datatype Value =
    | IntegerValue(i: int)
    | DecimalValue(d: real)
    | BoolValue(b: bool)
    | BytesValue(bytes: Bytes)
    | ArrayValue(elements: seq<Value>)

  predicate ValidSize(size: nat) {
    0 < size <= 256 && size % 8 == 0
  }

  /** The sizes the constructors of the type converters accept. */
  predicate Supported(t: Type) {
    match t
    case UInt(size) => ValidSize(size)
    case Int(size) => ValidSize(size)
    case Fixed(m, n) => 8 <= m && 8 <= n && m + n <= 256 && m % 8 == 0 && n % 8 == 0
    case UFixed(m, n) => 8 <= m && 8 <= n && m + n <= 256 && m % 8 == 0 && n % 8 == 0
    case Bool => true
    case StaticBytes(length) => 0 < length <= 32
    case DynamicBytes => true
    case StaticArray(component, count) => 0 < count && Supported(component)
    case DynamicArray(component) => Supported(component)
  }

  predicate IsDynamic(t: Type) {
    t.DynamicBytes? || t.DynamicArray?
  }

  function HeadSize(t: Type): (size: nat) {
    if t.StaticArray? then t.count * HeadSize(t.component) else 32
  }

  const TWO_31: int := 0x8000_0000
  const TWO_32: int := 0x1_0000_0000

  /** The low 32 bits of an integer, as a signed number. */
  function IntValue(x: int): (r: int)
    ensures -TWO_31 <= r < TWO_31
    ensures -TWO_31 <= x < TWO_31 ==> r == x
  {
    (x + TWO_31) % TWO_32 - TWO_31
  }

  function Word(v: int): (s: Bytes)
    ensures |s| == 32
  {
    TwosComplement(v, WordBytes())
  }

  function RightPadded(s: Bytes): (r: Bytes)
    ensures |r| % 32 == 0 && |s| <= |r| && r[..|s|] == s
  {
    if |s| % 32 == 0 then s else s + Repeat(0, 32 - |s| % 32)
  }

  /** The integer that a decimal is written as, if it has one. */
  function Scaled(d: real, n: nat): Option<int> {
    var x := d * Pow2(n) as real;
    if x.Floor as real == x then Some(x.Floor) else None
  }

  /** The decimal that an integer is read as. */
  function Unscaled(i: int, n: nat): real {
    i as real / Pow2(n) as real
  }

  // ------------------------------------------------------------------ writing

  type Encoder = Value -> Option<Bytes>

  /** What serialising a value writes; None when it is refused with an exception. */
  function Enc(t: Type, v: Value): Option<Bytes>
    decreases t, 0
  {
    if t.StaticArray? then
      if v.ArrayValue? && |v.elements| == t.count then EncAll(EncOf(t.component), v.elements) else None
    else if t.DynamicArray? then
      if v.ArrayValue? && |v.elements| < TWO_31
          then Prefixed(Word(|v.elements|), EncAll(EncOf(t.component), v.elements)) else None
    else EncScalar(t, v)
  }

  function EncOf(t: Type): Encoder
    decreases t, 1
  {
    (v: Value) => Enc(t, v)
  }

  function Prefixed(prefix: Bytes, b: Option<Bytes>): Option<Bytes> {
    if b.None? then None else Some(prefix + b.value)
  }

  function EncAll(enc: Encoder, es: seq<Value>): Option<Bytes>
    decreases |es|
  {
    if es == [] then Some([])
    else
      var first := enc(es[0]);
      var rest := EncAll(enc, es[1..]);
      if first.None? || rest.None? then None else Some(first.value + rest.value)
  }

  function EncScalar(t: Type, v: Value): Option<Bytes> {
    match t
    case UInt(size) => if v.IntegerValue? then EncUInt(size, v.i) else None
    case Int(size) => if v.IntegerValue? then EncInt(size, v.i) else None
    case Fixed(m, n) => if v.DecimalValue? && Scaled(v.d, n).Some? then EncInt(m + n, Scaled(v.d, n).value) else None
    case UFixed(m, n) => if v.DecimalValue? && Scaled(v.d, n).Some? then EncUInt(m + n, Scaled(v.d, n).value) else None
    case Bool => if v.BoolValue? then EncUInt(8, if v.b then 1 else 0) else None
    case StaticBytes(length) => if v.BytesValue? && |v.bytes| == length then Some(RightPadded(v.bytes)) else None
    case DynamicBytes => if v.BytesValue? && |v.bytes| < TWO_31 then Some(Word(|v.bytes|) + RightPadded(v.bytes))
        else None
    case _ => None
  }

  function EncUInt(size: nat, i: int): Option<Bytes> {
    if i < 0 || BitLength(i) > size then None else Some(Word(i))
  }

  function EncInt(size: nat, i: int): Option<Bytes> {
    if BitLength(i) + 1 > size then None else Some(Word(i))
  }

  // ------------------------------------------------------------------ reading

  /** A value read, and the position behind it. */
  datatype Read<+T> = Read(value: T, position: nat)

  type Decoder = nat -> Option<Read<Value>>

  /** What deserialising from a position reads; None for an exception. */
  function Dec(t: Type, s: Bytes, pos: nat): Option<Read<Value>>
    decreases t, 0
  {
    if t.StaticArray? then AsArray(DecAll(DecOf(t.component, s), t.count, pos))
    else if t.DynamicArray? then
      var size := DecLength(s, pos);
      if size.None? then None else AsArray(DecAll(DecOf(t.component, s), size.value, pos + 32))
    else DecScalar(t, s, pos)
  }

  function DecOf(t: Type, s: Bytes): Decoder
    decreases t, 1
  {
    (pos: nat) => Dec(t, s, pos)
  }

  function AsArray(r: Option<Read<seq<Value>>>): Option<Read<Value>> {
    if r.None? then None else Some(Read(ArrayValue(r.value.value), r.value.position))
  }

  function DecAll(dec: Decoder, n: nat, pos: nat): Option<Read<seq<Value>>>
    decreases n
  {
    if n == 0 then Some(Read([], pos))
    else
      var first := dec(pos);
      if first.None? then None
      else
        var rest := DecAll(dec, n - 1, first.value.position);
        if rest.None? then None else Some(Read([first.value.value] + rest.value.value, rest.value.position))
  }

  function DecScalar(t: Type, s: Bytes, pos: nat): Option<Read<Value>> {
    match t
    case UInt(size) => AsInteger(DecUInt(size, s, pos), pos)
    case Int(size) => AsInteger(DecInt(size, s, pos), pos)
    case Fixed(m, n) => AsDecimal(DecInt(m + n, s, pos), n, pos)
    case UFixed(m, n) => AsDecimal(DecUInt(m + n, s, pos), n, pos)
    case Bool =>
      var x := DecUInt(8, s, pos);
      if x == Some(0) || x == Some(1) then Some(Read(BoolValue(x == Some(1)), pos + 32)) else None
    case StaticBytes(length) => DecBytes(length, 32, s, pos)
    case DynamicBytes =>
      var size := DecLength(s, pos);
      if size.None? then None else DecBytes(size.value, PaddedLength(size.value), s, pos + 32)
    case _ => None
  }

  function AsInteger(x: Option<int>, pos: nat): Option<Read<Value>> {
    if x.None? then None else Some(Read(IntegerValue(x.value), pos + 32))
  }

  function AsDecimal(x: Option<int>, n: nat, pos: nat): Option<Read<Value>> {
    if x.None? then None else Some(Read(DecimalValue(Unscaled(x.value, n)), pos + 32))
  }

  /** Bytes, and padding up to the padded length, which has to be zero. */
  function DecBytes(size: nat, padded: nat, s: Bytes, pos: nat): Option<Read<Value>> {
    if padded < size || |s| < pos + padded || !AllZero(s[pos + size..pos + padded]) then None
    else Some(Read(BytesValue(s[pos..pos + size]), pos + padded))
  }

  function DecLength(s: Bytes, pos: nat): (r: Option<nat>) {
    var x := DecUInt(256, s, pos);
    if x.None? || IntValue(x.value) < 0 then None else Some(IntValue(x.value))
  }

  function DecWord(s: Bytes, pos: nat): Option<int> {
    if |s| < pos + 32 then None else Some(Signed(s[pos..pos + 32]))
  }

  function DecUInt(size: nat, s: Bytes, pos: nat): Option<int> {
    var x := DecWord(s, pos);
    if x.None? || BitLength(x.value) > size then None else x
  }

  function DecInt(size: nat, s: Bytes, pos: nat): Option<int> {
    var x := DecWord(s, pos);
    if x.None? || BitLength(x.value) + (if x.value < 0 then 1 else 0) > size then None else x
  }

  predicate AllZero(s: Bytes) {
    forall i | 0 <= i < |s| :: s[i] == 0
  }

  function PaddedLength(size: nat): (r: nat)
    ensures size <= r && r % 32 == 0
  {
    if size % 32 == 0 then size else size + (32 - size % 32)
  }
}
