/**
 The type converters: each moves a byte buffer as the original does, and is proved against what `AbiTypes`
 says is written or read. A method returns false where the original throws.
 */
module Converters {
  import opened Options
  import opened Words
  import opened AbiTypes
  import opened ByteBuffers
  import R = AbiRoundTrip

  /** A put succeeds exactly if there is something to write and room for it, and then appends it. */
  ghost predicate Puts(enc: Option<Bytes>, before: Bytes, room: int, ok: bool, after: Bytes) {
    && ok == (enc.Some? && |enc.value| <= room)
    && (ok ==> after == before + enc.value)
  }

  function LeadingZeroCount(bytes: Bytes): (n: nat)
    requires bytes != []
    ensures n < |bytes| && (forall i | 0 <= i < n :: bytes[i] == 0)
    ensures n == |bytes| - 1 || bytes[n] != 0
  {
    if |bytes| > 1 && bytes[0] == 0 then 1 + LeadingZeroCount(bytes[1..]) else 0
  }

  method LeadingZeros(bytes: Bytes) returns (offset: nat)
    requires bytes != []
    ensures offset == LeadingZeroCount(bytes)
  {
    offset := 0;
    while offset < |bytes| - 1 && bytes[offset] == 0
      invariant offset < |bytes| && offset + LeadingZeroCount(bytes[offset..]) == LeadingZeroCount(bytes)
    {
      assert bytes[offset..][1..] == bytes[offset + 1..];
      offset := offset + 1;
    }
  }

  /** A byte array without its leading zeros, padded on the left to one word; None when it is too long. */
  function LeftPadded(bytes: Bytes, pad: byte): (r: Option<Bytes>)
    requires bytes != []
  {
    var rest := bytes[LeadingZeroCount(bytes)..];
    if |rest| > 32 then None else Some(Repeat(pad, 32 - |rest|) + rest)
  }

  method LpadTo32(byteBuffer: ByteBuffer, bytes: Bytes, pad: byte) returns (ok: bool)
    requires byteBuffer.Valid() && bytes != []
    modifies byteBuffer, byteBuffer.bytes
    ensures byteBuffer.Valid() && byteBuffer.limit == old(byteBuffer.limit)
    ensures Puts(LeftPadded(bytes, pad), old(byteBuffer.Written()), old(byteBuffer.limit - byteBuffer.position), ok,
                 byteBuffer.Written())
  {
    var pads := Repeat(pad, 32);
    var offset := LeadingZeros(bytes);
    var length := |bytes| - offset;
    if length > |pads| {
      return false;
    }
    assert Repeat(pad, 32 - length) == pads[..32 - length];
    assert bytes[offset..] == bytes[offset..offset + length];
    ok := byteBuffer.Put(pads, 0, |pads| - length);
    if ok {
      ok := byteBuffer.Put(bytes, offset, length);
    }
  }

  /** Pads on the right with zeros to whole words. */
  method RpadZeroTo32(byteBuffer: ByteBuffer, bytes: Bytes) returns (ok: bool)
    requires byteBuffer.Valid()
    modifies byteBuffer, byteBuffer.bytes
    ensures byteBuffer.Valid() && byteBuffer.limit == old(byteBuffer.limit)
    ensures Puts(Some(RightPadded(bytes)), old(byteBuffer.Written()), old(byteBuffer.limit - byteBuffer.position), ok,
                 byteBuffer.Written())
  {
    ok := byteBuffer.Put(bytes, 0, |bytes|);
    if ok && |bytes| % 32 != 0 {
      var padSize := 32 - |bytes| % 32;
      ok := byteBuffer.Put(Repeat(0, 32), 0, padSize);
      assert Repeat(0, 32)[..padSize] == Repeat(0, padSize);
    }
  }

  // ------------------------------------------------------------------ integers

  method SerialiseUInt(size: nat, byteBuffer: ByteBuffer, value: int) returns (ok: bool)
    requires ValidSize(size) && byteBuffer.Valid()
    modifies byteBuffer, byteBuffer.bytes
    ensures byteBuffer.Valid() && byteBuffer.limit == old(byteBuffer.limit)
    ensures Puts(EncUInt(size, value), old(byteBuffer.Written()), old(byteBuffer.limit - byteBuffer.position), ok,
                 byteBuffer.Written())
  {
    if value < 0 || BitLength(value) > size {
      return false;
    }
    UIntWord(size, value);
    ok := LpadTo32(byteBuffer, ToByteArray(value), 0);
  }

  /** For an unsigned number this writes its word, even when its byte array has a 33rd, zero byte. */
  lemma UIntWord(size: nat, value: int)
    requires ValidSize(size) && 0 <= value && BitLength(value) <= size
    ensures LeftPadded(ToByteArray(value), 0) == Some(Word(value))
  {
    hide BitLength, Pow2, Pow256;
    BitLengthIff(value, size);
    Pow2Grows(size, 8 * WordBytes());
    Pow2Of8(WordBytes());
    StrippedWord(value, LeadingZeroCount(ToByteArray(value)));
  }

  method SerialiseInt(size: nat, byteBuffer: ByteBuffer, value: int) returns (ok: bool)
    requires ValidSize(size) && byteBuffer.Valid()
    modifies byteBuffer, byteBuffer.bytes
    ensures byteBuffer.Valid() && byteBuffer.limit == old(byteBuffer.limit)
    ensures Puts(EncInt(size, value), old(byteBuffer.Written()), old(byteBuffer.limit - byteBuffer.position), ok,
                 byteBuffer.Written())
  {
    if BitLength(value) + 1 > size {
      return false;
    }
    if value < 0 {
      IntWord(size, value);
      ok := LpadTo32(byteBuffer, ToByteArray(value), 255);
    } else {
      UIntWord(size, value);
      ok := LpadTo32(byteBuffer, ToByteArray(value), 0);
    }
  }

  /** For a negative number padding with sign bytes writes its two's complement word. */
  lemma IntWord(size: nat, value: int)
    requires ValidSize(size) && value < 0 && BitLength(value) + 1 <= size
    ensures LeftPadded(ToByteArray(value), 255) == Some(Word(value))
  {
    hide BitLength, Pow256;
    BitLengthIff(value, size - 1);
    var bits := 8 * WordBytes();
    Pow2Grows(size - 1, bits - 1);
    Pow2Of8(WordBytes());
    assert Pow2(bits) == 2 * Pow2(bits - 1);
    NegativeWord(value);
    assert ToByteArray(value)[0..] == ToByteArray(value);
  }

  method ReadWord(byteBuffer: ByteBuffer) returns (ok: bool, x: int)
    requires byteBuffer.Valid()
    modifies byteBuffer`position
    ensures byteBuffer.Valid()
    ensures ok == DecWord(byteBuffer.Content(), old(byteBuffer.position)).Some?
    ensures ok ==> Some(x) == DecWord(byteBuffer.Content(), old(byteBuffer.position))
                   && byteBuffer.position == old(byteBuffer.position) + 32
  {
    var data;
    x := 0;
    ok, data := byteBuffer.Get(32);
    if ok {
      x := Signed(data);
    }
  }

  method DeserialiseUInt(size: nat, byteBuffer: ByteBuffer) returns (ok: bool, value: int)
    requires byteBuffer.Valid()
    modifies byteBuffer`position
    ensures byteBuffer.Valid()
    ensures ok == DecUInt(size, byteBuffer.Content(), old(byteBuffer.position)).Some?
    ensures ok ==> Some(value) == DecUInt(size, byteBuffer.Content(), old(byteBuffer.position))
                   && byteBuffer.position == old(byteBuffer.position) + 32
  {
    ok, value := ReadWord(byteBuffer);
    if ok && BitLength(value) > size {
      ok := false;
    }
  }

  method DeserialiseInt(size: nat, byteBuffer: ByteBuffer) returns (ok: bool, value: int)
    requires byteBuffer.Valid()
    modifies byteBuffer`position
    ensures byteBuffer.Valid()
    ensures ok == DecInt(size, byteBuffer.Content(), old(byteBuffer.position)).Some?
    ensures ok ==> Some(value) == DecInt(size, byteBuffer.Content(), old(byteBuffer.position))
                   && byteBuffer.position == old(byteBuffer.position) + 32
  {
    ok, value := ReadWord(byteBuffer);
    if ok && BitLength(value) + (if value < 0 then 1 else 0) > size {
      ok := false;
    }
  }

  // ------------------------------------------------------------------ bytes

  /** Reads bytes and the padding behind them, which has to be zero. */
  method ReadPadded(byteBuffer: ByteBuffer, size: nat, padded: nat) returns (ok: bool, data: Bytes)
    requires byteBuffer.Valid() && size <= padded
    modifies byteBuffer`position
    ensures byteBuffer.Valid()
    ensures ok == DecBytes(size, padded, byteBuffer.Content(), old(byteBuffer.position)).Some?
    ensures ok ==>
              Some(Read(BytesValue(data), byteBuffer.position)) ==
              DecBytes(size, padded, byteBuffer.Content(), old(byteBuffer.position))
  {
    ghost var start, content := byteBuffer.position, byteBuffer.Content();
    ok, data := byteBuffer.Get(size);
    if !ok {
      return;
    }
    var pad;
    ok, pad := byteBuffer.Get(padded - size);
    if !ok {
      return;
    }
    assert byteBuffer.Content() == content && byteBuffer.position == start + padded <= |content|;
    assert data == content[start..start + size] && pad == content[start + size..start + padded];
    var i := 0;
    while i < |pad|
      invariant i <= |pad| && forall j | 0 <= j < i :: pad[j] == 0
    {
      if pad[i] != 0 {
        assert !AllZero(content[start + size..start + padded]);
        return false, data;
      }
      i := i + 1;
    }
    assert AllZero(content[start + size..start + padded]);
  }

  // ------------------------------------------------------------------ any type

  method SerialiseScalar(t: Type, byteBuffer: ByteBuffer, value: Value) returns (ok: bool)
    requires Supported(t) && byteBuffer.Valid() && !t.StaticArray? && !t.DynamicArray?
    modifies byteBuffer, byteBuffer.bytes
    ensures byteBuffer.Valid() && byteBuffer.limit == old(byteBuffer.limit)
    ensures Puts(EncScalar(t, value), old(byteBuffer.Written()), old(byteBuffer.limit - byteBuffer.position), ok,
                 byteBuffer.Written())
  {
    hide EncUInt, EncInt, Scaled, Word, RightPadded, BitLength;
    ok := false;
    match t
    case UInt(size) =>
      if value.IntegerValue? {
        ok := SerialiseUInt(size, byteBuffer, value.i);
      }
    case Int(size) =>
      if value.IntegerValue? {
        ok := SerialiseInt(size, byteBuffer, value.i);
      }
    case Fixed(m, n) =>
      if value.DecimalValue? && Scaled(value.d, n).Some? {
        ok := SerialiseInt(m + n, byteBuffer, Scaled(value.d, n).value);
      }
    case UFixed(m, n) =>
      if value.DecimalValue? && Scaled(value.d, n).Some? {
        ok := SerialiseUInt(m + n, byteBuffer, Scaled(value.d, n).value);
      }
    case Bool =>
      if value.BoolValue? {
        ok := SerialiseUInt(8, byteBuffer, if value.b then 1 else 0);
      }
    case StaticBytes(length) =>
      if value.BytesValue? && |value.bytes| == length {
        ok := RpadZeroTo32(byteBuffer, value.bytes);
      }
    case DynamicBytes =>
      if value.BytesValue? && |value.bytes| < TWO_31 {
        ok := SerialiseLength(byteBuffer, |value.bytes|);
        if ok {
          ok := RpadZeroTo32(byteBuffer, value.bytes);
        }
      }
  }

  method SerialiseLength(byteBuffer: ByteBuffer, n: nat) returns (ok: bool)
    requires byteBuffer.Valid() && n < TWO_31
    modifies byteBuffer, byteBuffer.bytes
    ensures byteBuffer.Valid() && byteBuffer.limit == old(byteBuffer.limit)
    ensures Puts(Some(Word(n)), old(byteBuffer.Written()), old(byteBuffer.limit - byteBuffer.position), ok,
                 byteBuffer.Written())
  {
    R.SmallFits(n);
    ok := SerialiseUInt(256, byteBuffer, n);
  }

  /** Writes one component after the other. */
  method SerialiseAll(component: Type, byteBuffer: ByteBuffer, values: seq<Value>) returns (ok: bool)
    requires Supported(component) && byteBuffer.Valid()
    modifies byteBuffer, byteBuffer.bytes
    ensures byteBuffer.Valid() && byteBuffer.limit == old(byteBuffer.limit)
    ensures Puts(EncAll(EncOf(component), values), old(byteBuffer.Written()),
                 old(byteBuffer.limit - byteBuffer.position), ok, byteBuffer.Written())
    decreases component, 1
  {
    hide Enc, EncOf, EncAll, Supported;
    ghost var enc := EncOf(component);
    ghost var before, room := byteBuffer.Written(), byteBuffer.limit - byteBuffer.position;
    ghost var done: Bytes := [];
    var i := 0;
    PrefixedByNothing(EncAll(enc, values));
    assert values[0..] == values;
    while i < |values|
      invariant i <= |values| && byteBuffer.Valid() && byteBuffer.limit == old(byteBuffer.limit)
      invariant byteBuffer.Written() == before + done
      invariant EncAll(enc, values) == Prefixed(done, EncAll(enc, values[i..]))
    {
      ok := SerialiseType(component, byteBuffer, values[i]);
      EncAllStep(enc, values, i, done);
      if !ok {
        return;
      }
      done := done + enc(values[i]).value;
      i := i + 1;
    }
    NothingLeft(enc, values[i..]);
    return true;
  }

  lemma NothingLeft(enc: Encoder, values: seq<Value>)
    requires |values| == 0
    ensures EncAll(enc, values) == Some([])
  {
  }

  lemma PrefixedByNothing(b: Option<Bytes>)
    ensures Prefixed([], b) == b
  {
    if b.Some? {
      assert [] + b.value == b.value;
    }
  }

  lemma BehindNothing(r: Option<Read<seq<Value>>>)
    ensures Behind([], r) == r
  {
    if r.Some? {
      assert [] + r.value.value == r.value.value;
    }
  }

  lemma BehindStep(dec: Decoder, first: seq<Value>, n: nat, pos: nat)
    requires 0 < n
    ensures Behind(first, DecAll(dec, n, pos)) ==
            if dec(pos).None? then None
            else Behind(first + [dec(pos).value.value], DecAll(dec, n - 1, dec(pos).value.position))
  {
    if dec(pos).Some? {
      var rest := DecAll(dec, n - 1, dec(pos).value.position);
      if rest.Some? {
        var x := dec(pos).value.value;
        assert first + ([x] + rest.value.value) == first + [x] + rest.value.value;
      }
    }
  }

  lemma EncAllStep(enc: Encoder, values: seq<Value>, i: nat, done: Bytes)
    requires i < |values| && EncAll(enc, values) == Prefixed(done, EncAll(enc, values[i..]))
    ensures enc(values[i]).None? ==> EncAll(enc, values).None?
    ensures enc(values[i]).Some? ==>
              EncAll(enc, values) == Prefixed(done + enc(values[i]).value, EncAll(enc, values[i + 1..]))
  {
    hide EncAll;
    var first, rest := enc(values[i]), EncAll(enc, values[i + 1..]);
    FirstEncoded(enc, values, i);
    if first.Some? && rest.Some? {
      Together(done, first.value, rest.value);
    }
  }

  lemma FirstEncoded(enc: Encoder, values: seq<Value>, i: nat)
    requires i < |values|
    ensures EncAll(enc, values[i..]) ==
            if enc(values[i]).None? || EncAll(enc, values[i + 1..]).None? then None
            else Some(enc(values[i]).value + EncAll(enc, values[i + 1..]).value)
  {
    assert values[i..][0] == values[i] && values[i..][1..] == values[i + 1..];
  }

  lemma Together(a: Bytes, b: Bytes, c: Bytes)
    ensures a + (b + c) == a + b + c
  {
  }

  method SerialiseType(t: Type, byteBuffer: ByteBuffer, value: Value) returns (ok: bool)
    requires Supported(t) && byteBuffer.Valid()
    modifies byteBuffer, byteBuffer.bytes
    ensures byteBuffer.Valid() && byteBuffer.limit == old(byteBuffer.limit)
    ensures Puts(EncOf(t)(value), old(byteBuffer.Written()), old(byteBuffer.limit - byteBuffer.position), ok,
                 byteBuffer.Written())
    decreases t, 0
  {
    hide EncScalar, EncAll, Word;
    if t.StaticArray? {
      if !value.ArrayValue? || |value.elements| != t.count {
        return false;
      }
      ok := SerialiseAll(t.component, byteBuffer, value.elements);
    } else if t.DynamicArray? {
      if !value.ArrayValue? || |value.elements| >= TWO_31 {
        return false;
      }
      ok := SerialiseLength(byteBuffer, |value.elements|);
      if ok {
        ok := SerialiseAll(t.component, byteBuffer, value.elements);
      }
    } else {
      ok := SerialiseScalar(t, byteBuffer, value);
    }
  }

  method DeserialiseScalar(t: Type, byteBuffer: ByteBuffer) returns (ok: bool, value: Value)
    requires Supported(t) && byteBuffer.Valid() && !t.StaticArray? && !t.DynamicArray?
    modifies byteBuffer`position
    ensures byteBuffer.Valid()
    ensures ok == DecScalar(t, byteBuffer.Content(), old(byteBuffer.position)).Some?
    ensures ok ==>
              Some(Read(value, byteBuffer.position)) ==
              DecScalar(t, byteBuffer.Content(), old(byteBuffer.position))
  {
    hide DecUInt, DecInt, DecBytes, BitLength;
    var x, data;
    value := BoolValue(false);
    match t
    case UInt(size) =>
      ok, x := DeserialiseUInt(size, byteBuffer);
      value := IntegerValue(x);
    case Int(size) =>
      ok, x := DeserialiseInt(size, byteBuffer);
      value := IntegerValue(x);
    case Fixed(m, n) =>
      ok, x := DeserialiseInt(m + n, byteBuffer);
      value := DecimalValue(Unscaled(x, n));
    case UFixed(m, n) =>
      ok, x := DeserialiseUInt(m + n, byteBuffer);
      value := DecimalValue(Unscaled(x, n));
    case Bool =>
      ok, x := DeserialiseUInt(8, byteBuffer);
      if ok && x != 0 && x != 1 {
        ok := false;
      }
      value := BoolValue(x == 1);
    case StaticBytes(length) =>
      ok, data := ReadPadded(byteBuffer, length, 32);
      value := BytesValue(data);
    case DynamicBytes =>
      var size;
      ok, size := DeserialiseLength(byteBuffer);
      if ok {
        ok, data := ReadPadded(byteBuffer, size, PaddedLength(size));
        value := BytesValue(data);
      }
  }

  method DeserialiseLength(byteBuffer: ByteBuffer) returns (ok: bool, size: nat)
    requires byteBuffer.Valid()
    modifies byteBuffer`position
    ensures byteBuffer.Valid()
    ensures ok == DecLength(byteBuffer.Content(), old(byteBuffer.position)).Some?
    ensures ok ==> Some(size) == DecLength(byteBuffer.Content(), old(byteBuffer.position))
                   && byteBuffer.position == old(byteBuffer.position) + 32
  {
    var x;
    ok, x := DeserialiseUInt(256, byteBuffer);
    size := 0;
    if ok {
      ok := 0 <= IntValue(x);
      size := if ok then IntValue(x) else 0;
    }
  }

  /** Reads a number of components into a new array. */
  method DeserialiseAll(component: Type, n: nat, byteBuffer: ByteBuffer) returns (ok: bool, values: seq<Value>)
    requires Supported(component) && byteBuffer.Valid()
    modifies byteBuffer`position
    ensures byteBuffer.Valid()
    ensures var r := DecAll(DecOf(component, byteBuffer.Content()), n, old(byteBuffer.position));
            ok == r.Some? && (ok ==> Some(Read(values, byteBuffer.position)) == r)
    decreases component, 1
  {
    hide Dec, DecOf;
    ghost var dec := DecOf(component, byteBuffer.Content());
    ghost var start := byteBuffer.position;
    var value := new Value[n](_ => BoolValue(false));
    var i := 0;
    BehindNothing(DecAll(dec, n, start));
    assert value[..0] == [];
    while i < n
      invariant i <= n && byteBuffer.Valid()
      invariant DecOf(component, byteBuffer.Content()) == dec
      invariant DecAll(dec, n, start) == Behind(value[..i], DecAll(dec, n - i, byteBuffer.position))
    {
      var element;
      ghost var here := byteBuffer.position;
      ok, element := DeserialiseType(component, byteBuffer);
      if !ok {
        return false, [];
      }
      BehindStep(dec, value[..i], n - i, here);
      value[i] := element;
      assert value[..i + 1] == value[..i] + [element];
      i := i + 1;
    }
    assert value[..n] + [] == value[..];
    return true, value[..];
  }

  function Behind(first: seq<Value>, r: Option<Read<seq<Value>>>): Option<Read<seq<Value>>> {
    if r.None? then None else Some(Read(first + r.value.value, r.value.position))
  }

  method DeserialiseType(t: Type, byteBuffer: ByteBuffer) returns (ok: bool, value: Value)
    requires Supported(t) && byteBuffer.Valid()
    modifies byteBuffer`position
    ensures byteBuffer.Valid()
    ensures var r := DecOf(t, byteBuffer.Content())(old(byteBuffer.position));
            ok == r.Some? && (ok ==> Some(Read(value, byteBuffer.position)) == r)
    decreases t, 0
  {
    hide DecScalar, DecAll, DecLength;
    var values;
    if t.StaticArray? {
      ok, values := DeserialiseAll(t.component, t.count, byteBuffer);
      value := ArrayValue(values);
    } else if t.DynamicArray? {
      var size;
      ok, size := DeserialiseLength(byteBuffer);
      value := ArrayValue([]);
      if ok {
        ok, values := DeserialiseAll(t.component, size, byteBuffer);
        value := ArrayValue(values);
      }
    } else {
      ok, value := DeserialiseScalar(t, byteBuffer);
    }
  }
}
