/**
 Which values can be encoded, how much space they take, and which bytes can be decoded: said by numeric ranges
 and lengths.
 */
module AbiAcceptance {
  import opened Options
  import opened Words
  import opened AbiTypes
  import opened FunctionEncoding
  import Hex

  // ------------------------------------------------------------------ values

  /** A decimal that times 2^n is whole and in range. */
  ghost predicate Whole(d: real, n: nat, low: int, high: int) {
    exists k: int :: Times(d, n, k) && low <= k < high
  }

  predicate Times(d: real, n: nat, k: int) {
    d * Pow2(n) as real == k as real
  }

  /** The values of a type. */
  ghost predicate Fits(t: Type, v: Value)
    requires Supported(t)
    decreases t
  {
    match t
    case UInt(size) => v.IntegerValue? && 0 <= v.i < Pow2(size)
    case Int(size) => v.IntegerValue? && -Pow2(size - 1) <= v.i < Pow2(size - 1)
    case Fixed(m, n) => v.DecimalValue? && Whole(v.d, n, -Pow2(m + n - 1), Pow2(m + n - 1))
    case UFixed(m, n) => v.DecimalValue? && Whole(v.d, n, 0, Pow2(m + n))
    case Bool => v.BoolValue?
    case StaticBytes(length) => v.BytesValue? && |v.bytes| == length
    case DynamicBytes => v.BytesValue? && |v.bytes| < 0x8000_0000
    case StaticArray(component, count) =>
      v.ArrayValue? && |v.elements| == count && forall i | 0 <= i < |v.elements| :: Fits(component, v.elements[i])
    case DynamicArray(component) =>
      v.ArrayValue? && |v.elements| < 0x8000_0000 && forall i | 0 <= i < |v.elements| :: Fits(component, v.elements[i])
  }

  lemma UIntFitsIff(size: nat, i: int)
    ensures EncUInt(size, i).Some? <==> 0 <= i < Pow2(size)
  {
    BitLengthIff(i, size);
  }

  lemma IntFitsIff(size: nat, i: int)
    requires 0 < size
    ensures EncInt(size, i).Some? <==> -Pow2(size - 1) <= i < Pow2(size - 1)
  {
    BitLengthIff(i, size - 1);
  }

  lemma WholeIff(d: real, n: nat, low: int, high: int)
    ensures Whole(d, n, low, high) <==> Scaled(d, n).Some? && low <= Scaled(d, n).value < high
  {
    var x := d * Pow2(n) as real;
    if k: int :| Times(d, n, k) && low <= k < high {
      assert x.Floor == k;
    }
    assert Scaled(d, n).Some? ==> Times(d, n, Scaled(d, n).value);
  }

  lemma ScalarFitsIff(t: Type, v: Value)
    requires Supported(t) && !t.StaticArray? && !t.DynamicArray?
    ensures EncScalar(t, v).Some? <==> Fits(t, v)
  {
    hide Word, BitLength, Scaled, Whole, EncUInt, EncInt, Pow2;
    match t
    case UInt(size) =>
      if v.IntegerValue? {
        UIntFitsIff(size, v.i);
      }
    case Int(size) =>
      if v.IntegerValue? {
        IntFitsIff(size, v.i);
      }
    case Fixed(m, n) =>
      if v.DecimalValue? {
        WholeIff(v.d, n, -Pow2(m + n - 1), Pow2(m + n - 1));
        if Scaled(v.d, n).Some? {
          IntFitsIff(m + n, Scaled(v.d, n).value);
        }
      }
    case UFixed(m, n) =>
      if v.DecimalValue? {
        WholeIff(v.d, n, 0, Pow2(m + n));
        if Scaled(v.d, n).Some? {
          UIntFitsIff(m + n, Scaled(v.d, n).value);
        }
      }
    case Bool => BoolFits();
    case _ =>
  }

  lemma BoolFits()
    ensures EncUInt(8, 0).Some? && EncUInt(8, 1).Some?
  {
    UIntFitsIff(8, 0);
    UIntFitsIff(8, 1);
    Pow2Grows(1, 8);
    assert Pow2(1) == 2 * Pow2(0) == 2;
  }

  lemma {:induction false} EncAllIff(enc: Encoder, es: seq<Value>)
    ensures EncAll(enc, es).Some? <==> forall i | 0 <= i < |es| :: enc(es[i]).Some?
    decreases |es|
  {
    if es != [] {
      EncAllIff(enc, es[1..]);
      assert forall i | 1 <= i < |es| :: es[i] == es[1..][i - 1];
    }
  }

  /** A value can be encoded exactly if it is one of the type, to any depth of arrays. */
  lemma {:induction false} EncAcceptsIff(t: Type, v: Value)
    requires Supported(t)
    ensures Enc(t, v).Some? <==> Fits(t, v)
    decreases t
  {
    hide EncScalar, EncAll, Word;
    if t.StaticArray? || t.DynamicArray? {
      if v.ArrayValue? {
        var c, es := t.component, v.elements;
        EncAllIff(EncOf(c), es);
        forall i | 0 <= i < |es| ensures EncOf(c)(es[i]).Some? <==> Fits(c, es[i]) {
          EncAcceptsIff(c, es[i]);
        }
      }
    } else {
      ScalarFitsIff(t, v);
    }
  }

  // ------------------------------------------------------------------ sizes

  /** Bytes padded to whole words. */
  function Padded(n: nat): nat {
    if n % 32 == 0 then n else n + 32 - n % 32
  }

  function SizeOf(t: Type, v: Value): nat
    decreases t, 1
  {
    match t
    case DynamicBytes => if v.BytesValue? then 32 + Padded(|v.bytes|) else 0
    case StaticArray(component, _) => if v.ArrayValue? then SizeOfAll(component, v.elements) else 0
    case DynamicArray(component) => if v.ArrayValue? then 32 + SizeOfAll(component, v.elements) else 0
    case _ => 32
  }

  function SizeOfAll(t: Type, es: seq<Value>): nat
    decreases t, 2, |es|
  {
    if es == [] then 0 else SizeOf(t, es[0]) + SizeOfAll(t, es[1..])
  }

  lemma ScalarTakes(t: Type, v: Value)
    requires Supported(t) && EncScalar(t, v).Some?
    ensures |EncScalar(t, v).value| == SizeOf(t, v)
  {
    hide Word, BitLength, Scaled;
  }

  /**
   What a value takes: a word, or the padded bytes and their length, or its elements and, if need be, their
   number.
   */
  lemma {:induction false} EncTakes(t: Type, v: Value)
    requires Supported(t) && Enc(t, v).Some?
    ensures |Enc(t, v).value| == SizeOf(t, v)
    decreases t
  {
    hide EncScalar, EncAll, Word, SizeOfAll;
    if t.StaticArray? || t.DynamicArray? {
      var c, es := t.component, v.elements;
      forall e | Enc(c, e).Some? ensures |Enc(c, e).value| == SizeOf(c, e) {
        EncTakes(c, e);
      }
      AllTake(c, es);
    } else {
      ScalarTakes(t, v);
    }
  }

  lemma {:induction false} AllTake(t: Type, es: seq<Value>)
    requires EncAll(EncOf(t), es).Some? && forall e | Enc(t, e).Some? :: |Enc(t, e).value| == SizeOf(t, e)
    ensures |EncAll(EncOf(t), es).value| == SizeOfAll(t, es)
    decreases |es|
  {
    hide Enc, SizeOf;
    if es != [] {
      AllTake(t, es[1..]);
      assert EncOf(t)(es[0]) == Enc(t, es[0]);
    }
  }

  // ------------------------------------------------------------------ argument lists

  predicate Dynamic(t: Type) {
    t.DynamicBytes? || t.DynamicArray?
  }

  /** What the first n arguments take in the head, and in the tail. */
  function HeadTaken(types: seq<Type>, args: seq<Value>, n: nat): nat
    requires n <= |types| == |args|
  {
    if n == 0 then 0
    else HeadTaken(types, args, n - 1) + if Dynamic(types[n - 1]) then 32 else SizeOf(types[n - 1], args[n - 1])
  }

  function TailTaken(types: seq<Type>, args: seq<Value>, n: nat): nat
    requires n <= |types| == |args|
  {
    if n == 0 then 0
    else TailTaken(types, args, n - 1) + if Dynamic(types[n - 1]) then SizeOf(types[n - 1], args[n - 1]) else 0
  }

  /** Every offset can be written as a signed number of 32 bits. */
  predicate OffsetsFit(types: seq<Type>, args: seq<Value>, headSize: nat, i: nat)
    requires |types| == |args|
  {
    forall j | i <= j < |types| && Dynamic(types[j]) :: headSize + TailTaken(types, args, j) < 0x8000_0000
  }

  lemma {:induction false} FillAcceptsIff(types: seq<Type>, args: seq<Value>, headSize: nat, i: nat)
    requires |types| == |args| && i <= |types| && AllSupported(types)
    ensures var b := Fill(types[i..], args[i..], headSize, TailTaken(types, args, i));
            && (b.Some? <==> (forall j | i <= j < |types| :: Enc(types[j], args[j]).Some?)
                             && OffsetsFit(types, args, headSize, i))
            && (b.Some? ==>
                  && |b.value.head| == HeadTaken(types, args, |types|) - HeadTaken(types, args, i)
                  && |b.value.tail| == TailTaken(types, args, |types|) - TailTaken(types, args, i))
    decreases |types| - i
  {
    hide Enc, Word, SizeOf, Supported;
    if i < |types| {
      assert types[i..][0] == types[i] && types[i..][1..] == types[i + 1..];
      assert args[i..][0] == args[i] && args[i..][1..] == args[i + 1..];
      assert types[i] in types;
      if Enc(types[i], args[i]).Some? {
        EncTakes(types[i], args[i]);
      }
      FillAcceptsIff(types, args, headSize, i + 1);
    }
  }

  /**
   A list of arguments can be encoded exactly if there is one for each parameter, each of them is a value of its
   type, what stays in the head fits the size reserved for it, the tail takes at most 1024 bytes, and no offset is
   2^31 or more.
   */
  lemma EncodingAcceptsIff(types: seq<Type>, args: seq<Value>)
    requires AllSupported(types)
    ensures Encoding(types, args).Some? <==>
              && |types| == |args|
              && (forall i | 0 <= i < |types| :: types[i] in types && Fits(types[i], args[i]))
              && HeadTaken(types, args, |types|) <= HeadSum(types)
              && TailTaken(types, args, |types|) <= 1024
              && OffsetsFit(types, args, HeadSum(types), 0)
  {
    hide Fill, HeadSum, OffsetsFit, HeadTaken, TailTaken, Fits, Enc, Supported;
    if |types| == |args| {
      NothingTaken(types, args);
      assert types[0..] == types && args[0..] == args;
      FillAcceptsIff(types, args, HeadSum(types), 0);
      forall i | 0 <= i < |types|
        ensures types[i] in types && Supported(types[i])
        ensures Enc(types[i], args[i]).Some? <==> Fits(types[i], args[i])
      {
        assert types[i] in types;
        EncAcceptsIff(types[i], args[i]);
      }
    }
  }

  lemma NothingTaken(types: seq<Type>, args: seq<Value>)
    requires |types| == |args|
    ensures HeadTaken(types, args, 0) == 0 && TailTaken(types, args, 0) == 0
  {
  }

  // ------------------------------------------------------------------ reading words

  /** The word at a position is that of this number. */
  ghost predicate WordAt(s: Bytes, pos: nat, x: int) {
    pos + 32 <= |s| && -Pow2(255) <= x < Pow2(255) && s[pos..pos + 32] == Word(x)
  }

  lemma {:induction false} OncePerRange(v: int, n: nat)
    ensures TwosComplement(v - Pow256(n), n) == TwosComplement(v, n)
    decreases n
  {
    if n > 0 {
      OncePerRange(v / 256, n - 1);
      assert (v - Pow256(n)) / 256 == v / 256 - Pow256(n - 1);
    }
  }

  lemma HalfRange()
    ensures Pow256(32) == 2 * Pow2(255)
  {
    hide Pow2, Pow256;
    Pow2Of8(32);
    Pow2Half(256);
  }

  lemma WordAtIff(s: Bytes, pos: nat, x: int)
    ensures WordAt(s, pos, x) <==> DecWord(s, pos) == Some(x)
  {
    hide TwosComplement, Unsigned, Pow2, Pow256;
    HalfRange();
    if pos + 32 <= |s| {
      var w := s[pos..pos + 32];
      BytesOf(w);
      UnsignedBound(w);
      TopBit(w);
      OncePerRange(Unsigned(w), 32);
      if WordAt(s, pos, x) {
        SignedOf(x, 32);
      }
    }
  }

  /** A number below 2^31 that is the rest of another one modulo 2^32. */
  predicate LowBits(x: int, n: nat) {
    n < 0x8000_0000 && (x - n) % 0x1_0000_0000 == 0
  }

  lemma LowBitsIff(x: int, n: nat)
    ensures LowBits(x, n) <==> IntValue(x) == n
  {
    var r := IntValue(x);
    var q := (x + TWO_31) / TWO_32;
    assert x - r == q * TWO_32;
    if LowBits(x, n) {
      var p := (x - n) / TWO_32;
      assert x - n == p * TWO_32;
      assert r - n == (p - q) * TWO_32;
    }
  }

  // ------------------------------------------------------------------ what is read

  /** Bytes at a position, and zeros behind them up to the padded length. */
  predicate BytesAt(s: Bytes, pos: nat, bytes: Bytes, padded: nat) {
    && |bytes| <= padded && pos + padded <= |s| && s[pos..pos + |bytes|] == bytes
    && forall i | pos + |bytes| <= i < pos + padded :: s[i] == 0
  }

  /** The value of a type stands at a position and ends before another one. */
  ghost predicate Stands(t: Type, s: Bytes, pos: nat, v: Value, end: nat)
    requires Supported(t)
    decreases t, 0
  {
    match t
    case UInt(size) => v.IntegerValue? && end == pos + 32 && WordAt(s, pos, v.i) && -Pow2(size) <= v.i < Pow2(size)
    case Int(size) => v.IntegerValue? && end == pos + 32 && WordAt(s, pos, v.i) && -Pow2(size - 1) <= v.i < Pow2(size)
    case Fixed(m, n) =>
      && v.DecimalValue? && end == pos + 32
      && exists k :: WordAt(s, pos, k) && -Pow2(m + n - 1) <= k < Pow2(m + n) && v.d == k as real / Pow2(n) as real
    case UFixed(m, n) =>
      && v.DecimalValue? && end == pos + 32
      && exists k :: WordAt(s, pos, k) && -Pow2(m + n) <= k < Pow2(m + n) && v.d == k as real / Pow2(n) as real
    case Bool => v.BoolValue? && end == pos + 32 && WordAt(s, pos, if v.b then 1 else 0)
    case StaticBytes(length) => v.BytesValue? && |v.bytes| == length && end == pos + 32 && BytesAt(s, pos, v.bytes, 32)
    case DynamicBytes =>
      && v.BytesValue? && end == pos + 32 + Padded(|v.bytes|)
      && (exists x :: WordAt(s, pos, x) && LowBits(x, |v.bytes|))
      && BytesAt(s, pos + 32, v.bytes, Padded(|v.bytes|))
    case StaticArray(component, count) =>
      v.ArrayValue? && |v.elements| == count && StandAll(component, s, pos, v.elements, end)
    case DynamicArray(component) =>
      && v.ArrayValue? && (exists x :: WordAt(s, pos, x) && LowBits(x, |v.elements|))
      && StandAll(component, s, pos + 32, v.elements, end)
  }

  /** Values of a type stand one behind the other. */
  ghost predicate StandAll(t: Type, s: Bytes, pos: nat, es: seq<Value>, end: nat)
    requires Supported(t)
    decreases t, 1, |es|
  {
    if es == [] then end == pos
    else exists mid: nat :: Stands(t, s, pos, es[0], mid) && StandAll(t, s, mid, es[1..], end)
  }

  lemma UIntStands(size: nat, s: Bytes, pos: nat, x: int)
    ensures DecUInt(size, s, pos) == Some(x) <==> WordAt(s, pos, x) && -Pow2(size) <= x < Pow2(size)
  {
    WordAtIff(s, pos, x);
    BitLengthIff(x, size);
  }

  lemma IntStands(size: nat, s: Bytes, pos: nat, x: int)
    requires 0 < size
    ensures DecInt(size, s, pos) == Some(x) <==> WordAt(s, pos, x) && -Pow2(size - 1) <= x < Pow2(size)
  {
    hide Pow2, BitLength, DecWord, WordAt;
    WordAtIff(s, pos, x);
    BitLengthIff(x, size);
    BitLengthIff(x, size - 1);
    Pow2Grows(size - 1, size);
  }

  lemma BytesStand(size: nat, padded: nat, s: Bytes, pos: nat, bytes: Bytes, end: nat)
    ensures DecBytes(size, padded, s, pos) == Some(Read(BytesValue(bytes), end)) <==>
              |bytes| == size && BytesAt(s, pos, bytes, padded) && end == pos + padded
  {
    if size <= padded && pos + padded <= |s| {
      var gap := s[pos + size..pos + padded];
      assert forall i | 0 <= i < |gap| :: gap[i] == s[pos + size + i];
      assert forall i | pos + size <= i < pos + padded :: s[i] == gap[i - pos - size];
    }
  }

  lemma LengthStands(s: Bytes, pos: nat, n: nat)
    ensures DecLength(s, pos) == Some(n) <==> exists x :: WordAt(s, pos, x) && LowBits(x, n)
  {
    hide DecUInt, WordAt, LowBits, Pow2;
    forall x ensures WordAt(s, pos, x) <==> DecUInt(256, s, pos) == Some(x) {
      UIntStands(256, s, pos, x);
      WordInRange(s, pos, x);
    }
    forall x ensures LowBits(x, n) <==> IntValue(x) == n {
      LowBitsIff(x, n);
    }
  }

  lemma WordInRange(s: Bytes, pos: nat, x: int)
    ensures WordAt(s, pos, x) ==> -Pow2(256) <= x < Pow2(256)
  {
    Pow2Grows(255, 256);
  }

  lemma DecimalStands(k: Option<int>, n: nat, pos: nat, v: Value, end: nat)
    ensures AsDecimal(k, n, pos) == Some(Read(v, end)) <==>
              v.DecimalValue? && end == pos + 32 && k.Some? && v.d == k.value as real / Pow2(n) as real
  {
  }

  lemma ScalarStands(t: Type, s: Bytes, pos: nat, v: Value, end: nat)
    requires Supported(t) && !t.StaticArray? && !t.DynamicArray?
    ensures DecScalar(t, s, pos) == Some(Read(v, end)) <==> Stands(t, s, pos, v, end)
  {
    hide DecUInt, DecInt, DecBytes, DecLength, WordAt, BytesAt, LowBits, Pow2, AsDecimal;
    match t
    case UInt(size) =>
      if v.IntegerValue? {
        UIntStands(size, s, pos, v.i);
      }
    case Int(size) =>
      if v.IntegerValue? {
        IntStands(size, s, pos, v.i);
      }
    case Fixed(m, n) =>
      forall k ensures DecInt(m + n, s, pos) == Some(k) <==>
                       WordAt(s, pos, k) && -Pow2(m + n - 1) <= k < Pow2(m + n)
      {
        IntStands(m + n, s, pos, k);
      }
      DecimalStands(DecInt(m + n, s, pos), n, pos, v, end);
    case UFixed(m, n) =>
      forall k ensures DecUInt(m + n, s, pos) == Some(k) <==> WordAt(s, pos, k) && -Pow2(m + n) <= k < Pow2(m + n) {
        UIntStands(m + n, s, pos, k);
      }
      DecimalStands(DecUInt(m + n, s, pos), n, pos, v, end);
    case Bool =>
      BoolStands(s, pos, 0);
      BoolStands(s, pos, 1);
    case StaticBytes(length) =>
      if v.BytesValue? {
        BytesStand(length, 32, s, pos, v.bytes, end);
      } else {
        BytesGiven(length, 32, s, pos);
      }
    case DynamicBytes =>
      if v.BytesValue? {
        DynamicBytesStand(s, pos, v.bytes, end);
      } else {
        OnlyBytes(s, pos);
      }
  }

  lemma BytesGiven(size: nat, padded: nat, s: Bytes, pos: nat)
    ensures DecBytes(size, padded, s, pos).Some? ==> DecBytes(size, padded, s, pos).value.value.BytesValue?
  {
  }

  lemma OnlyBytes(s: Bytes, pos: nat)
    ensures DecScalar(DynamicBytes, s, pos).Some? ==> DecScalar(DynamicBytes, s, pos).value.value.BytesValue?
  {
    hide DecLength;
  }

  lemma DynamicBytesStand(s: Bytes, pos: nat, bytes: Bytes, end: nat)
    ensures DecScalar(DynamicBytes, s, pos) == Some(Read(BytesValue(bytes), end)) <==>
              Stands(DynamicBytes, s, pos, BytesValue(bytes), end)
  {
    hide DecLength, DecBytes, WordAt, LowBits, BytesAt;
    LengthStands(s, pos, |bytes|);
    PaddedAlike(|bytes|);
    BytesStand(|bytes|, Padded(|bytes|), s, pos + 32, bytes, end);
    OtherLength(s, pos, bytes, end);
  }

  lemma BoolStands(s: Bytes, pos: nat, x: int)
    requires 0 <= x <= 1
    ensures DecUInt(8, s, pos) == Some(x) <==> WordAt(s, pos, x)
  {
    UIntStands(8, s, pos, x);
    Pow2Grows(1, 8);
    assert Pow2(1) == 2 * Pow2(0) == 2;
  }

  lemma PaddedAlike(n: nat)
    ensures Padded(n) == PaddedLength(n)
  {
  }

  lemma OtherLength(s: Bytes, pos: nat, bytes: Bytes, end: nat)
    ensures DecScalar(DynamicBytes, s, pos) == Some(Read(BytesValue(bytes), end)) ==> DecLength(s, pos) == Some(|bytes|)
  {
    hide DecLength;
  }

  /**
   Reading from a position gives a value and an end exactly if the value stands there and ends there, to any depth
   of arrays.
   */
  lemma {:induction false} DecIff(t: Type, s: Bytes, pos: nat, v: Value, end: nat)
    requires Supported(t)
    ensures Dec(t, s, pos) == Some(Read(v, end)) <==> Stands(t, s, pos, v, end)
    decreases t, 0
  {
    hide DecScalar, DecAll, DecLength, WordAt, LowBits, StandAll;
    match t
    case StaticArray(c, count) =>
      if v.ArrayValue? {
        DecAllIff(c, s, count, pos, v.elements, end);
      }
    case DynamicArray(c) =>
      if v.ArrayValue? {
        LengthStands(s, pos, |v.elements|);
        if DecLength(s, pos).Some? {
          DecAllIff(c, s, DecLength(s, pos).value, pos + 32, v.elements, end);
        }
      }
    case _ => ScalarStands(t, s, pos, v, end);
  }

  lemma {:induction false} DecAllIff(t: Type, s: Bytes, n: nat, pos: nat, es: seq<Value>, end: nat)
    requires Supported(t)
    ensures DecAll(DecOf(t, s), n, pos) == Some(Read(es, end)) <==> |es| == n && StandAll(t, s, pos, es, end)
    decreases t, 1, n
  {
    hide Dec, Stands;
    if n > 0 {
      forall v, mid: nat ensures DecOf(t, s)(pos) == Some(Read(v, mid)) <==> Stands(t, s, pos, v, mid) {
        DecIff(t, s, pos, v, mid);
      }
      var first := DecOf(t, s)(pos);
      if first.Some? {
        forall rest, last: nat
          ensures DecAll(DecOf(t, s), n - 1, first.value.position) == Some(Read(rest, last)) <==>
                  |rest| == n - 1 && StandAll(t, s, first.value.position, rest, last)
        {
          DecAllIff(t, s, n - 1, first.value.position, rest, last);
        }
        assert forall mid: nat | es != [] && Stands(t, s, pos, es[0], mid) :: mid == first.value.position;
        if es != [] {
          assert es == [es[0]] + es[1..];
        }
        DecAllStep(DecOf(t, s), n, pos);
      }
    }
  }

  lemma DecAllStep(dec: Decoder, n: nat, pos: nat)
    requires n > 0 && dec(pos).Some?
    ensures var first, rest := dec(pos).value, DecAll(dec, n - 1, dec(pos).value.position);
            DecAll(dec, n, pos) ==
            if rest.None? then None else Some(Read([first.value] + rest.value.value, rest.value.position))
  {
  }

  // ------------------------------------------------------------------ parameters and events

  /** A parameter stands at a slot: a dynamic one behind an offset that lies behind the slot and within the data. */
  ghost predicate ParameterStands(t: Type, s: Bytes, pos: nat, v: Value, next: nat)
    requires Supported(t)
  {
    if Dynamic(t) then
      && next == pos + 32
      && exists x, offset: nat, end: nat ::
           && WordAt(s, pos, x) && LowBits(x, offset) && pos + 32 <= offset <= |s| && Stands(t, s, offset, v, end)
    else Stands(t, s, pos, v, next)
  }

  lemma ParameterIff(t: Type, s: Bytes, pos: nat, v: Value, next: nat)
    requires Supported(t)
    ensures ParameterAt(t, s, pos) == Some(Read(v, next)) <==> ParameterStands(t, s, pos, v, next)
  {
    hide Dec, DecUInt, Stands, WordAt, LowBits, Pow2;
    forall at: nat, w, end: nat ensures Dec(t, s, at) == Some(Read(w, end)) <==> Stands(t, s, at, w, end) {
      DecIff(t, s, at, w, end);
    }
    forall x ensures DecUInt(256, s, pos) == Some(x) <==> WordAt(s, pos, x) {
      UIntStands(256, s, pos, x);
      WordInRange(s, pos, x);
    }
    forall x, n: nat ensures LowBits(x, n) <==> IntValue(x) == n {
      LowBitsIff(x, n);
    }
    if Dynamic(t) && ParameterAt(t, s, pos).Some? {
      var x := DecUInt(256, s, pos).value;
      var offset: nat := IntValue(x);
      var r := Dec(t, s, offset).value;
      assert WordAt(s, pos, x) && LowBits(x, offset) && Stands(t, s, offset, r.value, r.position);
    }
  }

  /** Parameters stand one behind the other. */
  ghost predicate ParametersStand(types: seq<Type>, s: Bytes, pos: nat, values: seq<Value>)
    requires AllSupported(types)
    decreases |types|
  {
    if types == [] then values == []
    else
      assert types[0] in types && forall t | t in types[1..] :: t in types;
      values != [] && exists next: nat ::
        ParameterStands(types[0], s, pos, values[0], next) && ParametersStand(types[1..], s, next, values[1..])
  }

  lemma {:induction false} ParametersIff(types: seq<Type>, s: Bytes, pos: nat, values: seq<Value>)
    requires AllSupported(types)
    ensures Parameters(types, s, pos) == Some(values) <==> ParametersStand(types, s, pos, values)
    decreases |types|
  {
    hide ParameterAt, ParameterStands, Supported;
    if types != [] {
      assert types[0] in types && forall t | t in types[1..] :: t in types;
      forall v, next: nat ensures ParameterAt(types[0], s, pos) == Some(Read(v, next)) <==>
                                  ParameterStands(types[0], s, pos, v, next)
      {
        ParameterIff(types[0], s, pos, v, next);
      }
      if ParameterAt(types[0], s, pos).Some? {
        var first := ParameterAt(types[0], s, pos).value;
        forall rest ensures Parameters(types[1..], s, first.position) == Some(rest) <==>
                            ParametersStand(types[1..], s, first.position, rest)
        {
          ParametersIff(types[1..], s, first.position, rest);
        }
        assert values != [] ==> values == [values[0]] + values[1..];
        assert forall rest: seq<Value> ::
                 ([first.value] + rest)[0] == first.value && ([first.value] + rest)[1..] == rest;
      }
    }
  }

  /** Indexed parameters stand in their topics, behind the first topic. */
  ghost predicate TopicsStand(types: seq<Type>, topics: seq<string>, values: seq<Value>)
    requires AllSupported(types)
  {
    && |values| == |types| && (types == [] || |types| < |topics|)
    && forall i | 0 <= i < |types| :: types[i] in types && TopicStands(types[i], topics[i + 1], values[i])
  }

  /** The text is that of the bytes, behind 0x; an odd last character is ignored. */
  ghost predicate Written(text: string, bytes: Bytes) {
    && 2 <= |text| && text[0] == '0' && text[1] == 'x' && |bytes| == (|text| - 2) / 2
    && forall i | 0 <= i < |bytes| :: Hex.Pair(text[2 * i + 2], text[2 * i + 3], bytes[i])
  }

  /** A text without 0x in front carries nothing, any other the bytes its pairs of characters denote. */
  lemma PayloadIff(text: string, bytes: Bytes)
    ensures Payload(text) == Some(bytes) <==> Written(text, bytes)
  {
    hide Hex.Pair, Hex.FromHex;
    if 2 <= |text| {
      Hex.FromHexIff(text[2..], bytes);
      assert forall i | 0 <= i < |text| - 2 :: text[2..][i] == text[i + 2];
    }
  }

  ghost predicate TopicStands(t: Type, topic: string, v: Value)
    requires Supported(t)
  {
    Payload(topic).Some? && exists end: nat :: Stands(t, Payload(topic).value, 0, v, end)
  }

  lemma {:induction false} TopicsIff(types: seq<Type>, topics: seq<string>, values: seq<Value>)
    requires AllSupported(types)
    ensures Topics(types, topics) == Some(values) <==> TopicsStand(types, topics, values)
    decreases |types|
  {
    hide Dec, Stands, Payload, Supported;
    if types != [] {
      var n := |types| - 1;
      var rest := types[..n];
      assert types[n] in types && forall t | t in rest :: t in types;
      forall some ensures Topics(rest, topics) == Some(some) <==> TopicsStand(rest, topics, some) {
        TopicsIff(rest, topics, some);
      }
      if n + 1 < |topics| && Payload(topics[n + 1]).Some? {
        var s := Payload(topics[n + 1]).value;
        forall v, end: nat ensures Dec(types[n], s, 0) == Some(Read(v, end)) <==> Stands(types[n], s, 0, v, end) {
          DecIff(types[n], s, 0, v, end);
        }
      }
      LastTopic(types, topics, values);
      assert |values| == n + 1 ==> values == values[..n] + [values[n]];
      if Topics(types, topics) == Some(values) {
        var before := Topics(rest, topics).value;
        var r := Dec(types[n], Payload(topics[n + 1]).value, 0).value;
        assert TopicsStand(rest, topics, before) && values == before + [r.value];
        assert values[..n] == before && values[n] == r.value;
        assert Stands(types[n], Payload(topics[n + 1]).value, 0, r.value, r.position);
      }
    }
  }

  lemma LastTopic(types: seq<Type>, topics: seq<string>, values: seq<Value>)
    requires AllSupported(types) && types != []
    ensures AllSupported(types[..|types| - 1]) && types[|types| - 1] in types
    ensures TopicsStand(types, topics, values) <==>
              && |values| == |types| < |topics|
              && TopicsStand(types[..|types| - 1], topics, values[..|types| - 1])
              && TopicStands(types[|types| - 1], topics[|types|], values[|types| - 1])
  {
    hide TopicStands, Supported;
    var n := |types| - 1;
    assert forall i | 0 <= i < n :: types[..n][i] == types[i];
    assert types[n] in types;
    if |values| == |types| {
      assert forall i | 0 <= i < n :: values[..n][i] == values[i];
    }
  }

  /**
   An event is decoded into values exactly if the indexed ones stand in their topics and the others stand in the
   data, one behind the other.
   */
  lemma EventIff(indexed: seq<Type>, types: seq<Type>, topics: seq<string>, data: string, values: seq<Value>)
    requires AllSupported(indexed) && AllSupported(types)
    ensures Event(indexed, types, topics, data) == Some(values) <==>
              && |indexed| <= |values| && TopicsStand(indexed, topics, values[..|indexed|])
              && Payload(data).Some? && ParametersStand(types, Payload(data).value, 0, values[|indexed|..])
  {
    hide Topics, Parameters, ParametersStand, Payload;
    forall some ensures Topics(indexed, topics) == Some(some) <==> TopicsStand(indexed, topics, some) {
      TopicsIff(indexed, topics, some);
    }
    if Payload(data).Some? {
      var s := Payload(data).value;
      forall some ensures Parameters(types, s, 0) == Some(some) <==> ParametersStand(types, s, 0, some) {
        ParametersIff(types, s, 0, some);
      }
    }
    if |indexed| <= |values| {
      assert values == values[..|indexed|] + values[|indexed|..];
    }
    if Event(indexed, types, topics, data) == Some(values) {
      var first, rest := Topics(indexed, topics).value, Parameters(types, Payload(data).value, 0).value;
      assert TopicsStand(indexed, topics, first);
      assert values[..|indexed|] == first && values[|indexed|..] == rest;
    }
  }
}
