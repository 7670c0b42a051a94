/**
 The encoding as the Ethereum Contract ABI Specification defines it, in its sections "Formal Specification of
 the Encoding" and "Use of Dynamic Types", and how far the two-buffer encoding agrees with it.
 */
module AbiStandard {
  import opened Options
  import opened Words
  import opened AbiTypes
  import opened FunctionEncoding
  import AbiTheorems

  /** One component of a tuple: whether its type is dynamic, and its own encoding. */
  datatype Item = Item(dynamic: bool, enc: Bytes)

  /** The big-endian two's complement of an integer in 32 bytes, byte by byte. */
  function StdWord(v: int): (s: Bytes)
    ensures |s| == 32
  {
    seq(32, k requires 0 <= k < 32 => v / Pow256(31 - k) % 256)
  }

  function StdPadded(s: Bytes): Bytes {
    s + Repeat(0, (32 - |s| % 32) % 32)
  }

  // ------------------------------------------------------------------ tuples

  function HeadLength(items: seq<Item>): nat {
    if items == [] then 0
    else HeadLength(items[..|items| - 1]) + if items[|items| - 1].dynamic then 32 else |items[|items| - 1].enc|
  }

  function TailLength(items: seq<Item>): nat {
    if items == [] then 0
    else TailLength(items[..|items| - 1]) + if items[|items| - 1].dynamic then |items[|items| - 1].enc| else 0
  }

  /** The head of component i: its encoding, or the length of all heads and of the tails in front of its own. */
  function Head(items: seq<Item>, i: nat): Bytes
    requires i < |items|
  {
    if items[i].dynamic then StdWord(HeadLength(items) + TailLength(items[..i])) else items[i].enc
  }

  function HeadsFrom(items: seq<Item>, i: nat): Bytes
    requires i <= |items|
    decreases |items| - i
  {
    if i == |items| then [] else Head(items, i) + HeadsFrom(items, i + 1)
  }

  function TailsFrom(items: seq<Item>, i: nat): Bytes
    requires i <= |items|
    decreases |items| - i
  {
    if i == |items| then [] else (if items[i].dynamic then items[i].enc else []) + TailsFrom(items, i + 1)
  }

  function StdTuple(items: seq<Item>): Bytes {
    HeadsFrom(items, 0) + TailsFrom(items, 0)
  }

  // ------------------------------------------------------------------ types

  /** In the specification an array of fixed length is dynamic when its components are. */
  predicate StdDynamic(t: Type) {
    if t.StaticArray? then StdDynamic(t.component) else IsDynamic(t)
  }

  function StdEnc(t: Type, v: Value): Bytes
    decreases t, 0
  {
    match t
    case UInt(_) => if v.IntegerValue? then StdWord(v.i) else []
    case Int(_) => if v.IntegerValue? then StdWord(v.i) else []
    case Bool => if v.BoolValue? then StdWord(if v.b then 1 else 0) else []
    case StaticBytes(_) => if v.BytesValue? then StdPadded(v.bytes) else []
    case DynamicBytes => if v.BytesValue? then StdWord(|v.bytes|) + StdPadded(v.bytes) else []
    case StaticArray(component, _) => if v.ArrayValue? then StdTuple(ItemsOf(component, v.elements)) else []
    case DynamicArray(component) => if v.ArrayValue?
        then StdWord(|v.elements|) + StdTuple(ItemsOf(component, v.elements)) else []
    case _ => []
  }

  function ItemsOf(t: Type, es: seq<Value>): (items: seq<Item>)
    ensures |items| == |es|
    decreases t, 1
  {
    seq(|es|, i requires 0 <= i < |es| => Item(StdDynamic(t), StdEnc(t, es[i])))
  }

  function Items(types: seq<Type>, args: seq<Value>): (items: seq<Item>)
    requires |types| == |args|
    ensures |items| == |types|
  {
    seq(|types|, i requires 0 <= i < |types| => Item(StdDynamic(types[i]), StdEnc(types[i], args[i])))
  }

  /** Integers, booleans and fixed-length bytes, and arrays of fixed length of these to any depth. */
  predicate StaticStandard(t: Type) {
    match t
    case UInt(_) => true
    case Int(_) => true
    case Bool => true
    case StaticBytes(_) => true
    case StaticArray(component, _) => StaticStandard(component)
    case _ => false
  }

  /** The types on which the two-buffer encoding follows the specification. */
  predicate Standard(t: Type) {
    StaticStandard(t) || t.DynamicBytes? || (t.DynamicArray? && StaticStandard(t.component))
  }

  // ------------------------------------------------------------------ words

  lemma DivUnique(v: int, m: int, q: int, r: int)
    requires 0 <= r < m && v == m * q + r
    ensures v / m == q
  {
    var d := v / m - q;
    assert v == m * (v / m) + v % m;
    assert m * d == r - v % m;
    if d != 0 {
      MultipleIsLarge(m, d);
      assert false;
    }
  }

  lemma MultipleIsLarge(m: int, d: int)
    requires 0 < m && d != 0
    ensures m <= m * d || m * d <= -m
  {
  }

  lemma DivDiv(v: int, p: int)
    requires 1 <= p
    ensures v / 256 / p == v / (256 * p)
  {
    var a, b := v / 256, v % 256;
    var c, d := a / p, a % p;
    assert a == p * c + d;
    assert v == 256 * (p * c + d) + b;
    assert 256 * (p * c) == (256 * p) * c;
    DivUnique(v, 256 * p, c, 256 * d + b);
  }

  lemma {:induction false} TwosComplementAt(v: int, n: nat, k: nat)
    requires k < n
    ensures TwosComplement(v, n)[k] == v / Pow256(n - 1 - k) % 256
    decreases n
  {
    if k < n - 1 {
      TwosComplementAt(v / 256, n - 1, k);
      DivDiv(v, Pow256(n - 2 - k));
    }
  }

  lemma WordIsStandard(v: int)
    ensures Word(v) == StdWord(v)
  {
    forall k: nat | k < 32 ensures Word(v)[k] == StdWord(v)[k] {
      TwosComplementAt(v, WordBytes(), k);
    }
  }

  // ------------------------------------------------------------------ arrays of static components

  lemma {:induction false} AllStaticHeads(items: seq<Item>, i: nat)
    requires i <= |items| && forall j | 0 <= j < |items| :: !items[j].dynamic
    ensures TailsFrom(items, i) == []
    ensures i < |items| ==> HeadsFrom(items, i) == items[i].enc + HeadsFrom(items, i + 1)
    decreases |items| - i
  {
    if i < |items| {
      AllStaticHeads(items, i + 1);
    }
  }

  lemma {:induction false} ConcatIsTuple(enc: Encoder, es: seq<Value>, items: seq<Item>, i: nat)
    requires |items| == |es| && i <= |es| && EncAll(enc, es[i..]).Some?
    requires forall j | 0 <= j < |es| :: !items[j].dynamic && (enc(es[j]).Some? ==> enc(es[j]).value == items[j].enc)
    ensures EncAll(enc, es[i..]).value == HeadsFrom(items, i)
    decreases |es| - i
  {
    if i < |es| {
      assert es[i..][0] == es[i] && es[i..][1..] == es[i + 1..];
      ConcatIsTuple(enc, es, items, i + 1);
    }
  }

  /** What the converter of a type writes is the specification's encoding. */
  lemma {:induction false} EncIsStandard(t: Type, v: Value)
    requires Supported(t) && Standard(t) && Enc(t, v).Some?
    ensures Enc(t, v).value == StdEnc(t, v)
    ensures StdDynamic(t) == IsDynamic(t)
    decreases t
  {
    if t.StaticArray? || t.DynamicArray? {
      var c, es := t.component, v.elements;
      StaticIsStatic(c);
      forall j | 0 <= j < |es| && Enc(c, es[j]).Some? ensures Enc(c, es[j]).value == StdEnc(c, es[j]) {
        EncIsStandard(c, es[j]);
      }
      ArrayIsStandard(c, es);
      WordIsStandard(|es|);
    } else {
      ScalarIsStandard(t, v);
    }
  }

  lemma {:induction false} StaticIsStatic(t: Type)
    requires StaticStandard(t)
    ensures !StdDynamic(t) && !IsDynamic(t)
  {
    if t.StaticArray? {
      StaticIsStatic(t.component);
    }
  }

  lemma ArrayIsStandard(c: Type, es: seq<Value>)
    requires !StdDynamic(c) && EncAll(EncOf(c), es).Some?
    requires forall j | 0 <= j < |es| && Enc(c, es[j]).Some? :: Enc(c, es[j]).value == StdEnc(c, es[j])
    ensures EncAll(EncOf(c), es).value == StdTuple(ItemsOf(c, es))
  {
    hide Enc, StdEnc;
    var items := ItemsOf(c, es);
    assert es[0..] == es;
    ConcatIsTuple(EncOf(c), es, items, 0);
    AllStaticHeads(items, 0);
  }

  lemma ScalarIsStandard(t: Type, v: Value)
    requires Supported(t) && Standard(t) && !t.StaticArray? && !t.DynamicArray? && EncScalar(t, v).Some?
    ensures EncScalar(t, v).value == StdEnc(t, v)
  {
    hide Word, StdWord, BitLength;
    match t
    case UInt(_) => WordIsStandard(v.i);
    case Int(_) => WordIsStandard(v.i);
    case Bool => WordIsStandard(if v.b then 1 else 0);
    case StaticBytes(_) => PaddedIsStandard(v.bytes);
    case DynamicBytes =>
      WordIsStandard(|v.bytes|);
      PaddedIsStandard(v.bytes);
  }

  lemma PaddedIsStandard(s: Bytes)
    ensures RightPadded(s) == StdPadded(s)
  {
  }

  // ------------------------------------------------------------------ arrays of dynamic components

  /** No fixed-point type is part of it. */
  predicate Plain(t: Type) {
    match t
    case Fixed(_, _) => false
    case UFixed(_, _) => false
    case StaticArray(component, _) => Plain(component)
    case DynamicArray(component) => Plain(component)
    case _ => true
  }

  /** The values that are encoded as specified: those of the types above, and all arrays without elements. */
  predicate AsSpecified(t: Type, v: Value) {
    Standard(t) || (t.DynamicArray? && v.ArrayValue? && v.elements == [])
  }

  lemma {:induction false} StaticOrDynamic(t: Type)
    requires Plain(t)
    ensures StdDynamic(t) <==> !StaticStandard(t)
    ensures IsDynamic(t) ==> StdDynamic(t)
    decreases t
  {
    if t.StaticArray? {
      StaticOrDynamic(t.component);
    }
  }

  /** Components written one behind the other take no more than the tails, and the heads come on top. */
  lemma {:induction false} TailsAreLonger(enc: Encoder, es: seq<Value>, items: seq<Item>, i: nat)
    requires |items| == |es| && i <= |es| && EncAll(enc, es[i..]).Some?
    requires forall j | 0 <= j < |es| ::
               items[j].dynamic && (enc(es[j]).Some? ==> |enc(es[j]).value| <= |items[j].enc|)
    ensures |EncAll(enc, es[i..]).value| <= |TailsFrom(items, i)|
    ensures |HeadsFrom(items, i)| == 32 * (|es| - i)
    decreases |es| - i
  {
    hide StdWord;
    if i < |es| {
      assert es[i..][0] == es[i] && es[i..][1..] == es[i + 1..];
      TailsAreLonger(enc, es, items, i + 1);
    }
  }

  /** No value is written longer than specified, and only those as specified just as long. */
  lemma {:induction false} EncLengths(t: Type, v: Value)
    requires Supported(t) && Plain(t) && Enc(t, v).Some?
    ensures |Enc(t, v).value| <= |StdEnc(t, v)|
    ensures |Enc(t, v).value| == |StdEnc(t, v)| <==> AsSpecified(t, v)
    decreases t
  {
    hide StdWord, Word, EncScalar, HeadsFrom, TailsFrom, EncAll;
    if Standard(t) {
      EncIsStandard(t, v);
    } else {
      var c, es := t.component, v.elements;
      StaticOrDynamic(c);
      forall j | 0 <= j < |es| && Enc(c, es[j]).Some? ensures |Enc(c, es[j]).value| <= |StdEnc(c, es[j])| {
        EncLengths(c, es[j]);
      }
      ArrayLengths(c, es);
    }
  }

  lemma ArrayLengths(c: Type, es: seq<Value>)
    requires StdDynamic(c) && EncAll(EncOf(c), es).Some?
    requires forall j | 0 <= j < |es| && Enc(c, es[j]).Some? :: |Enc(c, es[j]).value| <= |StdEnc(c, es[j])|
    ensures var std := StdTuple(ItemsOf(c, es));
            |EncAll(EncOf(c), es).value| + 32 * |es| <= |std| && (es == [] ==> std == [])
  {
    hide Enc, StdEnc, EncAll, HeadsFrom, TailsFrom;
    var items := ItemsOf(c, es);
    assert es[0..] == es;
    TailsAreLonger(EncOf(c), es, items, 0);
    if es == [] {
      NothingEncoded(EncOf(c), items);
    }
  }

  lemma NothingEncoded(enc: Encoder, items: seq<Item>)
    requires items == []
    ensures EncAll(enc, []) == Some([]) && StdTuple(items) == []
  {
  }

  /**
   Arrays of dynamic components are where the converters leave the specification: they write the components
   one behind the other, without offsets. To any depth of arrays a value is encoded as specified exactly if its
   type has no array of dynamic components, or is such an array itself, of variable length, and has no elements.
   */
  lemma EncIsStandardIff(t: Type, v: Value)
    requires Supported(t) && Plain(t) && Enc(t, v).Some?
    ensures Enc(t, v).value == StdEnc(t, v) <==> AsSpecified(t, v)
  {
    hide StdWord, Word, EncScalar, EncAll, StdTuple;
    EncLengths(t, v);
    if Standard(t) {
      EncIsStandard(t, v);
    } else if AsSpecified(t, v) {
      WordIsStandard(0);
      NothingEncoded(EncOf(t.component), ItemsOf(t.component, []));
    }
  }

  // ------------------------------------------------------------------ argument lists

  lemma {:induction false} HeadLengthIs(types: seq<Type>, args: seq<Value>, n: nat)
    requires |types| == |args| && n <= |types|
    requires forall i | 0 <= i < n ::
               (if StdDynamic(types[i]) then 32 else |StdEnc(types[i], args[i])|) == HeadSize(types[i])
    ensures HeadLength(Items(types, args)[..n]) == HeadSum(types[..n])
    decreases n
  {
    hide StdEnc, HeadSize, StdDynamic;
    var items := Items(types, args)[..n];
    if n > 0 {
      HeadLengthIs(types, args, n - 1);
      assert items[..n - 1] == Items(types, args)[..n - 1];
      HeadSumAppend(types[..n - 1], types[n - 1]);
      assert types[..n] == types[..n - 1] + [types[n - 1]];
    }
  }

  lemma TailLengthStep(items: seq<Item>, i: nat)
    requires i < |items|
    ensures TailLength(items[..i + 1]) == TailLength(items[..i]) + if items[i].dynamic then |items[i].enc| else 0
  {
    assert items[..i + 1][..i] == items[..i];
  }

  /** From any argument on, the two buffers receive the specification's heads and tails. */
  lemma {:induction false} FillIsTuple(types: seq<Type>, args: seq<Value>, i: nat, items: seq<Item>)
    requires |types| == |args| == |items| && i <= |types|
    requires forall j | 0 <= j < |types| ::
               Enc(types[j], args[j]) == Some(items[j].enc) && items[j].dynamic == IsDynamic(types[j])
    requires Fill(types[i..], args[i..], HeadLength(items), TailLength(items[..i])).Some?
    ensures Fill(types[i..], args[i..], HeadLength(items), TailLength(items[..i])).value
         == Buffers(HeadsFrom(items, i), TailsFrom(items, i))
    decreases |types| - i
  {
    hide Enc, Word, StdWord, HeadLength, TailLength, IsDynamic;
    if i < |types| {
      assert types[i..][0] == types[i] && types[i..][1..] == types[i + 1..];
      assert args[i..][0] == args[i] && args[i..][1..] == args[i + 1..];
      TailLengthStep(items, i);
      WordIsStandard(HeadLength(items) + TailLength(items[..i]));
      FillIsTuple(types, args, i + 1, items);
      assert [] + TailsFrom(items, i + 1) == TailsFrom(items, i + 1);
    }
  }

  /** Arguments that are each encoded as specified are so together. */
  lemma SpecifiedArguments(types: seq<Type>, args: seq<Value>)
    requires AllSupported(types) && Encoding(types, args).Some? && |types| == |args|
    requires forall i | 0 <= i < |types| :: AsSpecified(types[i], args[i])
    ensures Encoding(types, args).value == StdTuple(Items(types, args))
  {
    hide AsSpecified;
    AbiTheorems.FillEncodes(types, args, HeadSum(types), 0);
    var items := Items(types, args);
    forall j | 0 <= j < |types|
      ensures Enc(types[j], args[j]) == Some(items[j].enc) && items[j].dynamic == IsDynamic(types[j])
      ensures (if StdDynamic(types[j]) then 32 else |StdEnc(types[j], args[j])|) == HeadSize(types[j])
    {
      assert types[j] in types;
      SpecifiedArgument(types[j], args[j]);
    }
    HeadLengthIs(types, args, |types|);
    assert types[..|types|] == types && items[..|types|] == items && types[0..] == types && args[0..] == args;
    FillIsTuple(types, args, 0, items);
  }

  /** A static type of the specification has one size for all its values, the one reserved in the head. */
  lemma {:induction false} StandardSize(t: Type, v: Value)
    requires Supported(t) && Standard(t) && Enc(t, v).Some?
    ensures IsDynamic(t) ==> HeadSize(t) == 32
    ensures !IsDynamic(t) ==> |Enc(t, v).value| == HeadSize(t)
    decreases t
  {
    if t.StaticArray? {
      var c := t.component;
      StaticIsStatic(c);
      forall e ensures HasSize(EncOf(c), HeadSize(c), e) {
        if Enc(c, e).Some? {
          StandardSize(c, e);
        }
      }
      SameSizes(EncOf(c), HeadSize(c), v.elements);
    } else if !IsDynamic(t) {
      ScalarSize(t, v);
    }
  }

  lemma ScalarSize(t: Type, v: Value)
    requires Supported(t) && !t.StaticArray? && !IsDynamic(t) && EncScalar(t, v).Some?
    ensures |EncScalar(t, v).value| == 32
  {
    hide Word, BitLength, Scaled;
  }

  ghost predicate HasSize(enc: Encoder, size: nat, e: Value) {
    enc(e).Some? ==> |enc(e).value| == size
  }

  lemma {:induction false} SameSizes(enc: Encoder, size: nat, es: seq<Value>)
    requires EncAll(enc, es).Some?
    requires forall e :: HasSize(enc, size, e)
    ensures |EncAll(enc, es).value| == |es| * size
    decreases |es|
  {
    if es != [] {
      assert HasSize(enc, size, es[0]);
      SameSizes(enc, size, es[1..]);
      assert |es| * size == size + (|es| - 1) * size;
    }
  }

  lemma SpecifiedArgument(t: Type, v: Value)
    requires Supported(t) && Enc(t, v).Some? && AsSpecified(t, v)
    ensures Enc(t, v) == Some(StdEnc(t, v)) && StdDynamic(t) == IsDynamic(t)
    ensures (if StdDynamic(t) then 32 else |StdEnc(t, v)|) == HeadSize(t)
  {
    hide StdWord, Word, EncScalar, EncAll, StdTuple, StaticStandard;
    if Standard(t) {
      EncIsStandard(t, v);
      StandardSize(t, v);
    } else {
      WordIsStandard(0);
      NothingEncoded(EncOf(t.component), ItemsOf(t.component, []));
    }
  }

  /** What an argument takes in the two buffers is never more than specified. */
  lemma ArgumentLength(t: Type, v: Value)
    requires Supported(t) && Plain(t) && Enc(t, v).Some?
    ensures var size := |Enc(t, v).value| + if IsDynamic(t) then 32 else 0;
            var specified := |StdEnc(t, v)| + if StdDynamic(t) then 32 else 0;
            size <= specified && (size == specified <==> AsSpecified(t, v))
  {
    hide Enc, StdEnc;
    EncLengths(t, v);
    StaticOrDynamic(t);
  }

  lemma {:induction false} FillIsShorter(types: seq<Type>, args: seq<Value>, i: nat, headSize: nat, tailPosition: nat)
    requires |types| == |args| && i <= |types| && AllSupported(types) && (forall t | t in types :: Plain(t))
    requires Fill(types[i..], args[i..], headSize, tailPosition).Some?
    ensures var b, items := Fill(types[i..], args[i..], headSize, tailPosition).value, Items(types, args);
            && |b.head| + |b.tail| <= |HeadsFrom(items, i)| + |TailsFrom(items, i)|
            && (|b.head| + |b.tail| == |HeadsFrom(items, i)| + |TailsFrom(items, i)| <==>
                forall j | i <= j < |types| :: AsSpecified(types[j], args[j]))
    decreases |types| - i
  {
    hide Enc, StdEnc, Word, StdWord, HeadLength, TailLength, AsSpecified, Plain, Supported, IsDynamic, StdDynamic;
    if i < |types| {
      assert types[i] in types;
      assert types[i..][0] == types[i] && types[i..][1..] == types[i + 1..];
      assert args[i..][0] == args[i] && args[i..][1..] == args[i + 1..];
      ArgumentLength(types[i], args[i]);
      var size := |Enc(types[i], args[i]).value|;
      FillIsShorter(types, args, i + 1, headSize, tailPosition + if IsDynamic(types[i]) then size else 0);
    }
  }

  /** An accepted encoding is the specification's encoding of the tuple exactly if each argument's is. */
  lemma EncodingIsStandardIff(types: seq<Type>, args: seq<Value>)
    requires AllSupported(types) && (forall t | t in types :: Plain(t)) && Encoding(types, args).Some?
    ensures |types| == |args|
    ensures Encoding(types, args).value == StdTuple(Items(types, args)) <==>
              forall i | 0 <= i < |types| :: AsSpecified(types[i], args[i])
  {
    hide Fill, HeadsFrom, TailsFrom, AsSpecified;
    AbiTheorems.EncodedArgs(types, args);
    assert types[0..] == types && args[0..] == args;
    FillIsShorter(types, args, 0, HeadSum(types), 0);
    if forall i | 0 <= i < |types| :: AsSpecified(types[i], args[i]) {
      SpecifiedArguments(types, args);
    }
  }

  /** So it is for argument lists of the types above. */
  lemma EncodingIsStandard(types: seq<Type>, args: seq<Value>)
    requires AllSupported(types) && (forall t | t in types :: Standard(t)) && Encoding(types, args).Some?
    ensures |types| == |args|
    ensures Encoding(types, args).value == StdTuple(Items(types, args))
  {
    AbiTheorems.EncodedArgs(types, args);
    forall i | 0 <= i < |types| ensures AsSpecified(types[i], args[i]) {
      assert types[i] in types;
    }
    SpecifiedArguments(types, args);
  }
}
