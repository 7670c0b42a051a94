/**
 Reading back what was written, type by type.
 */
module AbiRoundTrip {
  import opened Options
  import opened Words
  import opened AbiTypes

  /** An unsigned word is read back as a signed one. */
  function SignedRead(i: int): int {
    if 2 * i < Pow256(WordBytes()) then i else i - Pow256(WordBytes())
  }

  /** What reading back gives for a value that could be written. */
  function Reread(t: Type, v: Value): Value
    decreases t, 0
  {
    if (t.StaticArray? || t.DynamicArray?) && v.ArrayValue? then ArrayValue(MapAll(RereadOf(t.component), v.elements))
    else if t.UInt? && v.IntegerValue? then IntegerValue(SignedRead(v.i))
    else if t.UFixed? && v.DecimalValue? && Scaled(v.d, t.n).Some?
    then DecimalValue(Unscaled(SignedRead(Scaled(v.d, t.n).value), t.n))
    else v
  }

  function RereadOf(t: Type): Value -> Value
    decreases t, 1
  {
    (v: Value) => Reread(t, v)
  }

  function MapAll(f: Value -> Value, es: seq<Value>): (r: seq<Value>)
    ensures |r| == |es| && forall i | 0 <= i < |es| :: r[i] == f(es[i])
  {
    if es == [] then [] else [f(es[0])] + MapAll(f, es[1..])
  }

  /** The values that survive: no unsigned word has its top bit set. */
  predicate Survives(t: Type, v: Value)
    decreases t
  {
    if (t.StaticArray? || t.DynamicArray?) && v.ArrayValue? then forall e | e in v.elements :: Survives(t.component, e)
    else if t.UInt? && v.IntegerValue? then 2 * v.i < Pow256(WordBytes())
    else if t.UFixed? && v.DecimalValue? && Scaled(v.d, t.n).Some? then 2 * Scaled(v.d, t.n).value < Pow256(WordBytes())
    else true
  }

  lemma ScaledBack(d: real, n: nat)
    requires Scaled(d, n).Some?
    ensures Unscaled(Scaled(d, n).value, n) == d
  {
    var p := Pow2(n) as real;
    assert p != 0.0;
    assert d * p / p == d;
  }

  /** Two different integers are two different decimals of one scale. */
  lemma ScaleInjective(i: int, j: int, n: nat)
    requires Unscaled(i, n) == Unscaled(j, n)
    ensures i == j
  {
    var p := Pow2(n) as real;
    assert p != 0.0;
    assert i as real == i as real / p * p;
    assert j as real == j as real / p * p;
  }

  /** A value reads back unchanged exactly if it survives. */
  lemma {:induction false} RereadIff(t: Type, v: Value)
    requires Enc(t, v).Some?
    ensures Reread(t, v) == v <==> Survives(t, v)
    decreases t
  {
    if t.StaticArray? || t.DynamicArray? {
      EncAllSome(EncOf(t.component), v.elements);
      forall i | 0 <= i < |v.elements|
        ensures Reread(t.component, v.elements[i]) == v.elements[i] <==> Survives(t.component, v.elements[i])
      {
        RereadIff(t.component, v.elements[i]);
      }
      MapAllSame(RereadOf(t.component), v.elements);
    } else if t.UFixed? {
      var i := Scaled(v.d, t.n).value;
      ScaledBack(v.d, t.n);
      if Reread(t, v) == v {
        ScaleInjective(SignedRead(i), i, t.n);
      }
    }
  }

  lemma {:induction false} EncAllSome(enc: Encoder, es: seq<Value>)
    requires EncAll(enc, es).Some?
    ensures forall i | 0 <= i < |es| :: enc(es[i]).Some?
    decreases |es|
  {
    if es != [] {
      EncAllSome(enc, es[1..]);
      forall i | 0 <= i < |es| ensures enc(es[i]).Some? {
        assert i > 0 ==> es[i] == es[1..][i - 1];
      }
    }
  }

  lemma MapAllSame(f: Value -> Value, es: seq<Value>)
    ensures MapAll(f, es) == es <==> forall i | 0 <= i < |es| :: f(es[i]) == es[i]
  {
  }

  // ------------------------------------------------------------------ words

  lemma WordRange(size: nat)
    requires size <= 256
    ensures Pow2(size) <= Pow256(WordBytes())
    ensures size < 256 ==> 2 * Pow2(size) <= Pow256(WordBytes())
  {
    var bits := 8 * WordBytes();
    Pow2Of8(WordBytes());
    Pow2Grows(size, bits);
    if size < bits {
      Pow2Grows(size, bits - 1);
      assert Pow2(bits) == 2 * Pow2(bits - 1);
    }
  }

  lemma UIntReadsBack(size: nat, i: int, s: Bytes, pos: nat)
    requires ValidSize(size) && EncUInt(size, i).Some?
    requires pos + 32 <= |s| && s[pos..pos + 32] == Word(i)
    ensures DecUInt(size, s, pos) == Some(SignedRead(i))
  {
    hide BitLength, Pow2, Pow256, TwosComplement, Signed;
    BitLengthIff(i, size);
    WordRange(size);
    var bits := 8 * WordBytes();
    Pow2Of8(WordBytes());
    Pow2Half(bits);
    SignedOf(i, WordBytes());
    BitLengthIff(SignedRead(i), size);
    if size == bits {
      assert Pow2(size) == Pow256(WordBytes());
    }
  }

  lemma IntReadsBack(size: nat, i: int, s: Bytes, pos: nat)
    requires ValidSize(size) && EncInt(size, i).Some?
    requires pos + 32 <= |s| && s[pos..pos + 32] == Word(i)
    ensures DecInt(size, s, pos) == Some(i)
  {
    hide BitLength, Pow2, Pow256, TwosComplement, Signed;
    BitLengthIff(i, size - 1);
    WordRange(size - 1);
    SignedOf(i, WordBytes());
  }

  /** Lengths and offsets are small enough to be read back as they were. */
  lemma LengthReadsBack(n: nat, s: Bytes, pos: nat)
    requires n < TWO_31 && pos + 32 <= |s| && s[pos..pos + 32] == Word(n)
    ensures DecUInt(256, s, pos) == Some(n) && IntValue(n) == n && DecLength(s, pos) == Some(n)
    ensures EncUInt(256, n) == Some(Word(n))
  {
    SmallFits(n);
    UIntReadsBack(256, n, s, pos);
  }

  lemma SmallFits(n: nat)
    requires n < TWO_31
    ensures BitLength(n) <= 256 && 2 * n < Pow256(WordBytes())
  {
    assert Pow256(4) == 256 * Pow256(3) == 256 * (256 * Pow256(2)) == TWO_32 by {
      assert Pow256(2) == 256 * Pow256(1) == 65536;
    }
    Pow256Grows(4, WordBytes());
    Pow2Of8(WordBytes());
    BitLengthIff(n, 8 * WordBytes());
  }

  lemma {:induction false} Pow256Grows(m: nat, n: nat)
    requires m <= n
    ensures Pow256(m) <= Pow256(n)
  {
    if m < n {
      Pow256Grows(m, n - 1);
    }
  }

  // ------------------------------------------------------------------ values

  ghost predicate Holds(s: Bytes, pos: nat, b: Bytes) {
    pos + |b| <= |s| && s[pos..pos + |b|] == b
  }

  lemma HoldsParts(s: Bytes, pos: nat, a: Bytes, b: Bytes)
    requires Holds(s, pos, a + b)
    ensures Holds(s, pos, a) && Holds(s, pos + |a|, b)
  {
    var c := s[pos..pos + |a + b|];
    assert c[..|a|] == a && c[|a|..] == b;
    assert s[pos..pos + |a|] == c[..|a|];
    assert s[pos + |a|..pos + |a| + |b|] == c[|a|..];
  }

  lemma PaddingHolds(s: Bytes, pos: nat, b: Bytes)
    requires Holds(s, pos, RightPadded(b))
    ensures |RightPadded(b)| == PaddedLength(|b|)
    ensures s[pos..pos + |b|] == b && AllZero(s[pos + |b|..pos + PaddedLength(|b|)])
  {
    if |b| % 32 != 0 {
      HoldsParts(s, pos, b, Repeat(0, 32 - |b| % 32));
    }
  }

  /** At one position, a decoder undoes an encoder up to rereading. */
  ghost predicate UndoesAt(enc: Encoder, dec: Decoder, reread: Value -> Value, s: Bytes, e: Value, pos: nat) {
    enc(e).Some? && Holds(s, pos, enc(e).value) ==> dec(pos) == Some(Read(reread(e), pos + |enc(e).value|))
  }

  ghost predicate Undoes(enc: Encoder, dec: Decoder, reread: Value -> Value, s: Bytes) {
    forall e, pos: nat :: UndoesAt(enc, dec, reread, s, e, pos)
  }

  /**
   Whatever surrounds it, what was written for a value is read back as the reread value, and reading stops
   right behind it.
   */
  lemma {:induction false} ReadsBack(t: Type, v: Value, s: Bytes, pos: nat)
    requires Supported(t) && Enc(t, v).Some? && Holds(s, pos, Enc(t, v).value)
    ensures Dec(t, s, pos) == Some(Read(Reread(t, v), pos + |Enc(t, v).value|))
    decreases t, 0
  {
    hide EncScalar, DecScalar, DecLength, Word, Undoes, MapAll, EncAll, DecAll;
    if t.StaticArray? {
      ComponentsReadBack(t.component, s);
      ReadsBackAll(EncOf(t.component), DecOf(t.component, s), RereadOf(t.component), v.elements, s, pos);
    } else if t.DynamicArray? {
      var es := v.elements;
      HoldsParts(s, pos, Word(|es|), EncAll(EncOf(t.component), es).value);
      LengthReadsBack(|es|, s, pos);
      ComponentsReadBack(t.component, s);
      ReadsBackAll(EncOf(t.component), DecOf(t.component, s), RereadOf(t.component), es, s, pos + 32);
    } else {
      ScalarReadsBack(t, v, s, pos);
    }
  }

  lemma {:induction false} ComponentsReadBack(t: Type, s: Bytes)
    requires Supported(t)
    ensures Undoes(EncOf(t), DecOf(t, s), RereadOf(t), s)
    decreases t, 1
  {
    forall e, pos: nat ensures UndoesAt(EncOf(t), DecOf(t, s), RereadOf(t), s, e, pos) {
      if Enc(t, e).Some? && Holds(s, pos, Enc(t, e).value) {
        ReadsBack(t, e, s, pos);
      }
    }
  }

  lemma ScalarReadsBack(t: Type, v: Value, s: Bytes, pos: nat)
    requires Supported(t) && EncScalar(t, v).Some? && Holds(s, pos, EncScalar(t, v).value)
    ensures DecScalar(t, s, pos) == Some(Read(Reread(t, v), pos + |EncScalar(t, v).value|))
  {
    hide EncUInt, EncInt, DecUInt, DecInt, DecBytes, DecLength, Scaled, RightPadded, Word, Pow2;
    if t.UInt? || t.Int? || t.Bool? {
      IntegerReadsBack(t, v, s, pos);
    } else if t.Fixed? || t.UFixed? {
      DecimalReadsBack(t, v, s, pos);
    } else if t.StaticBytes? {
      BytesReadBack(v.bytes, s, pos);
    } else {
      DynamicBytesReadBack(v.bytes, s, pos);
    }
  }

  lemma IntegerReadsBack(t: Type, v: Value, s: Bytes, pos: nat)
    requires Supported(t) && (t.UInt? || t.Int? || t.Bool?)
    requires EncScalar(t, v).Some? && Holds(s, pos, EncScalar(t, v).value)
    ensures DecScalar(t, s, pos) == Some(Read(Reread(t, v), pos + |EncScalar(t, v).value|))
  {
    hide DecUInt, DecInt, DecBytes, DecLength, Scaled, RightPadded, Word, BitLength, Pow2, Pow256;
    match t
    case UInt(size) => UIntReadsBack(size, v.i, s, pos);
    case Int(size) => IntReadsBack(size, v.i, s, pos);
    case Bool =>
      SmallFits(1);
      SmallFits(0);
      UIntReadsBack(8, if v.b then 1 else 0, s, pos);
  }

  lemma DecimalReadsBack(t: Type, v: Value, s: Bytes, pos: nat)
    requires Supported(t) && (t.Fixed? || t.UFixed?)
    requires EncScalar(t, v).Some? && Holds(s, pos, EncScalar(t, v).value)
    ensures DecScalar(t, s, pos) == Some(Read(Reread(t, v), pos + |EncScalar(t, v).value|))
  {
    hide DecUInt, DecInt, DecBytes, DecLength, Scaled, Unscaled, RightPadded, Word, BitLength, Pow2, Pow256, SignedRead;
    var i := Scaled(v.d, t.n).value;
    if t.Fixed? {
      IntReadsBack(t.m + t.n, i, s, pos);
      ScaledBack(v.d, t.n);
    } else {
      UIntReadsBack(t.m + t.n, i, s, pos);
    }
  }

  lemma DynamicBytesReadBack(b: Bytes, s: Bytes, pos: nat)
    requires |b| < TWO_31 && Holds(s, pos, Word(|b|) + RightPadded(b))
    ensures DecScalar(DynamicBytes, s, pos) == Some(Read(BytesValue(b), pos + |Word(|b|) + RightPadded(b)|))
  {
    hide DecBytes, DecLength, RightPadded, Word, DecUInt;
    HoldsParts(s, pos, Word(|b|), RightPadded(b));
    LengthReadsBack(|b|, s, pos);
    BytesReadBack(b, s, pos + 32);
  }

  lemma BytesReadBack(b: Bytes, s: Bytes, pos: nat)
    requires Holds(s, pos, RightPadded(b))
    ensures |RightPadded(b)| == PaddedLength(|b|)
    ensures DecBytes(|b|, PaddedLength(|b|), s, pos) == Some(Read(BytesValue(b), pos + PaddedLength(|b|)))
  {
    PaddingHolds(s, pos, b);
  }

  /** Component after component, for any encoder and decoder that undo each other up to rereading. */
  lemma {:induction false} ReadsBackAll(enc: Encoder, dec: Decoder, reread: Value -> Value, es: seq<Value>, s: Bytes,
                                        pos: nat)
    requires Undoes(enc, dec, reread, s)
    requires EncAll(enc, es).Some? && Holds(s, pos, EncAll(enc, es).value)
    ensures DecAll(dec, |es|, pos) == Some(Read(MapAll(reread, es), pos + |EncAll(enc, es).value|))
    decreases |es|
  {
    if es != [] {
      var first, rest := enc(es[0]).value, EncAll(enc, es[1..]).value;
      HoldsParts(s, pos, first, rest);
      assert UndoesAt(enc, dec, reread, s, es[0], pos);
      ReadsBackAll(enc, dec, reread, es[1..], s, pos + |first|);
    }
  }

  // ------------------------------------------------------------------ sizes

  ghost predicate WholeWords(enc: Encoder, least: nat, e: Value) {
    enc(e).Some? ==> |enc(e).value| % 32 == 0 && least <= |enc(e).value|
  }

  /** What is written is a whole number of words, and never less than the size reserved in the head. */
  lemma {:induction false} EncSize(t: Type, v: Value)
    requires Supported(t)
    ensures WholeWords(EncOf(t), HeadSize(t), v)
    decreases t
  {
    hide EncScalar, Word, EncAll;
    if t.StaticArray? || t.DynamicArray? {
      var c := t.component;
      forall e ensures WholeWords(EncOf(c), HeadSize(c), e) {
        EncSize(c, e);
      }
      if Enc(t, v).Some? {
        EncAllSize(EncOf(c), HeadSize(c), v.elements);
      }
    } else if Enc(t, v).Some? {
      EncScalarSize(t, v);
    }
  }

  lemma EncScalarSize(t: Type, v: Value)
    requires Supported(t) && EncScalar(t, v).Some?
    ensures |EncScalar(t, v).value| % 32 == 0 && 32 <= |EncScalar(t, v).value|
  {
    hide Word, Scaled, BitLength;
  }

  lemma {:induction false} EncAllSize(enc: Encoder, least: nat, es: seq<Value>)
    requires EncAll(enc, es).Some?
    requires forall e :: WholeWords(enc, least, e)
    ensures |EncAll(enc, es).value| % 32 == 0
    ensures |es| * least <= |EncAll(enc, es).value|
    decreases |es|
  {
    if es != [] {
      assert WholeWords(enc, least, es[0]);
      EncAllSize(enc, least, es[1..]);
      var first, rest := |enc(es[0]).value|, |EncAll(enc, es[1..]).value|;
      WholeSum(first, rest);
      Times(|es|, least);
      assert |EncAll(enc, es).value| == first + rest;
    }
  }

  lemma WholeSum(a: nat, b: nat)
    requires a % 32 == 0 && b % 32 == 0
    ensures (a + b) % 32 == 0
  {
  }

  lemma Times(n: nat, least: nat)
    requires 0 < n
    ensures n * least == least + (n - 1) * least
  {
  }
}
