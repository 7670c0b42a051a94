/**
 What the two-buffer encoding of an argument list looks like, and that reading undoes it.
 */
module AbiTheorems {
  import opened Options
  import opened Words
  import opened Hex
  import opened AbiTypes
  import opened AbiRoundTrip
  import opened FunctionEncoding

  // ------------------------------------------------------------------ layout

  lemma {:induction false} HeadSizeWords(t: Type)
    requires Supported(t)
    ensures HeadSize(t) % 32 == 0 && 32 <= HeadSize(t)
  {
    if t.StaticArray? {
      HeadSizeWords(t.component);
      var k := HeadSize(t.component) / 32;
      assert HeadSize(t) == 32 * (t.count * k) by {
        assert HeadSize(t.component) == 32 * k;
        assert t.count * (32 * k) == 32 * (t.count * k);
      }
      assert 1 <= t.count * k;
    }
  }

  lemma {:induction false} HeadSumWords(types: seq<Type>)
    requires AllSupported(types)
    ensures HeadSum(types) % 32 == 0
    decreases |types|
  {
    if types != [] {
      assert types[0] in types;
      HeadSizeWords(types[0]);
      HeadSumWords(types[1..]);
    }
  }

  /** No parameter writes less into the head than was reserved for it. */
  lemma {:induction false} HeadNotShort(types: seq<Type>, args: seq<Value>, headSize: nat, tailPosition: nat)
    requires |types| == |args| && AllSupported(types) && Fill(types, args, headSize, tailPosition).Some?
    ensures HeadSum(types) <= |Fill(types, args, headSize, tailPosition).value.head|
    decreases |types|
  {
    hide Enc, Word;
    if types != [] {
      assert types[0] in types;
      var first := Enc(types[0], args[0]).value;
      EncSize(types[0], args[0]);
      HeadNotShort(types[1..], args[1..], headSize, tailPosition + if IsDynamic(types[0]) then |first| else 0);
    }
  }

  /**
   The layout of an encoding from one parameter on: in-place parameters fill exactly their slots of the head;
   for every other one the slot holds the offset where the tail continues, and the tail holds its encoding
   there. The slots end where the tail starts, and the segments of the tail end where the encoding ends.
   */
  ghost predicate LaidOut(types: seq<Type>, args: seq<Value>, s: Bytes, slot: nat, headSize: nat, segment: nat)
    requires |types| == |args|
    decreases |types|
  {
    if types == [] then slot == headSize && segment == |s|
    else
      var enc := Enc(types[0], args[0]);
      && enc.Some?
      && |enc.value| % 32 == 0
      && if IsDynamic(types[0]) then
           && slot + 32 <= headSize <= segment < TWO_31 && segment % 32 == 0
           && Holds(s, slot, Word(segment)) && Holds(s, segment, enc.value)
           && LaidOut(types[1..], args[1..], s, slot + 32, headSize, segment + |enc.value|)
         else
           && |enc.value| == HeadSize(types[0])
           && Holds(s, slot, enc.value)
           && LaidOut(types[1..], args[1..], s, slot + |enc.value|, headSize, segment)
  }

  lemma {:induction false} FillLaysOut(types: seq<Type>, args: seq<Value>, s: Bytes, slot: nat, headSize: nat,
                                       tailPosition: nat)
    requires |types| == |args| && AllSupported(types) && headSize % 32 == 0 && tailPosition % 32 == 0
    requires Fill(types, args, headSize, tailPosition).Some?
    requires var b := Fill(types, args, headSize, tailPosition).value;
             && slot + |b.head| == headSize && |b.head| == HeadSum(types) && headSize + tailPosition + |b.tail| == |s|
             && Holds(s, slot, b.head) && Holds(s, headSize + tailPosition, b.tail)
    ensures LaidOut(types, args, s, slot, headSize, headSize + tailPosition)
    decreases |types|
  {
    hide Enc, Word, Supported, HeadSize, Holds, LaidOut;
    var segment := headSize + tailPosition;
    if types == [] {
      NothingLaidOut(s, slot);
    } else {
      assert types[0] in types;
      var enc := Enc(types[0], args[0]).value;
      EncodedSize(types[0], args[0]);
      if IsDynamic(types[0]) {
        var rest := Fill(types[1..], args[1..], headSize, tailPosition + |enc|).value;
        HeadNotShort(types[1..], args[1..], headSize, tailPosition + |enc|);
        HoldsParts(s, slot, Word(segment), rest.head);
        HoldsParts(s, segment, enc, rest.tail);
        FillLaysOut(types[1..], args[1..], s, slot + 32, headSize, tailPosition + |enc|);
        DynamicLaidOut(types, args, s, slot, headSize, segment, enc);
      } else {
        var rest := Fill(types[1..], args[1..], headSize, tailPosition).value;
        HeadNotShort(types[1..], args[1..], headSize, tailPosition);
        HoldsParts(s, slot, enc, rest.head);
        FillLaysOut(types[1..], args[1..], s, slot + |enc|, headSize, tailPosition);
        StaticLaidOut(types, args, s, slot, headSize, segment, enc);
      }
    }
  }

  lemma NothingLaidOut(s: Bytes, slot: nat)
    ensures LaidOut([], [], s, slot, slot, |s|)
  {
  }

  lemma DynamicLaidOut(types: seq<Type>, args: seq<Value>, s: Bytes, slot: nat, headSize: nat, segment: nat, enc: Bytes)
    requires 0 < |types| == |args| && IsDynamic(types[0]) && Enc(types[0], args[0]) == Some(enc) && |enc| % 32 == 0
    requires slot + 32 <= headSize <= segment < TWO_31 && segment % 32 == 0
    requires Holds(s, slot, Word(segment)) && Holds(s, segment, enc)
    requires LaidOut(types[1..], args[1..], s, slot + 32, headSize, segment + |enc|)
    ensures LaidOut(types, args, s, slot, headSize, segment)
  {
    hide Enc, Word, Holds, IsDynamic;
  }

  lemma StaticLaidOut(types: seq<Type>, args: seq<Value>, s: Bytes, slot: nat, headSize: nat, segment: nat, enc: Bytes)
    requires 0 < |types| == |args| && !IsDynamic(types[0]) && Enc(types[0], args[0]) == Some(enc) && |enc| % 32 == 0
    requires |enc| == HeadSize(types[0]) && Holds(s, slot, enc)
    requires LaidOut(types[1..], args[1..], s, slot + |enc|, headSize, segment)
    ensures LaidOut(types, args, s, slot, headSize, segment)
  {
    hide Enc, Word, Holds, IsDynamic, HeadSize;
  }

  lemma EncodedSize(t: Type, v: Value)
    requires Supported(t) && Enc(t, v).Some?
    ensures |Enc(t, v).value| % 32 == 0 && HeadSize(t) <= |Enc(t, v).value|
    ensures IsDynamic(t) ==> HeadSize(t) == 32
  {
    hide Enc;
    EncSize(t, v);
  }

  /** Every accepted argument list fills its head exactly, and its offsets are exact. */
  lemma EncodingIsLaidOut(types: seq<Type>, args: seq<Value>)
    requires AllSupported(types) && Encoding(types, args).Some?
    ensures |Fill(types, args, HeadSum(types), 0).value.head| == HeadSum(types)
    ensures LaidOut(types, args, Encoding(types, args).value, 0, HeadSum(types), HeadSum(types))
  {
    hide Fill, LaidOut;
    var b := Fill(types, args, HeadSum(types), 0).value;
    HeadNotShort(types, args, HeadSum(types), 0);
    HeadSumWords(types);
    var s := Encoding(types, args).value;
    assert s[0..|b.head|] == b.head && s[|b.head|..|s|] == b.tail;
    FillLaysOut(types, args, s, 0, HeadSum(types), 0);
  }

  // ------------------------------------------------------------------ round trip

  function RereadArgs(types: seq<Type>, args: seq<Value>): (r: seq<Value>)
    requires |types| == |args|
    ensures |r| == |args|
  {
    if types == [] then [] else [Reread(types[0], args[0])] + RereadArgs(types[1..], args[1..])
  }

  predicate SurviveArgs(types: seq<Type>, args: seq<Value>)
    requires |types| == |args|
  {
    forall i | 0 <= i < |types| :: Survives(types[i], args[i])
  }

  /** Following the offsets of a layout reads every parameter back. */
  lemma {:induction false} LayoutReadsBack(types: seq<Type>, args: seq<Value>, s: Bytes, slot: nat, headSize: nat,
                                           segment: nat)
    requires |types| == |args| && AllSupported(types) && LaidOut(types, args, s, slot, headSize, segment)
    ensures Parameters(types, s, slot) == Some(RereadArgs(types, args))
    decreases |types|
  {
    hide Enc, Word, Dec, DecUInt, Reread;
    if types != [] {
      assert types[0] in types;
      var enc := Enc(types[0], args[0]).value;
      if IsDynamic(types[0]) {
        LengthReadsBack(segment, s, slot);
        ReadsBack(types[0], args[0], s, segment);
        LayoutReadsBack(types[1..], args[1..], s, slot + 32, headSize, segment + |enc|);
      } else {
        ReadsBack(types[0], args[0], s, slot);
        LayoutReadsBack(types[1..], args[1..], s, slot + |enc|, headSize, segment);
      }
    }
  }

  lemma {:induction false} RereadArgsIff(types: seq<Type>, args: seq<Value>)
    requires |types| == |args| && forall i | 0 <= i < |types| :: Enc(types[i], args[i]).Some?
    ensures RereadArgs(types, args) == args <==> SurviveArgs(types, args)
    decreases |types|
  {
    hide Enc, Reread, Survives;
    if types != [] {
      RereadIff(types[0], args[0]);
      RereadArgsIff(types[1..], args[1..]);
      var r := RereadArgs(types, args);
      assert r[0] == Reread(types[0], args[0]) && r[1..] == RereadArgs(types[1..], args[1..]);
      assert args == [args[0]] + args[1..];
      if SurviveArgs(types, args) {
        forall i | 0 <= i < |types[1..]| ensures Survives(types[1..][i], args[1..][i]) {
          assert types[1..][i] == types[i + 1] && args[1..][i] == args[i + 1];
        }
      }
      if r == args {
        assert r[0] == args[0] && r[1..] == args[1..];
        forall i | 0 <= i < |types| ensures Survives(types[i], args[i]) {
          assert i > 0 ==> types[i] == types[1..][i - 1] && args[i] == args[1..][i - 1];
        }
      }
    }
  }

  lemma {:induction false} FillEncodes(types: seq<Type>, args: seq<Value>, headSize: nat, tailPosition: nat)
    requires |types| == |args| && Fill(types, args, headSize, tailPosition).Some?
    ensures forall i | 0 <= i < |types| :: Enc(types[i], args[i]).Some?
    decreases |types|
  {
    hide Enc, Word;
    if types != [] {
      var first := Enc(types[0], args[0]).value;
      FillEncodes(types[1..], args[1..], headSize, tailPosition + if IsDynamic(types[0]) then |first| else 0);
      forall i | 0 <= i < |types| ensures Enc(types[i], args[i]).Some? {
        assert i > 0 ==> types[i] == types[1..][i - 1] && args[i] == args[1..][i - 1];
      }
    }
  }

  /** The topic in which an indexed parameter of an event travels. */
  ghost predicate Topic(t: Type, v: Value, topic: string) {
    Enc(t, v).Some? && topic == "0x" + ToHex(Enc(t, v).value)
  }

  lemma {:induction false} TopicsReadBack(types: seq<Type>, values: seq<Value>, topics: seq<string>)
    requires |types| == |values| && AllSupported(types) && (types == [] || |types| < |topics|)
    requires forall i | 0 <= i < |types| :: Topic(types[i], values[i], topics[i + 1])
    ensures Topics(types, topics).Some? && |Topics(types, topics).value| == |values|
    ensures forall i | 0 <= i < |types| :: Topics(types, topics).value[i] == Reread(types[i], values[i])
    decreases |types|
  {
    hide Enc, Dec, Reread, ToHex, FromHex;
    if types != [] {
      var n := |types| - 1;
      assert types[n] in types;
      TopicsReadBack(types[..n], values[..n], topics);
      var b := Enc(types[n], values[n]).value;
      assert Topic(types[n], values[n], topics[n + 1]);
      assert topics[n + 1][2..] == ToHex(b);
      HexBack(b);
      assert b[0..0 + |b|] == b;
      ReadsBack(types[n], values[n], b, 0);
    }
  }

  /**
   The round trip: decoding an event whose data is an accepted encoding without its selector, and whose
   topics carry the indexed parameters, returns the indexed parameters and then the arguments as reread.
   */
  lemma EventRoundTrip(indexed: seq<Type>, values: seq<Value>, topics: seq<string>, types: seq<Type>, args: seq<Value>)
    requires AllSupported(indexed) && AllSupported(types) && Encoding(types, args).Some?
    requires |indexed| == |values| && (indexed == [] || |indexed| < |topics|)
    requires forall i | 0 <= i < |indexed| :: Topic(indexed[i], values[i], topics[i + 1])
    ensures var r := Event(indexed, types, topics, "0x" + ToHex(Encoding(types, args).value));
            && r.Some? && |r.value| == |values| + |args|
            && r.value[|values|..] == RereadArgs(types, args)
            && forall i | 0 <= i < |values| :: r.value[i] == Reread(indexed[i], values[i])
  {
    hide Encoding, Parameters, Topics, ToHex, FromHex, Reread, LaidOut;
    var s := Encoding(types, args).value;
    var data := "0x" + ToHex(s);
    assert data[2..] == ToHex(s);
    HexBack(s);
    TopicsReadBack(indexed, values, topics);
    EncodedArgs(types, args);
    EncodingIsLaidOut(types, args);
    LayoutReadsBack(types, args, s, 0, HeadSum(types), HeadSum(types));
  }

  lemma EncodedArgs(types: seq<Type>, args: seq<Value>)
    requires Encoding(types, args).Some?
    ensures |types| == |args|
  {
  }

  /**
   Decoding returns exactly what went into the topics and the data if and only if no unsigned word among all
   of it has its top bit set: for `uint256` the values below 2^255.
   */
  lemma RoundTripIff(indexed: seq<Type>, values: seq<Value>, topics: seq<string>, types: seq<Type>, args: seq<Value>)
    requires AllSupported(indexed) && AllSupported(types) && Encoding(types, args).Some?
    requires |indexed| == |values| && (indexed == [] || |indexed| < |topics|)
    requires forall i | 0 <= i < |indexed| :: Topic(indexed[i], values[i], topics[i + 1])
    ensures |types| == |args|
    ensures Event(indexed, types, topics, "0x" + ToHex(Encoding(types, args).value)) == Some(values + args) <==>
            SurviveArgs(indexed, values) && SurviveArgs(types, args)
  {
    hide Encoding, Event, ToHex, Reread, Survives, RereadArgs, AllSupported;
    EncodedArgs(types, args);
    AcceptedEncodes(types, args);
    EventRoundTrip(indexed, values, topics, types, args);
    RereadArgsIff(types, args);
    forall i | 0 <= i < |indexed|
      ensures Reread(indexed[i], values[i]) == values[i] <==> Survives(indexed[i], values[i])
    {
      assert Topic(indexed[i], values[i], topics[i + 1]);
      RereadIff(indexed[i], values[i]);
    }
    SameParts(Event(indexed, types, topics, "0x" + ToHex(Encoding(types, args).value)).value, values, args);
  }

  lemma AcceptedEncodes(types: seq<Type>, args: seq<Value>)
    requires |types| == |args| && Encoding(types, args).Some?
    ensures forall i | 0 <= i < |types| :: Enc(types[i], args[i]).Some?
  {
    hide Fill, Enc;
    FillEncodes(types, args, HeadSum(types), 0);
  }

  lemma SameParts(all: seq<Value>, first: seq<Value>, rest: seq<Value>)
    requires |all| == |first| + |rest|
    ensures all == first + rest <==> (forall i | 0 <= i < |first| :: all[i] == first[i]) && all[|first|..] == rest
  {
    if all == first + rest {
      assert (first + rest)[|first|..] == rest;
    }
    if (forall i | 0 <= i < |first| :: all[i] == first[i]) && all[|first|..] == rest {
      assert all[..|first|] == first;
      assert all == all[..|first|] + all[|first|..];
    }
  }
}
