/**
 Calls and events of a contract as text: arguments go into a head buffer and a tail buffer, and are read
 back by following the offsets in the head.
 */
module FunctionEncoding {
  import opened Options
  import opened Words
  import opened Hex
  import opened AbiTypes
  import opened ByteBuffers
  import opened Converters

  const TAIL_CAPACITY: nat := 1024

  datatype Parameter = Parameter(t: Type, indexed: bool)

  predicate AllSupported(types: seq<Type>) {
    forall t | t in types :: Supported(t)
  }

  function HeadSum(types: seq<Type>): nat {
    if types == [] then 0 else HeadSize(types[0]) + HeadSum(types[1..])
  }

  function Indexed(parameters: seq<Parameter>, indexed: bool): seq<Type> {
    if parameters == [] then []
    else if parameters[|parameters| - 1].indexed == indexed
    then Indexed(parameters[..|parameters| - 1], indexed) + [parameters[|parameters| - 1].t]
    else Indexed(parameters[..|parameters| - 1], indexed)
  }

  /** How many of the parameters in front of one are indexed, or are not. */
  function CountOf(parameters: seq<Parameter>, indexed: bool, n: nat): nat
    requires n <= |parameters|
  {
    if n == 0 then 0
    else CountOf(parameters, indexed, n - 1) + if parameters[n - 1].indexed == indexed then 1 else 0
  }

  lemma {:induction false} IndexedLength(parameters: seq<Parameter>, indexed: bool)
    ensures |Indexed(parameters, indexed)| == CountOf(parameters, indexed, |parameters|)
  {
    if parameters != [] {
      var n := |parameters| - 1;
      IndexedLength(parameters[..n], indexed);
      SameCount(parameters, n, indexed, n);
    }
  }

  /** The types of the indexed parameters, or of the others: each behind those of its kind in front of it. */
  lemma {:induction false} IndexedAt(parameters: seq<Parameter>, indexed: bool, i: nat)
    requires i < |parameters| && parameters[i].indexed == indexed
    ensures var k := CountOf(parameters, indexed, i);
            k < |Indexed(parameters, indexed)| && Indexed(parameters, indexed)[k] == parameters[i].t
    decreases |parameters|
  {
    var n := |parameters| - 1;
    IndexedLength(parameters[..n], indexed);
    SameCount(parameters, n, indexed, n);
    if i < n {
      IndexedAt(parameters[..n], indexed, i);
      SameCount(parameters, n, indexed, i);
    }
  }

  lemma {:induction false} SameCount(parameters: seq<Parameter>, n: nat, indexed: bool, i: nat)
    requires i <= n <= |parameters|
    ensures CountOf(parameters[..n], indexed, i) == CountOf(parameters, indexed, i)
  {
    if i > 0 {
      SameCount(parameters, n, indexed, i - 1);
    }
  }

  datatype Buffers = Buffers(head: Bytes, tail: Bytes)

  /** What the arguments put into the two buffers when the tail already holds tailPosition bytes. */
  function Fill(types: seq<Type>, args: seq<Value>, headSize: nat, tailPosition: nat): Option<Buffers>
    requires |types| == |args|
    decreases |types|
  {
    if types == [] then Some(Buffers([], []))
    else
      var first := Enc(types[0], args[0]);
      if first.None? then None
      else if IsDynamic(types[0]) then
        var offset := headSize + tailPosition;
        var rest := Fill(types[1..], args[1..], headSize, tailPosition + |first.value|);
        if TWO_31 <= offset || rest.None? then None
        else Some(Buffers(Word(offset) + rest.value.head, first.value + rest.value.tail))
      else
        var rest := Fill(types[1..], args[1..], headSize, tailPosition);
        if rest.None? then None else Some(Buffers(first.value + rest.value.head, rest.value.tail))
  }

  /** The encoding of an argument list; None when it is refused, or when a buffer overflows. */
  function Encoding(types: seq<Type>, args: seq<Value>): Option<Bytes> {
    if |types| != |args| then None
    else
      var b := Fill(types, args, HeadSum(types), 0);
      if b.None? || HeadSum(types) < |b.value.head| || TAIL_CAPACITY < |b.value.tail| then None
      else Some(b.value.head + b.value.tail)
  }

  /** One parameter read from a position: a dynamic one behind an offset, any other one in place. */
  function ParameterAt(t: Type, s: Bytes, pos: nat): Option<Read<Value>> {
    if IsDynamic(t) then
      var offset := DecUInt(256, s, pos);
      if offset.None? || IntValue(offset.value) < pos + 32 || |s| < IntValue(offset.value) then None
      else
        var r := Dec(t, s, IntValue(offset.value));
        if r.None? then None else Some(Read(r.value.value, pos + 32))
    else Dec(t, s, pos)
  }

  /** The parameters read from a position, one after the other. */
  function Parameters(types: seq<Type>, s: Bytes, pos: nat): Option<seq<Value>>
    decreases |types|
  {
    if types == [] then Some([])
    else
      var first := ParameterAt(types[0], s, pos);
      if first.None? then None else ReadFirst([first.value.value], Parameters(types[1..], s, first.value.position))
  }

  function ReadFirst(values: seq<Value>, rest: Option<seq<Value>>): Option<seq<Value>> {
    if rest.None? then None else Some(values + rest.value)
  }

  /** The bytes in a text that starts with 0x. */
  function Payload(s: string): Option<Bytes> {
    if "0x" <= s then FromHex(s[2..]) else None
  }

  /** The indexed parameters of an event, each in a topic of its own behind the first topic. */
  function Topics(types: seq<Type>, topics: seq<string>): Option<seq<Value>>
    decreases |types|
  {
    if types == [] then Some([])
    else
      var n := |types| - 1;
      var before := Topics(types[..n], topics);
      if before.None? || |topics| <= n + 1 || Payload(topics[n + 1]).None? then None
      else
        var r := Dec(types[n], Payload(topics[n + 1]).value, 0);
        if r.None? then None else Some(before.value + [r.value.value])
  }

  function Event(indexed: seq<Type>, types: seq<Type>, topics: seq<string>, data: string): Option<seq<Value>> {
    var first := Topics(indexed, topics);
    if first.None? || Payload(data).None? then None
    else
      var rest := Parameters(types, Payload(data).value, 0);
      if rest.None? then None else Some(first.value + rest.value)
  }

  method EncodeBuffer(buffer: ByteBuffer) returns (text: string)
    requires buffer.Valid()
    modifies buffer
    ensures buffer.Valid() && text == ToHex(old(buffer.Written()))
  {
    buffer.Flip();
    text := "";
    ghost var all := buffer.Content();
    while buffer.position < buffer.limit
      invariant buffer.Valid() && buffer.Content() == all
      invariant text == ToHex(all[..buffer.position])
      decreases buffer.limit - buffer.position
    {
      ghost var done := all[..buffer.position];
      var ok, b := buffer.Get(1);
      text := text + ByteText(b[0]);
      ToHexAppend(done, b);
      assert ToHex(b) == ByteText(b[0]) + ToHex([]);
      assert done + b == all[..buffer.position];
    }
    assert all[..buffer.position] == all;
  }

  method DecodeBuffer(text: string) returns (ok: bool, byteBuffer: ByteBuffer)
    ensures ok == Payload(text).Some?
    ensures fresh(byteBuffer) && fresh(byteBuffer.bytes) && byteBuffer.Valid()
    ensures ok ==> byteBuffer.Written() == Payload(text).value
  {
    hide ParseByte, FromHex;
    byteBuffer := new ByteBuffer.AllocateDirect(|text| / 2);
    if !("0x" <= text) {
      return false, byteBuffer;
    }
    var idx := 2;
    ghost var done: Bytes := [];
    if FromHex(text[2..]).Some? {
      assert done + FromHex(text[2..]).value == FromHex(text[2..]).value;
    }
    while idx < |text| - 1
      invariant 2 <= idx <= |text| && byteBuffer.Valid() && fresh(byteBuffer) && fresh(byteBuffer.bytes)
      invariant byteBuffer.limit == |text| / 2 && byteBuffer.position == (idx - 2) / 2 && idx % 2 == 0
      invariant byteBuffer.Written() == done
      invariant FromHex(text[2..]).Some? == FromHex(text[idx..]).Some?
      invariant FromHex(text[2..]).Some? ==> FromHex(text[2..]).value == done + FromHex(text[idx..]).value
    {
      FromHexStep(text[idx..]);
      assert text[idx..][0] == text[idx] && text[idx..][1] == text[idx + 1] && text[idx..][2..] == text[idx + 2..];
      var b := ParseByte(text[idx], text[idx + 1]);
      if b.None? {
        return false, byteBuffer;
      }
      var put := byteBuffer.Put([b.value], 0, 1);
      done := done + [b.value];
      idx := idx + 2;
    }
    FromHexNothing(text[idx..]);
    return true, byteBuffer;
  }

  lemma FromHexNothing(s: string)
    requires |s| < 2
    ensures FromHex(s) == Some([])
  {
  }

  /** Reads one parameter: in place, or behind the offset found in its place. */
  method DecodeParameter(t: Type, byteBuffer: ByteBuffer) returns (ok: bool, value: Value)
    requires Supported(t) && byteBuffer.Valid()
    modifies byteBuffer`position, byteBuffer`mark
    ensures byteBuffer.Valid()
    ensures var r := ParameterAt(t, byteBuffer.Content(), old(byteBuffer.position));
            ok == r.Some? && (ok ==> Some(Read(value, byteBuffer.position)) == r)
  {
    hide Dec, DecUInt;
    value := BoolValue(false);
    if IsDynamic(t) {
      var offset;
      ok, offset := DeserialiseUInt(256, byteBuffer);
      if ok {
        byteBuffer.Mark();
        ok := byteBuffer.Position(IntValue(offset));
        if ok {
          ok, value := DeserialiseType(t, byteBuffer);
          if ok {
            ok := byteBuffer.Reset();
          }
        }
      }
    } else {
      ok, value := DeserialiseType(t, byteBuffer);
    }
  }

  /** Writes one argument: in place, or as an offset in the head and the rest in the tail. */
  method EncodeArgument(t: Type, arg: Value, headSize: nat, headBuffer: ByteBuffer,
                        tailBuffer: ByteBuffer)
    returns (ok: bool)
    requires Supported(t) && headBuffer.Valid() && tailBuffer.Valid()
    requires headBuffer != tailBuffer && headBuffer.bytes != tailBuffer.bytes
    modifies headBuffer, headBuffer.bytes, tailBuffer, tailBuffer.bytes
    ensures headBuffer.Valid() && tailBuffer.Valid()
    ensures headBuffer.limit == old(headBuffer.limit) && tailBuffer.limit == old(tailBuffer.limit)
    ensures var enc, offset := Enc(t, arg), headSize + old(tailBuffer.position);
            var headRoom := old(headBuffer.limit - headBuffer.position);
            var tailRoom := old(tailBuffer.limit - tailBuffer.position);
            && ok == (enc.Some? && if IsDynamic(t) then |enc.value| <= tailRoom && offset < TWO_31 && 32 <= headRoom
                                   else |enc.value| <= headRoom)
            && (ok ==>
                  headBuffer.Written() == old(headBuffer.Written()) + if IsDynamic(t) then Word(offset) else enc.value)
            && (ok ==>
                  tailBuffer.Written() ==
                  if IsDynamic(t) then old(tailBuffer.Written()) + enc.value else old(tailBuffer.Written()))
  {
    hide Enc, Word;
    if IsDynamic(t) {
      var offset := headSize + tailBuffer.position;
      ok := SerialiseType(t, tailBuffer, arg);
      if ok {
        ok := offset < TWO_31;
        if ok {
          ok := SerialiseLength(headBuffer, offset);
        }
      }
    } else {
      ok := SerialiseType(t, headBuffer, arg);
    }
  }

  class FunctionEncoding {
    const hash: string
    const eventIndexedParameters: seq<Type>
    const inputParameters: seq<Type>
    const inputParametersHeadSize: nat

    ghost predicate Valid() {
      && AllSupported(eventIndexedParameters) && AllSupported(inputParameters)
      && inputParametersHeadSize == HeadSum(inputParameters)
    }

    constructor (hash: string, inputs: seq<Parameter>)
      requires forall p | p in inputs :: Supported(p.t)
      ensures Valid() && this.hash == hash
      ensures eventIndexedParameters == Indexed(inputs, true) && inputParameters == Indexed(inputs, false)
    {
      var indexed: seq<Type>, others: seq<Type>, headSize := [], [], 0;
      var i := 0;
      while i < |inputs|
        invariant i <= |inputs|
        invariant indexed == Indexed(inputs[..i], true) && others == Indexed(inputs[..i], false)
        invariant AllSupported(indexed) && AllSupported(others) && headSize == HeadSum(others)
      {
        assert inputs[..i + 1][..i] == inputs[..i];
        if inputs[i].indexed {
          indexed := indexed + [inputs[i].t];
        } else {
          HeadSumAppend(others, inputs[i].t);
          others := others + [inputs[i].t];
          headSize := headSize + HeadSize(inputs[i].t);
        }
        i := i + 1;
      }
      assert inputs[..i] == inputs;
      this.hash, eventIndexedParameters, inputParameters, inputParametersHeadSize := hash, indexed, others, headSize;
    }

    function Selector(): string {
      if |hash| < 10 then hash else hash[..10]
    }

    /** Puts the arguments into a head and a tail buffer of their own. */
    method FillBuffers(args: seq<Value>) returns (ok: bool, headBuffer: ByteBuffer, tailBuffer: ByteBuffer)
      requires Valid() && |args| == |inputParameters|
      ensures fresh(headBuffer) && fresh(tailBuffer) && headBuffer.Valid() && tailBuffer.Valid()
              && headBuffer != tailBuffer
      ensures ok == Encoding(inputParameters, args).Some?
      ensures ok ==> headBuffer.Written() + tailBuffer.Written() == Encoding(inputParameters, args).value
    {
      hide Fill, Enc, Word, ToHex, Supported, IsDynamic, HeadSum;
      headBuffer := new ByteBuffer.AllocateDirect(inputParametersHeadSize);
      tailBuffer := new ByteBuffer.AllocateDirect(TAIL_CAPACITY);
      var idx := 0;
      ghost var all := Fill(inputParameters, args, inputParametersHeadSize, 0);
      ghost var filled := Buffers([], []);
      FollowsNothing(all);
      assert inputParameters[0..] == inputParameters && args[0..] == args;
      while idx < |inputParameters|
        invariant idx <= |inputParameters| && headBuffer.Valid() && tailBuffer.Valid()
        invariant fresh(headBuffer) && fresh(headBuffer.bytes) && fresh(tailBuffer) && fresh(tailBuffer.bytes)
        invariant headBuffer != tailBuffer && headBuffer.bytes != tailBuffer.bytes
        invariant headBuffer.limit == inputParametersHeadSize && tailBuffer.limit == TAIL_CAPACITY
        invariant filled == Buffers(headBuffer.Written(), tailBuffer.Written())
        invariant all == Follows(filled,
                                 Fill(inputParameters[idx..], args[idx..], inputParametersHeadSize, |filled.tail|))
      {
        FollowsStep(inputParameters[idx..], args[idx..], inputParametersHeadSize, filled);
        assert inputParameters[idx..][1..] == inputParameters[idx + 1..] && args[idx..][1..] == args[idx + 1..];
        ok := EncodeArgument(inputParameters[idx], args[idx], inputParametersHeadSize, headBuffer, tailBuffer);
        if !ok {
          return;
        }
        filled := Buffers(headBuffer.Written(), tailBuffer.Written());
        idx := idx + 1;
      }
      FollowedByNothing(inputParameters[idx..], args[idx..], inputParametersHeadSize, filled);
      ok := true;
    }

    method Encode(args: seq<Value>) returns (ok: bool, text: string)
      requires Valid()
      ensures ok == Encoding(inputParameters, args).Some?
      ensures ok ==> text == hash[..if |hash| < 10 then |hash| else 10] + ToHex(Encoding(inputParameters, args).value)
    {
      hide Fill, ToHex, Supported, HeadSum;
      text := "";
      if |args| != |inputParameters| {
        return false, text;
      }
      var headBuffer, tailBuffer;
      ok, headBuffer, tailBuffer := FillBuffers(args);
      if ok {
        ToHexAppend(headBuffer.Written(), tailBuffer.Written());
        var head := EncodeBuffer(headBuffer);
        var tail := EncodeBuffer(tailBuffer);
        text := Selector() + head + tail;
        assert text == Selector() + (head + tail);
      }
    }

    method DecodeEvent(topics: seq<string>, data: string) returns (ok: bool, resultArray: seq<Value>)
      requires Valid()
      ensures ok == Event(eventIndexedParameters, inputParameters, topics, data).Some?
      ensures ok ==> Some(resultArray) == Event(eventIndexedParameters, inputParameters, topics, data)
    {
      resultArray := [];
      var byteBuffer;
      var idx := 0;
      ghost var indexed := eventIndexedParameters;
      while idx < |eventIndexedParameters|
        invariant idx <= |eventIndexedParameters|
        invariant Topics(indexed[..idx], topics) == Some(resultArray)
      {
        assert indexed[..idx + 1][..idx] == indexed[..idx];
        if |topics| <= idx + 1 {
          TopicsStop(indexed, idx + 1, topics);
          return false, [];
        }
        ok, byteBuffer := DecodeBuffer(topics[idx + 1]);
        if !ok {
          TopicsStop(indexed, idx + 1, topics);
          return false, [];
        }
        byteBuffer.Flip();
        var value;
        ok, value := DeserialiseType(eventIndexedParameters[idx], byteBuffer);
        if !ok {
          TopicsStop(indexed, idx + 1, topics);
          return false, [];
        }
        resultArray := resultArray + [value];
        idx := idx + 1;
      }
      assert indexed[..idx] == indexed;
      ok, byteBuffer := DecodeBuffer(data);
      if !ok {
        return false, [];
      }
      byteBuffer.Flip();
      var rest;
      ok, rest := DecodeParameters(byteBuffer);
      resultArray := resultArray + rest;
    }

    method DecodeParameters(byteBuffer: ByteBuffer) returns (ok: bool, values: seq<Value>)
      requires Valid() && byteBuffer.Valid() && byteBuffer.position == 0
      modifies byteBuffer
      ensures var r := Parameters(inputParameters, old(byteBuffer.Content()), 0);
              ok == r.Some? && (ok ==> Some(values) == r)
    {
      hide Parameters, Dec, DecUInt;
      values := [];
      ghost var content := byteBuffer.Content();
      var idx := 0;
      assert inputParameters[0..] == inputParameters;
      ReadFirstNothing(Parameters(inputParameters, content, 0));
      while idx < |inputParameters|
        invariant idx <= |inputParameters| && byteBuffer.Valid() && byteBuffer.Content() == content
        invariant Parameters(inputParameters, content, 0)
               == ReadFirst(values, Parameters(inputParameters[idx..], content, byteBuffer.position))
      {
        ghost var start := byteBuffer.position;
        ghost var rest := inputParameters[idx..];
        assert rest[0] == inputParameters[idx] && rest[1..] == inputParameters[idx + 1..];
        ParametersStep(rest, content, start);
        var value;
        ok, value := DecodeParameter(inputParameters[idx], byteBuffer);
        if !ok {
          return false, [];
        }
        ReadFirstStep(values, value, Parameters(rest[1..], content, byteBuffer.position));
        values := values + [value];
        idx := idx + 1;
      }
      ParametersNothing(inputParameters[idx..], content, byteBuffer.position);
      assert values + [] == values;
      return true, values;
    }
  }

  lemma {:induction false} HeadSumAppend(types: seq<Type>, t: Type)
    ensures HeadSum(types + [t]) == HeadSum(types) + HeadSize(t)
    decreases |types|
  {
    if types == [] {
      assert ([t])[1..] == [];
    } else {
      HeadSumAppend(types[1..], t);
      assert (types + [t])[1..] == types[1..] + [t];
    }
  }

  ghost function Follows(first: Buffers, rest: Option<Buffers>): Option<Buffers> {
    if rest.None? then None else Some(Buffers(first.head + rest.value.head, first.tail + rest.value.tail))
  }

  lemma FollowsNothing(rest: Option<Buffers>)
    ensures Follows(Buffers([], []), rest) == rest
  {
    if rest.Some? {
      assert [] + rest.value.head == rest.value.head && [] + rest.value.tail == rest.value.tail;
    }
  }

  lemma FollowedByNothing(types: seq<Type>, args: seq<Value>, headSize: nat, before: Buffers)
    requires types == [] && args == []
    ensures Follows(before, Fill(types, args, headSize, |before.tail|)) == Some(before)
  {
    assert before.head + [] == before.head && before.tail + [] == before.tail;
  }

  /** One argument moves from what is still to be filled to what has been filled. */
  lemma FollowsStep(types: seq<Type>, args: seq<Value>, headSize: nat, before: Buffers)
    requires |types| == |args| && types != []
    ensures var enc := Enc(types[0], args[0]);
            var tailPosition := |before.tail|;
            Follows(before, Fill(types, args, headSize, tailPosition)) ==
            if enc.None? then None
            else if IsDynamic(types[0]) then
              if TWO_31 <= headSize + tailPosition then None
              else Follows(Buffers(before.head + Word(headSize + tailPosition), before.tail + enc.value),
                           Fill(types[1..], args[1..], headSize, tailPosition + |enc.value|))
            else Follows(Buffers(before.head + enc.value, before.tail),
                         Fill(types[1..], args[1..], headSize, tailPosition))
  {
    hide Enc, Word;
    var enc := Enc(types[0], args[0]);
    var tailPosition := |before.tail|;
    if enc.Some? {
      var rest := Fill(types[1..], args[1..], headSize, tailPosition + if IsDynamic(types[0]) then |enc.value| else 0);
      if rest.Some? {
        var word := Word(headSize + tailPosition);
        assert before.head + (word + rest.value.head) == before.head + word + rest.value.head;
        assert before.head + (enc.value + rest.value.head) == before.head + enc.value + rest.value.head;
        assert before.tail + (enc.value + rest.value.tail) == before.tail + enc.value + rest.value.tail;
      }
    }
  }

  lemma {:induction false} TopicsStop(types: seq<Type>, n: nat, topics: seq<string>)
    requires n <= |types| && Topics(types[..n], topics).None?
    ensures Topics(types, topics).None?
    decreases |types|
  {
    if n < |types| {
      var shorter := types[..|types| - 1];
      assert shorter[..n] == types[..n];
      TopicsStop(shorter, n, topics);
    } else {
      assert types[..n] == types;
    }
  }

  lemma ParametersStep(types: seq<Type>, s: Bytes, pos: nat)
    requires types != []
    ensures var first := ParameterAt(types[0], s, pos);
            Parameters(types, s, pos) ==
            if first.None? then None
                else ReadFirst([first.value.value], Parameters(types[1..], s, first.value.position))
  {
  }

  lemma ParametersNothing(types: seq<Type>, s: Bytes, pos: nat)
    requires types == []
    ensures Parameters(types, s, pos) == Some([])
  {
  }

  lemma ReadFirstNothing(rest: Option<seq<Value>>)
    ensures ReadFirst([], rest) == rest
  {
    if rest.Some? {
      assert [] + rest.value == rest.value;
    }
  }

  lemma ReadFirstStep(values: seq<Value>, value: Value, rest: Option<seq<Value>>)
    ensures ReadFirst(values, ReadFirst([value], rest)) == ReadFirst(values + [value], rest)
  {
    if rest.Some? {
      assert values + ([value] + rest.value) == values + [value] + rest.value;
    }
  }
}
