/**
 From the text of a parameter type to its converter: the factories, asked in any order, and the manager with
 its cache.
 */
module TypeResolution {
  import opened Collections
  import opened Options
  import opened Text

  datatype Factory =
    | AddressFactory
    | BoolFactory
    | DynamicArrayFactory
    | DynamicBytesFactory
    | FixedFactory
    | IntFactory
    | StaticArrayFactory
    | StaticBytesFactory
    | StringFactory
    | UFixedFactory
    | UIntFactory

  datatype Converter =
    | AddressConverter
    | BoolConverter
    | StringConverter
    | DynamicBytesConverter
    | StaticBytesConverter(length: nat)
    | UIntConverter(size: nat)
    | FixedConverter(m: nat, n: nat)
    | UFixedConverter(m: nat, n: nat)
    | DynamicArrayConverter(component: Converter)
    | StaticArrayConverter(component: Converter, count: nat)

  /** Whether a factory supports a type; asking may itself go wrong. */
  datatype Support = Yes | No | Throws

  // ------------------------------------------------------------------ numbers

  predicate Digit(c: char) {
    '0' <= c <= '9'
  }

  function Value(s: string): nat
    requires forall c | c in s :: Digit(c)
    decreases |s|
  {
    if s == "" then 0
    else
      assert Digit(s[|s| - 1]);
      10 * Value(s[..|s| - 1]) + (s[|s| - 1] as int - '0' as int)
  }

  /** A decimal number of 32 bits with an optional sign. */
  function ParseInt(s: string): (r: Option<int>)
    ensures r.Some? ==> forall c | c in s :: Digit(c) || c == '+' || c == '-'
  {
    var signed := s != "" && (s[0] == '+' || s[0] == '-');
    var digits := if signed then s[1..] else s;
    if digits == "" || exists c :: c in digits && !Digit(c) then None
    else
      assert forall c | c in s :: c in digits || c == s[0];
      var v: int := if signed && s[0] == '-' then 0 - Value(digits) else Value(digits);
      if -0x8000_0000 <= v < 0x8000_0000 then Some(v) else None
  }

  /** A decimal number below 2^32, read as a signed number of 32 bits. */
  function ParseUnsignedInt(s: string): (r: Option<int>)
    ensures r.Some? ==> forall c | c in s :: Digit(c) || c == '+' || c == '-'
  {
    var signed := s != "" && s[0] == '+';
    var digits := if signed then s[1..] else s;
    if digits == "" || exists c :: c in digits && !Digit(c) then None
    else
      assert forall c | c in s :: c in digits || c == s[0];
      var v := Value(digits);
      if v < 0x8000_0000 then Some(v) else if v < 0x1_0000_0000 then Some(v - 0x1_0000_0000) else None
  }

  predicate BitSize(size: int) {
    8 <= size <= 256 && size % 8 == 0
  }

  // ------------------------------------------------------------------ the factories

  /** The size behind a prefix, 256 if there is none. */
  function SizeBehind(prefix: string, t: string): Option<nat> {
    if !(prefix <= t) then None
    else
      var suffix := t[|prefix|..];
      if suffix == "" then Some(256)
      else if suffix[0] == '+' then None
      else
        var size := ParseUnsignedInt(suffix);
        if size.Some? && BitSize(size.value) then Some(size.value) else None
  }

  function BytesLength(t: string): Option<nat> {
    if !("bytes" <= t) then None
    else
      var suffix := t[5..];
      if suffix == "" || suffix[0] == '+' then None
      else
        var size := ParseUnsignedInt(suffix);
        if size.Some? && 0 <= size.value <= 32 then Some(size.value) else None
  }

  /** The parts between the occurrences of x, without empty ones at the end. */
  function SplitAtX(s: string): seq<string>
    decreases |s|
  {
    var i := IndexOf(s, 'x');
    if i == |s| then if s == "" then [] else [s]
    else
      var rest := SplitAtX(s[i + 1..]);
      if rest == [] && i == 0 then [] else [s[..i]] + rest
  }

  function PartSize(s: string): Option<nat> {
    if s != "" && s[0] == '+' then None
    else
      var size := ParseInt(s);
      if size.Some? && BitSize(size.value) then Some(size.value) else None
  }

  /** The two sizes behind a prefix, 128 each if there are none. */
  function SizesBehind(prefix: string, t: string): Option<(nat, nat)> {
    if !(prefix <= t) then None
    else if t[|prefix|..] == "" then Some((128, 128))
    else
      var parts := SplitAtX(t[|prefix|..]);
      if |parts| != 2 || PartSize(parts[0]).None? || PartSize(parts[1]).None? then None
      else Some((PartSize(parts[0]).value, PartSize(parts[1]).value))
  }

  /** The first dimension of a fixed-size array. */
  function FirstSize(t: string): (r: Option<nat>)
    ensures r.Some? ==> IndexOf(t, '[') + 1 < IndexOf(t, ']') < |t|
  {
    var start, end := IndexOf(t, '['), IndexOf(t, ']');
    if start == |t| || end == |t| || end <= start + 1 then None
    else
      var size := ParseInt(t[start + 1..end]);
      if size.Some? && 0 < size.value then Some(size.value) else None
  }

  /** A bracket at the very end has no character behind it to look at. */
  function FirstDynamic(t: string): Support {
    var start := IndexOf(t, '[');
    if start == |t| then No
    else if start + 1 == |t| then Throws
    else if t[start + 1] == ']' then Yes else No
  }

  function Whether(b: bool): Support {
    if b then Yes else No
  }

  function Supports(f: Factory, t: string): Support {
    match f
    case AddressFactory => Whether(t == "address")
    case BoolFactory => Whether(t == "bool")
    case DynamicArrayFactory => FirstDynamic(t)
    case DynamicBytesFactory => Whether(t == "bytes")
    case FixedFactory => Whether(SizesBehind("fixed", t).Some?)
    case IntFactory => Whether(SizeBehind("int", t).Some?)
    case StaticArrayFactory => Whether(FirstSize(t).Some?)
    case StaticBytesFactory => Whether(BytesLength(t).Some?)
    case StringFactory => Whether(t == "string")
    case UFixedFactory => Whether(SizesBehind("ufixed", t).Some?)
    case UIntFactory => Whether(SizeBehind("uint", t).Some?)
  }

  // ------------------------------------------------------------------ at most one supports a type

  predicate InSome(parts: seq<string>, c: char) {
    exists i :: 0 <= i < |parts| && c in parts[i]
  }

  lemma InSomeOf(part: string, parts: seq<string>, c: char)
    ensures InSome([part] + parts, c) <==> c in part || InSome(parts, c)
  {
    var all := [part] + parts;
    if c in part {
      assert c in all[0];
    }
    if i :| 0 <= i < |parts| && c in parts[i] {
      assert c in all[i + 1];
    }
    if i :| 0 <= i < |all| && c in all[i] {
      assert i > 0 ==> c in parts[i - 1];
    }
  }

  lemma {:induction false} SplitHas(s: string, c: char)
    requires c in s && c != 'x'
    ensures InSome(SplitAtX(s), c)
    decreases |s|
  {
    hide IndexOf, InSome;
    var i := IndexOf(s, 'x');
    if i < |s| {
      var rest := s[i + 1..];
      assert s == s[..i] + ['x'] + rest;
      if c in rest {
        SplitHas(rest, c);
      }
      InSomeOf(s[..i], SplitAtX(rest), c);
      NoneInNothing(c);
    } else {
      InSomeOf(s, [], c);
      assert [s] + [] == [s];
    }
  }

  lemma NoneInNothing(c: char)
    ensures !InSome([], c)
  {
  }

  predicate ForArrays(f: Factory) {
    f.DynamicArrayFactory? || f.StaticArrayFactory?
  }

  /** A factory for anything but arrays supports no text with an opening bracket. */
  lemma NoBracket(f: Factory, t: string)
    requires Supports(f, t) == Yes && !ForArrays(f)
    ensures '[' !in t
  {
    match f
    case FixedFactory => NoBracketInSizes("fixed", t);
    case UFixedFactory => NoBracketInSizes("ufixed", t);
    case IntFactory => assert t == "int" + t[3..];
    case UIntFactory => assert t == "uint" + t[4..];
    case StaticBytesFactory => assert t == "bytes" + t[5..];
    case _ =>
  }

  lemma NoBracketInSizes(prefix: string, t: string)
    requires SizesBehind(prefix, t).Some? && '[' !in prefix
    ensures '[' !in t
  {
    assert t == prefix + t[|prefix|..];
    if '[' in t[|prefix|..] {
      SplitHas(t[|prefix|..], '[');
    }
  }

  /** What a text supported by a factory for anything but arrays starts with. */
  function Prefix(f: Factory): string {
    match f
    case AddressFactory => "address"
    case BoolFactory => "bool"
    case DynamicBytesFactory => "bytes"
    case FixedFactory => "fixed"
    case IntFactory => "int"
    case StaticBytesFactory => "bytes"
    case StringFactory => "string"
    case UFixedFactory => "ufixed"
    case UIntFactory => "uint"
    case _ => ""
  }

  lemma PrefixOf(f: Factory, t: string)
    requires Supports(f, t) == Yes
    ensures Prefix(f) <= t
  {
  }

  /** Plain bytes are not bytes of a fixed length. */
  lemma BytesOrMore(t: string)
    ensures !(Supports(DynamicBytesFactory, t) == Yes && Supports(StaticBytesFactory, t) == Yes)
  {
  }

  /** No text is supported by two factories, and none that makes one of them throw by any. */
  lemma AtMostOneSupports(t: string, f: Factory, g: Factory)
    requires Supports(f, t) == Yes && Supports(g, t) != No
    ensures f == g
  {
    hide SizeBehind, SizesBehind, BytesLength, ParseInt, IndexOf;
    if ForArrays(f) && !ForArrays(g) {
      NoBracket(g, t);
    } else if !ForArrays(f) && ForArrays(g) {
      NoBracket(f, t);
    } else if !ForArrays(f) {
      PrefixOf(f, t);
      PrefixOf(g, t);
      assert t[0] == Prefix(f)[0] == Prefix(g)[0] && t[1] == Prefix(f)[1] == Prefix(g)[1];
      if f != g {
        BytesOrMore(t);
      }
    }
  }

  // ------------------------------------------------------------------ resolution

  /** The text of the component type: the first dimension taken away, which leaves a shorter text. */
  function StaticComponent(t: string): (c: string)
    requires FirstSize(t).Some?
    ensures |c| < |t|
  {
    t[..IndexOf(t, '[')] + t[IndexOf(t, ']') + 1..]
  }

  function DynamicComponent(t: string): (c: string)
    requires FirstDynamic(t) == Yes
    ensures |c| < |t|
  {
    t[..IndexOf(t, '[')] + t[IndexOf(t, '[') + 2..]
  }

  /** The first factory that supports a type; none if there is none or if asking one goes wrong before. */
  function FirstSupporting(order: seq<Factory>, t: string): (f: Option<Factory>)
    ensures f.Some? ==> f.value in order && Supports(f.value, t) == Yes
  {
    if order == [] then None
    else match Supports(order[0], t)
      case Yes => Some(order[0])
      case No => FirstSupporting(order[1..], t)
      case Throws => None
  }

  /** The converter of a type; None stands for every kind of refusal. */
  function Resolve(order: seq<Factory>, t: string): Option<Converter>
    decreases |t|, 1
  {
    var f := FirstSupporting(order, t);
    if f.None? then None else Make(order, f.value, t)
  }

  function Make(order: seq<Factory>, f: Factory, t: string): Option<Converter>
    requires Supports(f, t) == Yes
    decreases |t|, 0
  {
    match f
    case AddressFactory => Some(AddressConverter)
    case BoolFactory => Some(BoolConverter)
    case DynamicBytesFactory => Some(DynamicBytesConverter)
    case StringFactory => Some(StringConverter)
    case IntFactory => Some(UIntConverter(SizeBehind("int", t).value))
    case UIntFactory => Some(UIntConverter(SizeBehind("uint", t).value))
    case StaticBytesFactory =>
      var length := BytesLength(t).value;
      if length == 0 then None else Some(StaticBytesConverter(length))
    case FixedFactory =>
      var (m, n) := SizesBehind("fixed", t).value;
      if 256 < m + n then None else Some(FixedConverter(m, n))
    case UFixedFactory =>
      var (m, n) := SizesBehind("ufixed", t).value;
      if 256 < m + n then None else Some(UFixedConverter(m, n))
    case DynamicArrayFactory =>
      var component := Resolve(order, DynamicComponent(t));
      if component.None? then None else Some(DynamicArrayConverter(component.value))
    case StaticArrayFactory =>
      var component := Resolve(order, StaticComponent(t));
      if component.None? then None else Some(StaticArrayConverter(component.value, FirstSize(t).value))
  }

  lemma {:induction false} FirstIsOnly(order: seq<Factory>, t: string, f: Factory)
    requires f in order && Supports(f, t) == Yes
    ensures FirstSupporting(order, t) == Some(f)
    decreases |order|
  {
    hide Supports;
    if Supports(order[0], t) != No {
      AtMostOneSupports(t, f, order[0]);
    } else {
      FirstIsOnly(order[1..], t, f);
    }
  }

  /** The order in which the factories were found makes no difference to any type. */
  lemma {:induction false} OrderIsIrrelevant(order: seq<Factory>, other: seq<Factory>, t: string)
    requires forall f :: f in order <==> f in other
    ensures Resolve(order, t) == Resolve(other, t)
    decreases |t|
  {
    hide Supports, FirstSupporting;
    var f, g := FirstSupporting(order, t), FirstSupporting(other, t);
    if f.Some? {
      FirstIsOnly(other, t, f.value);
    } else if g.Some? {
      FirstIsOnly(order, t, g.value);
    }
    if f.Some? {
      MakeSame(order, other, f.value, t);
    }
  }

  lemma {:induction false} MakeSame(order: seq<Factory>, other: seq<Factory>, f: Factory, t: string)
    requires (forall f :: f in order <==> f in other) && Supports(f, t) == Yes
    ensures Make(order, f, t) == Make(other, f, t)
    decreases |t|, 0
  {
    hide Resolve, SizeBehind, SizesBehind, BytesLength;
    match f
    case DynamicArrayFactory => OrderIsIrrelevant(order, other, DynamicComponent(t));
    case StaticArrayFactory => OrderIsIrrelevant(order, other, StaticComponent(t));
    case _ =>
  }

  const FACTORIES: seq<Factory> :=
    [AddressFactory, BoolFactory, DynamicArrayFactory, DynamicBytesFactory, FixedFactory, IntFactory,
     StaticArrayFactory, StaticBytesFactory, StringFactory, UFixedFactory, UIntFactory]

  // ------------------------------------------------------------------ arrays of arrays

  /** What stands between two brackets: nothing, a size, or something that is no size. */
  datatype Dimension = Open | Sized(count: nat) | NoSize

  function ParseDimension(d: string): Dimension {
    if d == "" then Open
    else
      var size := ParseInt(d);
      if size.Some? && 0 < size.value then Sized(size.value) else NoSize
  }

  function ParseDimensions(dims: seq<string>): (r: seq<Dimension>)
    ensures |r| == |dims| && forall i | 0 <= i < |dims| :: r[i] == ParseDimension(dims[i])
  {
    if dims == [] then [] else [ParseDimension(dims[0])] + ParseDimensions(dims[1..])
  }

  function DimensionsText(dims: seq<string>): string {
    if dims == [] then "" else "[" + dims[0] + "]" + DimensionsText(dims[1..])
  }

  /** Arrays of arrays, the first dimension outermost; none if a dimension is no size. */
  function Nest(base: Option<Converter>, dims: seq<Dimension>): Option<Converter> {
    if dims == [] then base
    else
      var component := Nest(base, dims[1..]);
      if component.None? || dims[0].NoSize? then None
      else if dims[0].Open? then Some(DynamicArrayConverter(component.value))
      else Some(StaticArrayConverter(component.value, dims[0].count))
  }

  predicate NoBrackets(s: string) {
    '[' !in s && ']' !in s
  }

  /** Whatever the dimensions of a type, the first one written becomes the outermost array. */
  lemma {:induction false} FirstDimensionIsOutermost(order: seq<Factory>, base: string, dims: seq<string>)
    requires DynamicArrayFactory in order && StaticArrayFactory in order
    requires NoBrackets(base) && forall d | d in dims :: NoBrackets(d)
    ensures Resolve(order, base + DimensionsText(dims)) == Nest(Resolve(order, base), ParseDimensions(dims))
    decreases |dims|
  {
    hide ParseDimension, NoBrackets, Supports, FirstSupporting, IndexOf;
    if dims == [] {
      assert base + DimensionsText(dims) == base;
    } else {
      assert dims[0] in dims && forall d | d in dims[1..] :: d in dims;
      var rest := DimensionsText(dims[1..]);
      assert base + DimensionsText(dims) == base + "[" + dims[0] + "]" + rest;
      FirstDimensionIsOutermost(order, base, dims[1..]);
      OneDimension(order, base, dims[0], rest);
    }
  }

  /** A type with at least one dimension is an array of what is left without the first one. */
  lemma OneDimension(order: seq<Factory>, base: string, d: string, rest: string)
    requires DynamicArrayFactory in order && StaticArrayFactory in order && NoBrackets(base) && NoBrackets(d)
    ensures var t, component := base + "[" + d + "]" + rest, Resolve(order, base + rest);
            Resolve(order, t) ==
            match ParseDimension(d)
            case Open => if component.None? then None else Some(DynamicArrayConverter(component.value))
            case Sized(count) => if component.None? then None else Some(StaticArrayConverter(component.value, count))
            case NoSize => None
  {
    hide FirstSize, FirstDynamic, StaticComponent, DynamicComponent, FirstSupporting, IndexOf, ParseInt,
      SizesBehind, SizeBehind, BytesLength, NoBrackets;
    var t := base + "[" + d + "]" + rest;
    FirstRead(base, d, rest);
    match ParseDimension(d)
    case Open => FirstIsOnly(order, t, DynamicArrayFactory);
    case Sized(_) => FirstIsOnly(order, t, StaticArrayFactory);
    case NoSize =>
      var f := FirstSupporting(order, t);
      assert t[|base|] == '[';
      if f.Some? && !ForArrays(f.value) {
        NoBracket(f.value, t);
      }
  }

  /**
   What the array factories read in a type: whether the first dimension is open, its size, and what is left
   without it.
   */
  lemma FirstRead(base: string, d: string, rest: string)
    requires NoBrackets(base) && NoBrackets(d)
    ensures var t := base + "[" + d + "]" + rest;
            && FirstDynamic(t) == (if d == "" then Yes else No)
            && FirstSize(t) == (if ParseDimension(d).Sized? then Some(ParseDimension(d).count) else None)
            && (FirstDynamic(t) == Yes ==> DynamicComponent(t) == base + rest)
            && (FirstSize(t).Some? ==> StaticComponent(t) == base + rest)
  {
    hide ParseInt, IndexOf;
    var t := base + "[" + d + "]" + rest;
    Brackets(base, d, rest);
    assert t[|base| + 1..|base| + 1 + |d|] == d;
    assert t[..|base|] == base && t[|base| + |d| + 2..] == rest;
    if d != "" {
      assert t[|base| + 1] == d[0];
      assert d[0] in d;
    }
  }

  lemma Brackets(base: string, size: string, rest: string)
    requires NoBrackets(base) && NoBrackets(size)
    ensures var t := base + "[" + size + "]" + rest;
            IndexOf(t, '[') == |base| && IndexOf(t, ']') == |base| + |size| + 1
  {
    hide IndexOf;
    BracketAt(base, "[", size + "]" + rest);
    BracketAt(base + "[" + size, "]", rest);
    assert base + "[" + size + "]" + rest == base + "[" + (size + "]" + rest);
  }

  lemma {:induction false} NestsSomethingIff(base: Option<Converter>, dims: seq<Dimension>)
    ensures Nest(base, dims).Some? <==> base.Some? && NoSize !in dims
  {
    if dims != [] {
      NestsSomethingIff(base, dims[1..]);
      assert forall d :: d in dims <==> d == dims[0] || d in dims[1..];
    }
  }

  /** Two arrays of arrays over the same base are the same only if their dimensions are. */
  lemma {:induction false} NestIsInjective(base: Converter, dims: seq<Dimension>, other: seq<Dimension>)
    requires |dims| == |other| && NoSize !in dims && NoSize !in other
    requires Nest(Some(base), dims) == Nest(Some(base), other)
    ensures dims == other
  {
    if dims != [] {
      NestsSomethingIff(Some(base), dims);
      assert NoSize !in dims[1..] && NoSize !in other[1..] && dims[0] != NoSize && other[0] != NoSize by {
        assert forall d | d in dims[1..] :: d in dims;
        assert forall d | d in other[1..] :: d in other;
        assert dims[0] in dims && other[0] in other;
      }
      NestsSomethingIff(Some(base), dims[1..]);
      NestsSomethingIff(Some(base), other[1..]);
      NestIsInjective(base, dims[1..], other[1..]);
      assert dims == [dims[0]] + dims[1..] && other == [other[0]] + other[1..];
    }
  }

  /**
   In Solidity the last dimension written is the outermost. A type is read as Solidity reads it exactly if its
   dimensions are the same forwards and backwards, or if it is refused both ways.
   */
  lemma ReadsAsSolidityIff(order: seq<Factory>, base: string, dims: seq<string>)
    requires DynamicArrayFactory in order && StaticArrayFactory in order
    requires NoBrackets(base) && forall d | d in dims :: NoBrackets(d)
    ensures var parsed := ParseDimensions(dims);
            Resolve(order, base + DimensionsText(dims)) == Nest(Resolve(order, base), Reverse(parsed)) <==>
            parsed == Reverse(parsed) || Resolve(order, base).None? || NoSize in parsed
  {
    hide Resolve, ParseDimension, NoBrackets, DimensionsText, Nest;
    var parsed, c := ParseDimensions(dims), Resolve(order, base);
    var reversed := Reverse(parsed);
    assert NoSize in reversed <==> NoSize in parsed by {
      ReverseHas(parsed, NoSize);
    }
    FirstDimensionIsOutermost(order, base, dims);
    NestsSomethingIff(c, parsed);
    NestsSomethingIff(c, reversed);
    if c.Some? && NoSize !in parsed && Nest(c, parsed) == Nest(c, reversed) {
      NestIsInjective(c.value, parsed, reversed);
    }
  }

  lemma BracketAt(before: string, bracket: string, after: string)
    requires |bracket| == 1 && bracket[0] !in before
    ensures IndexOf(before + bracket + after, bracket[0]) == |before|
  {
    var s := before + bracket + after;
    var i := IndexOf(s, bracket[0]);
    assert s[|before|] == bracket[0];
    forall k | 0 <= k < |before| ensures s[k] != bracket[0] {
      assert s[k] == before[k];
    }
    forall k | 0 <= k < i ensures s[k] != bracket[0] {
      assert s[..i][k] == s[k];
    }
  }

  // ------------------------------------------------------------------ the manager

  /** The manager with its cache of converters, which always agrees with resolving afresh. */
  class TypeConverterManager {
    const factories: seq<Factory>
    var typeConverters: map<string, Converter>

    ghost predicate Valid()
      reads this
    {
      forall t | t in typeConverters :: Resolve(factories, t) == Some(typeConverters[t])
    }

    constructor (factories: seq<Factory>)
      ensures Valid() && this.factories == factories && typeConverters == map[]
    {
      this.factories, typeConverters := factories, map[];
    }

    method GetTypeConverter(t: string) returns (converter: Option<Converter>)
      requires Valid()
      modifies `typeConverters
      ensures Valid() && converter == Resolve(factories, t)
      ensures converter.Some? ==> t in typeConverters
      ensures forall u | u in old(typeConverters) :: u in typeConverters && typeConverters[u] == old(typeConverters)[u]
      decreases |t|, 2
    {
      if t in typeConverters {
        return Some(typeConverters[t]);
      }
      converter := NewTypeConverter(t);
      if converter.Some? {
        typeConverters := typeConverters[t := converter.value];
      }
    }

    /** Asks the factories in turn. */
    method NewTypeConverter(t: string) returns (converter: Option<Converter>)
      requires Valid()
      modifies `typeConverters
      ensures Valid() && converter == Resolve(factories, t)
      ensures forall u | u in old(typeConverters) :: u in typeConverters && typeConverters[u] == old(typeConverters)[u]
      decreases |t|, 1
    {
      hide Supports, Make;
      var i := 0;
      while i < |factories|
        invariant i <= |factories| && FirstSupporting(factories[i..], t) == FirstSupporting(factories, t)
        invariant typeConverters == old(typeConverters)
      {
        assert factories[i..][0] == factories[i] && factories[i..][1..] == factories[i + 1..];
        match Supports(factories[i], t) {
          case Yes =>
            converter := Create(factories[i], t);
            return;
          case Throws =>
            return None;
          case No =>
        }
        i := i + 1;
      }
      return None;
    }

    /** What one factory makes of a type it supports. */
    method Create(f: Factory, t: string) returns (converter: Option<Converter>)
      requires Valid() && Supports(f, t) == Yes
      modifies `typeConverters
      ensures Valid() && converter == Make(factories, f, t)
      ensures forall u | u in old(typeConverters) :: u in typeConverters && typeConverters[u] == old(typeConverters)[u]
      decreases |t|, 0
    {
      hide Resolve;
      match f {
        case DynamicArrayFactory =>
          var component := GetTypeConverter(DynamicComponent(t));
          converter := if component.None? then None else Some(DynamicArrayConverter(component.value));
        case StaticArrayFactory =>
          var component := GetTypeConverter(StaticComponent(t));
          converter := if component.None? then None
              else Some(StaticArrayConverter(component.value, FirstSize(t).value));
        case _ =>
          converter := Make(factories, f, t);
      }
    }
  }
}
