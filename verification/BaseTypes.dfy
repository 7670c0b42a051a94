/**
 Which texts name which base types: what the factories and their parsing of sizes come to, all in all.
 */
module BaseTypes {
  import opened Options
  import opened Text
  import opened TypeResolution

  // ------------------------------------------------------------------ numerals

  function DigitOf(d: nat): char
    requires d < 10
  {
    '0' + d as char
  }

  function Decimal(n: nat): string {
    if n < 10 then [DigitOf(n)] else Decimal(n / 10) + [DigitOf(n % 10)]
  }

  function Copies(c: char, k: nat): string {
    seq(k, i => c)
  }

  /** The text is a number in decimal, possibly with zeros in front. */
  ghost predicate Numeral(s: string, n: nat) {
    exists k: nat :: s == Copies('0', k) + Decimal(n)
  }

  predicate Digits(s: string) {
    forall c | c in s :: Digit(c)
  }

  lemma {:induction false} ZerosCount(k: nat, s: string)
    requires Digits(s)
    ensures Digits(Copies('0', k) + s) && Value(Copies('0', k) + s) == Value(s)
    decreases |s| + k
  {
    var t := Copies('0', k) + s;
    if s != "" {
      ZerosCount(k, s[..|s| - 1]);
      assert t[..|t| - 1] == Copies('0', k) + s[..|s| - 1];
    } else if k > 0 {
      ZerosCount(k - 1, "");
      assert t[..k - 1] == Copies('0', k - 1) + "";
    }
  }

  lemma {:induction false} DecimalCounts(n: nat)
    ensures Decimal(n) != "" && Digits(Decimal(n)) && Value(Decimal(n)) == n
  {
    if 10 <= n {
      DecimalCounts(n / 10);
      var s := Decimal(n);
      assert s[..|s| - 1] == Decimal(n / 10);
    } else {
      assert [DigitOf(n)][..0] == "";
    }
  }

  lemma {:induction false} DigitsAreNumeral(s: string)
    requires s != "" && Digits(s)
    ensures Numeral(s, Value(s))
    decreases |s|
  {
    hide Numeral, Decimal;
    var r, c := s[..|s| - 1], s[|s| - 1];
    assert Digit(c) && s == r + [c];
    if r == "" {
      OneDigit(c);
    } else {
      DigitsAreNumeral(r);
      MoreDigits(r, Value(r), c);
    }
  }

  lemma OneDigit(c: char)
    requires Digit(c)
    ensures Digits([c]) && Value([c]) == c as int - '0' as int && Numeral([c], c as int - '0' as int)
  {
    var d := c as int - '0' as int;
    assert [c][..0] == "";
    assert [c] == Copies('0', 0) + Decimal(d);
  }

  lemma MoreDigits(r: string, n: nat, c: char)
    requires Numeral(r, n) && Digit(c)
    ensures Numeral(r + [c], 10 * n + (c as int - '0' as int))
  {
    var d := c as int - '0' as int;
    var k: nat :| r == Copies('0', k) + Decimal(n);
    assert DigitOf(d) == c;
    if n == 0 {
      assert r + [c] == Copies('0', k + 1) + Decimal(d);
    } else {
      assert (10 * n + d) / 10 == n && (10 * n + d) % 10 == d;
      assert r + [c] == Copies('0', k) + Decimal(10 * n + d);
    }
  }

  /** A numeral of a number is a text of digits that has this value. */
  lemma NumeralIff(s: string, n: nat)
    ensures Numeral(s, n) <==> s != "" && Digits(s) && Value(s) == n
  {
    if k: nat :| s == Copies('0', k) + Decimal(n) {
      DecimalCounts(n);
      ZerosCount(k, Decimal(n));
    }
    if s != "" && Digits(s) {
      DigitsAreNumeral(s);
    }
  }

  lemma NumeralHasNoX(s: string, n: nat)
    requires Numeral(s, n)
    ensures s != "" && 'x' !in s && s[0] != '+' && s[0] != '-'
  {
    NumeralIff(s, n);
    assert s[0] in s;
  }

  // ------------------------------------------------------------------ sizes

  lemma UnsignedIff(s: string, n: nat)
    requires s != "" && s[0] != '+' && n < 0x8000_0000
    ensures ParseUnsignedInt(s) == Some(n) <==> Numeral(s, n)
  {
    NumeralIff(s, n);
  }

  lemma SignedIff(s: string, n: nat)
    requires (s == "" || s[0] != '+') && 0 < n < 0x8000_0000
    ensures ParseInt(s) == Some(n) <==> Numeral(s, n)
  {
    NumeralIff(s, n);
    if s != "" && s[0] == '-' {
      assert s[0] in s;
    }
  }

  /** The size behind a prefix: none stands for 256, and otherwise the numeral of a size divisible by eight. */
  lemma SizeBehindIff(prefix: string, t: string, n: nat)
    ensures SizeBehind(prefix, t) == Some(n) <==>
              prefix <= t &&
              var s := t[|prefix|..];
              (s == "" && n == 256) || (Numeral(s, n) && 8 <= n <= 256 && n % 8 == 0)
  {
    hide ParseUnsignedInt, Numeral;
    if prefix <= t {
      var s := t[|prefix|..];
      if Numeral(s, n) {
        NumeralHasNoX(s, n);
      }
      if s != "" && s[0] != '+' && n < 0x8000_0000 {
        UnsignedIff(s, n);
      }
    }
  }

  lemma BytesLengthIff(t: string, n: nat)
    ensures BytesLength(t) == Some(n) <==> "bytes" <= t && Numeral(t[5..], n) && n <= 32
  {
    hide ParseUnsignedInt, Numeral;
    if "bytes" <= t {
      var s := t[5..];
      if Numeral(s, n) {
        NumeralHasNoX(s, n);
      }
      if s != "" && s[0] != '+' && n < 0x8000_0000 {
        UnsignedIff(s, n);
      }
    }
  }

  lemma PartSizeIff(s: string, n: nat)
    ensures PartSize(s) == Some(n) <==> Numeral(s, n) && 8 <= n <= 256 && n % 8 == 0
  {
    hide ParseInt, Numeral;
    if Numeral(s, n) {
      NumeralHasNoX(s, n);
    }
    if (s == "" || s[0] != '+') && 0 < n < 0x8000_0000 {
      SignedIff(s, n);
    }
  }

  // ------------------------------------------------------------------ two sizes

  lemma {:induction false} OnlyXs(k: nat)
    ensures SplitAtX(Copies('x', k)) == []
  {
    var s := Copies('x', k);
    if k > 0 {
      OnlyXs(k - 1);
      assert s[0] == 'x' && s[1..] == Copies('x', k - 1);
      assert IndexOf(s, 'x') == 0;
    }
  }

  lemma {:induction false} NoParts(s: string)
    requires SplitAtX(s) == []
    ensures s == Copies('x', |s|)
    decreases |s|
  {
    if s != "" {
      assert IndexOf(s, 'x') == 0;
      NoParts(s[1..]);
      assert s == [s[0]] + s[1..];
    }
  }

  lemma IndexBehind(a: string, rest: string)
    requires 'x' !in a
    ensures IndexOf(a + "x" + rest, 'x') == |a| && (a + "x" + rest)[..|a|] == a && (a + "x" + rest)[|a| + 1..] == rest
  {
    var s := a + "x" + rest;
    var i := IndexOf(s, 'x');
    assert s[|a|] == 'x' && forall k | 0 <= k < |a| :: s[k] == a[k];
    assert forall k | 0 <= k < i :: s[..i][k] == s[k];
  }

  lemma SplitText(s: string, i: nat)
    requires i < |s| && s[i] == 'x'
    ensures s == s[..i] + "x" + s[i + 1..]
  {
  }

  lemma SplitStep(s: string)
    requires 'x' in s
    ensures var i := IndexOf(s, 'x');
            && i < |s| && s[i] == 'x'
            && var rest := SplitAtX(s[i + 1..]);
               SplitAtX(s) == if rest == [] && i == 0 then [] else [s[..i]] + rest
  {
    hide SplitAtX;
    SplitUnfolds(s, IndexOf(s, 'x'));
  }

  lemma SplitUnfolds(s: string, i: nat)
    requires i == IndexOf(s, 'x') < |s|
    ensures var rest := SplitAtX(s[i + 1..]); SplitAtX(s) == if rest == [] && i == 0 then [] else [s[..i]] + rest
  {
    hide IndexOf;
  }

  lemma NoSplit(s: string)
    requires 'x' !in s && s != ""
    ensures SplitAtX(s) == [s]
  {
  }

  /** One part: nothing but x may follow it. */
  lemma OnePartIff(s: string, b: string)
    requires b != "" && 'x' !in b
    ensures SplitAtX(s) == [b] <==> exists k: nat :: s == b + Copies('x', k)
  {
    hide IndexOf, SplitAtX;
    if k: nat :| s == b + Copies('x', k) {
      PartAndXs(b, k);
    }
    if SplitAtX(s) == [b] {
      if 'x' in s {
        OnlyPart(s, b);
      } else {
        SplitOfNothing();
        NoSplit(s);
        assert s == b + Copies('x', 0);
      }
    }
  }

  lemma SplitOfNothing()
    ensures SplitAtX("") == []
  {
  }

  lemma PartAndXs(b: string, k: nat)
    requires b != "" && 'x' !in b
    ensures SplitAtX(b + Copies('x', k)) == [b]
  {
    hide IndexOf, SplitAtX;
    var s := b + Copies('x', k);
    if k == 0 {
      assert s == b;
      NoSplit(b);
    } else {
      OnlyXs(k - 1);
      assert s == b + "x" + Copies('x', k - 1);
      IndexBehind(b, Copies('x', k - 1));
      assert 'x' in "x";
      SplitStep(s);
    }
  }

  lemma OnlyPart(s: string, b: string)
    requires b != "" && 'x' in s && SplitAtX(s) == [b]
    ensures exists k: nat :: s == b + Copies('x', k)
  {
    hide IndexOf, SplitAtX;
    SplitStep(s);
    var i := IndexOf(s, 'x');
    var rest := s[i + 1..];
    assert |SplitAtX(rest)| == 0;
    NoParts(rest);
    SplitText(s, i);
    assert [s[..i]] == [b];
    assert s == b + Copies('x', |rest| + 1);
  }

  lemma TwoPartsIff(s: string, a: string, b: string)
    requires a != "" && 'x' !in a && b != "" && 'x' !in b
    ensures SplitAtX(s) == [a, b] <==> exists k: nat :: s == a + "x" + b + Copies('x', k)
  {
    hide SplitAtX;
    if k: nat :| s == a + "x" + b + Copies('x', k) {
      TwoPartsAndXs(s, a, b, k);
    }
    if SplitAtX(s) == [a, b] {
      OnlyTwoParts(s, a, b);
    }
  }

  lemma Regroup(a: string, b: string, k: nat)
    ensures a + "x" + b + Copies('x', k) == a + "x" + (b + Copies('x', k))
  {
  }

  lemma TwoPartsAndXs(s: string, a: string, b: string, k: nat)
    requires a != "" && 'x' !in a && b != "" && 'x' !in b && s == a + "x" + b + Copies('x', k)
    ensures SplitAtX(s) == [a, b]
  {
    hide SplitAtX, IndexOf;
    var rest := b + Copies('x', k);
    Regroup(a, b, k);
    IndexBehind(a, rest);
    assert 'x' in "x";
    SplitStep(s);
    PartAndXs(b, k);
    assert [a] + [b] == [a, b];
  }

  lemma OnlyTwoParts(s: string, a: string, b: string)
    requires b != "" && 'x' !in b && SplitAtX(s) == [a, b]
    ensures exists k: nat :: s == a + "x" + b + Copies('x', k)
  {
    hide SplitAtX, IndexOf;
    SplitsAtX(s);
    SplitStep(s);
    var i := IndexOf(s, 'x');
    var rest := s[i + 1..];
    SplitText(s, i);
    assert ([s[..i]] + SplitAtX(rest))[0] == s[..i] && ([s[..i]] + SplitAtX(rest))[1..] == SplitAtX(rest);
    assert [a, b][0] == a && [a, b][1..] == [b];
    OnePartIff(rest, b);
    var k: nat :| rest == b + Copies('x', k);
    Regroup(a, b, k);
  }

  lemma SplitsAtX(s: string)
    requires 2 <= |SplitAtX(s)|
    ensures 'x' in s
  {
  }

  /** Two sizes, with an x between them and any number of x behind. */
  ghost predicate Sizes(s: string, m: nat, n: nat) {
    exists a, b, k: nat :: s == a + "x" + b + Copies('x', k) && Numeral(a, m) && Numeral(b, n)
  }

  lemma SizesBehindIff(prefix: string, t: string, m: nat, n: nat)
    ensures SizesBehind(prefix, t) == Some((m, n)) <==>
              prefix <= t &&
              var s := t[|prefix|..];
              (s == "" && m == 128 && n == 128) || (Sizes(s, m, n) && BitSize(m) && BitSize(n))
  {
    hide SplitAtX, PartSize, Numeral;
    if prefix <= t && t[|prefix|..] != "" {
      var s := t[|prefix|..];
      if SizesBehind(prefix, t) == Some((m, n)) {
        var parts := SplitAtX(s);
        PartSizeIff(parts[0], m);
        PartSizeIff(parts[1], n);
        NumeralHasNoX(parts[0], m);
        NumeralHasNoX(parts[1], n);
        TwoPartsIff(s, parts[0], parts[1]);
        assert parts == [parts[0], parts[1]];
      }
      if Sizes(s, m, n) && BitSize(m) && BitSize(n) {
        var a, b, k: nat :| s == a + "x" + b + Copies('x', k) && Numeral(a, m) && Numeral(b, n);
        NumeralHasNoX(a, m);
        NumeralHasNoX(b, n);
        TwoPartsIff(s, a, b);
        PartSizeIff(a, m);
        PartSizeIff(b, n);
      }
    }
    if prefix <= t && t[|prefix|..] == "" {
      NothingHasSizes(m, n);
    }
  }

  lemma NothingHasSizes(m: nat, n: nat)
    ensures !Sizes("", m, n)
  {
    hide Numeral;
  }

  // ------------------------------------------------------------------ base types

  /** The text names the base type. */
  ghost predicate Names(t: string, c: Converter) {
    match c
    case AddressConverter => t == "address"
    case BoolConverter => t == "bool"
    case StringConverter => t == "string"
    case DynamicBytesConverter => t == "bytes"
    case StaticBytesConverter(n) => "bytes" <= t && Numeral(t[5..], n) && 1 <= n <= 32
    case UIntConverter(n) => NamesNumber("uint", t, n) || NamesNumber("int", t, n)
    case FixedConverter(m, n) => NamesDecimal("fixed", t, m, n)
    case UFixedConverter(m, n) => NamesDecimal("ufixed", t, m, n)
    case _ => false
  }

  ghost predicate NamesNumber(prefix: string, t: string, n: nat) {
    prefix <= t &&
    var s := t[|prefix|..];
    (s == "" && n == 256) || (Numeral(s, n) && 8 <= n <= 256 && n % 8 == 0)
  }

  ghost predicate NamesDecimal(prefix: string, t: string, m: nat, n: nat) {
    prefix <= t && m + n <= 256 &&
    var s := t[|prefix|..];
    (s == "" && m == 128 && n == 128) || (Sizes(s, m, n) && BitSize(m) && BitSize(n))
  }

  /** What a factory that is not for arrays makes of a text. */
  function Made(f: Factory, t: string): Option<Converter> {
    if ForArrays(f) || Supports(f, t) != Yes then None else Make([], f, t)
  }

  lemma MakeAlone(order: seq<Factory>, f: Factory, t: string)
    requires Supports(f, t) == Yes && !ForArrays(f)
    ensures Make(order, f, t) == Made(f, t)
  {
    hide SizeBehind, SizesBehind, BytesLength;
  }

  /** Each converter is made by its own factory, or its own two. */
  predicate MakerOf(f: Factory, c: Converter) {
    match c
    case AddressConverter => f.AddressFactory?
    case BoolConverter => f.BoolFactory?
    case StringConverter => f.StringFactory?
    case DynamicBytesConverter => f.DynamicBytesFactory?
    case StaticBytesConverter(_) => f.StaticBytesFactory?
    case UIntConverter(_) => f.UIntFactory? || f.IntFactory?
    case FixedConverter(_, _) => f.FixedFactory?
    case UFixedConverter(_, _) => f.UFixedFactory?
    case _ => false
  }

  lemma MadeNames(f: Factory, t: string, c: Converter)
    ensures Made(f, t) == Some(c) ==> MakerOf(f, c) && Names(t, c)
  {
    hide SizeBehind, SizesBehind, BytesLength, Numeral, Sizes;
    if Made(f, t) == Some(c) {
      match f
      case IntFactory => SizeBehindIff("int", t, c.size);
      case UIntFactory => SizeBehindIff("uint", t, c.size);
      case StaticBytesFactory => BytesLengthIff(t, c.length);
      case FixedFactory =>
        var (m, n) := SizesBehind("fixed", t).value;
        SizesBehindIff("fixed", t, m, n);
      case UFixedFactory =>
        var (m, n) := SizesBehind("ufixed", t).value;
        SizesBehindIff("ufixed", t, m, n);
      case _ =>
    }
  }

  lemma NamedIsMade(t: string, c: Converter) returns (f: Factory)
    requires Names(t, c)
    ensures f in FACTORIES && Made(f, t) == Some(c)
  {
    hide SizeBehind, SizesBehind, BytesLength, Numeral, Sizes;
    match c
    case AddressConverter => f := AddressFactory;
    case BoolConverter => f := BoolFactory;
    case StringConverter => f := StringFactory;
    case DynamicBytesConverter => f := DynamicBytesFactory;
    case StaticBytesConverter(n) =>
      f := StaticBytesFactory;
      BytesLengthIff(t, n);
    case UIntConverter(n) =>
      f := if NamesNumber("uint", t, n) then UIntFactory else IntFactory;
      SizeBehindIff("uint", t, n);
      SizeBehindIff("int", t, n);
    case FixedConverter(m, n) =>
      f := FixedFactory;
      SizesBehindIff("fixed", t, m, n);
    case UFixedConverter(m, n) =>
      f := UFixedFactory;
      SizesBehindIff("ufixed", t, m, n);
  }

  /**
   A text without brackets gives a converter exactly if it names its base type: with all factories there, in any
   order, a text that names none is refused.
   */
  lemma BaseTypeIff(order: seq<Factory>, t: string, c: Converter)
    requires (forall f | f in FACTORIES :: f in order) && '[' !in t
    ensures Resolve(order, t) == Some(c) <==> Names(t, c)
  {
    hide Supports, Names, Make, Made, FirstSupporting, FACTORIES, ForArrays;
    if Names(t, c) {
      var f := NamedIsMade(t, c);
      MadeIsSupported(f, t);
      FirstIsOnly(order, t, f);
      MakeAlone(order, f, t);
    }
    if Resolve(order, t) == Some(c) {
      var f := FirstSupporting(order, t).value;
      NoArrays(f, t);
      MakeAlone(order, f, t);
      MadeNames(f, t, c);
    }
  }

  lemma MadeIsSupported(f: Factory, t: string)
    requires Made(f, t).Some?
    ensures Supports(f, t) == Yes && !ForArrays(f)
  {
  }

  lemma NoArrays(f: Factory, t: string)
    requires Supports(f, t) == Yes && '[' !in t
    ensures !ForArrays(f)
  {
  }

  // ------------------------------------------------------------------ dimensions

  /** A dimension is open, or a number from one on with an optional sign, or no size. */
  lemma DimensionIff(d: string, n: nat)
    ensures ParseDimension(d) == Open <==> d == ""
    ensures ParseDimension(d) == Sized(n) <==>
              0 < n < 0x8000_0000 && (Numeral(d, n) || (d != "" && d[0] == '+' && Numeral(d[1..], n)))
  {
    hide Numeral, Value;
    NumeralIff(d, n);
    if d != "" {
      NumeralIff(d[1..], n);
      assert d[0] in d;
    }
  }

  // ------------------------------------------------------------------ examples

  lemma DecimalIsNumeral(n: nat)
    ensures Numeral(Decimal(n), n)
  {
    assert Decimal(n) == Copies('0', 0) + Decimal(n);
  }

  /** A number of bits behind "uint", written in decimal. */
  lemma UIntOf(order: seq<Factory>, n: nat)
    requires forall f | f in FACTORIES :: f in order
    ensures Resolve(order, "uint" + Decimal(n)) ==
            if 8 <= n <= 256 && n % 8 == 0 then Some(UIntConverter(n)) else None
  {
    hide Numeral, Resolve, FACTORIES, Decimal;
    var t := "uint" + Decimal(n);
    DecimalIsNumeral(n);
    DecimalCounts(n);
    assert t[4..] == Decimal(n);
    forall c | c in t ensures c != '[' {
      assert c in "uint" || c in Decimal(n);
    }
    if Resolve(order, t).Some? {
      BaseTypeIff(order, t, Resolve(order, t).value);
      UIntOnly(t, Resolve(order, t).value);
      NumeralIff(Decimal(n), n);
      NumeralIff(Decimal(n), Resolve(order, t).value.size);
    }
    if 8 <= n <= 256 && n % 8 == 0 {
      BaseTypeIff(order, t, UIntConverter(n));
    }
  }

  lemma UIntOnly(t: string, c: Converter)
    requires "uint" <= t && Names(t, c)
    ensures c.UIntConverter? && NamesNumber("uint", t, c.size)
  {
    hide Numeral, Sizes;
    assert t[0] == 'u' && t[1] == 'i';
  }
}
