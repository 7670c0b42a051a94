/**
 Bytes as hexadecimal text.
 */
module Hex {
  import opened Options
  import opened Words

  const DIGITS := "0123456789abcdef"

  function ByteText(b: byte): string {
    [DIGITS[b / 16], DIGITS[b % 16]]
  }

  function ToHex(s: Bytes): (r: string)
    ensures |r| == 2 * |s|
  {
    if s == [] then "" else ByteText(s[0]) + ToHex(s[1..])
  }

  function Digit(c: char): (r: Option<int>)
    ensures r.Some? ==> 0 <= r.value < 16
  {
    if '0' <= c <= '9' then Some(c as int - '0' as int)
    else if 'a' <= c <= 'f' then Some(c as int - 'a' as int + 10)
    else if 'A' <= c <= 'F' then Some(c as int - 'A' as int + 10)
    else None
  }

  /** Two characters as a number in base 16, cast to a byte; the first may be a sign. */
  function ParseByte(a: char, b: char): Option<byte> {
    if Digit(b).None? then None
    else if Digit(a).Some? then Some(16 * Digit(a).value + Digit(b).value)
    else if a == '+' then Some(Digit(b).value)
    else if a == '-' then Some((256 - Digit(b).value) % 256)
    else None
  }

  /** The bytes in a text, two characters each; an odd last character is ignored. */
  function FromHex(s: string): Option<Bytes>
    decreases |s|
  {
    if |s| < 2 then Some([])
    else
      var first := ParseByte(s[0], s[1]);
      var rest := FromHex(s[2..]);
      if first.None? || rest.None? then None else Some([first.value] + rest.value)
  }

  lemma ByteBack(b: byte)
    ensures ParseByte(ByteText(b)[0], ByteText(b)[1]) == Some(b)
  {
    DigitBack(b / 16);
    DigitBack(b % 16);
  }

  lemma DigitBack(d: int)
    requires 0 <= d < 16
    ensures Digit(DIGITS[d]) == Some(d)
  {
  }

  lemma FromHexStep(s: string)
    requires 2 <= |s|
    ensures FromHex(s) ==
            if ParseByte(s[0], s[1]).None? || FromHex(s[2..]).None? then None
            else Some([ParseByte(s[0], s[1]).value] + FromHex(s[2..]).value)
  {
  }

  /** Text written for bytes reads back as those bytes. */
  lemma {:induction false} HexBack(s: Bytes)
    ensures FromHex(ToHex(s)) == Some(s)
  {
    if s != [] {
      hide ParseByte;
      var text, rest := ToHex(s), ToHex(s[1..]);
      assert text == ByteText(s[0]) + rest;
      assert text[0] == ByteText(s[0])[0] && text[1] == ByteText(s[0])[1] && text[2..] == rest;
      ByteBack(s[0]);
      HexBack(s[1..]);
      FromHexStep(text);
      assert [s[0]] + s[1..] == s;
    }
  }

  lemma ToHexFirst(s: Bytes)
    requires s != []
    ensures ToHex(s) == ByteText(s[0]) + ToHex(s[1..])
  {
  }

  lemma {:induction false} ToHexAppend(s: Bytes, t: Bytes)
    ensures ToHex(s + t) == ToHex(s) + ToHex(t)
    decreases |s|
  {
    hide ByteText;
    if s == [] {
      assert s + t == t;
    } else {
      ToHexAppend(s[1..], t);
      assert (s + t)[0] == s[0] && (s + t)[1..] == s[1..] + t;
      ToHexFirst(s + t);
      ToHexFirst(s);
      assert ByteText(s[0]) + ToHex(s[1..]) + ToHex(t) == ByteText(s[0]) + (ToHex(s[1..]) + ToHex(t));
    }
  }

  // ------------------------------------------------------------------ character by character

  /** The character is a digit of this value in base 16. */
  predicate Denotes(c: char, d: int) {
    || (0 <= d <= 9 && c as int == '0' as int + d)
    || (10 <= d <= 15 && (c as int == 'a' as int + d - 10 || c as int == 'A' as int + d - 10))
  }

  /** Each byte is written as its high half and then its low half, in lower case. */
  lemma {:induction false} HexAt(s: Bytes, i: nat)
    requires i < |s|
    ensures var text := ToHex(s);
            && Denotes(text[2 * i], s[i] / 16) && Denotes(text[2 * i + 1], s[i] % 16)
            && text[2 * i] !in "ABCDEF" && text[2 * i + 1] !in "ABCDEF"
    decreases i
  {
    if i == 0 {
      LowerCase(s[0] / 16);
      LowerCase(s[0] % 16);
    } else {
      HexAt(s[1..], i - 1);
    }
  }

  lemma LowerCase(d: int)
    requires 0 <= d < 16
    ensures Denotes(DIGITS[d], d) && DIGITS[d] !in "ABCDEF"
  {
  }

  /** Two characters denote a byte; a sign in front of a digit is read as one. */
  predicate Pair(a: char, b: char, x: byte) {
    exists low :: 0 <= low < 16 && Denotes(b, low) && PairWith(a, low, x)
  }

  predicate PairWith(a: char, low: int, x: byte) {
    || (exists high :: 0 <= high < 16 && Denotes(a, high) && x == 16 * high + low)
    || (a == '+' && x == low)
    || (a == '-' && x == (256 - low) % 256)
  }

  lemma DigitIff(c: char, d: int)
    ensures Digit(c) == Some(d) <==> Denotes(c, d)
  {
  }

  lemma PairIff(a: char, b: char, x: byte)
    ensures ParseByte(a, b) == Some(x) <==> Pair(a, b, x)
  {
    hide Digit, Denotes;
    forall d ensures (Digit(a) == Some(d) <==> Denotes(a, d)) && (Digit(b) == Some(d) <==> Denotes(b, d)) {
      DigitIff(a, d);
      DigitIff(b, d);
    }
    if ParseByte(a, b) == Some(x) {
      var low := Digit(b).value;
      assert Denotes(b, low);
      assert PairWith(a, low, x);
    }
    if low :| 0 <= low < 16 && Denotes(b, low) && PairWith(a, low, x) {
      SignIsNoDigit(a);
    }
  }

  lemma SignIsNoDigit(a: char)
    ensures a == '+' || a == '-' ==> Digit(a).None?
  {
  }

  /** A text is read into the bytes that its pairs of characters denote; an odd last character is ignored. */
  lemma {:induction false} FromHexIff(s: string, bytes: Bytes)
    ensures FromHex(s) == Some(bytes) <==>
              |bytes| == |s| / 2 && forall i | 0 <= i < |bytes| :: Pair(s[2 * i], s[2 * i + 1], bytes[i])
    decreases |s|
  {
    hide ParseByte, Pair;
    if 2 <= |s| {
      FromHexStep(s);
      forall x: byte ensures ParseByte(s[0], s[1]) == Some(x) <==> Pair(s[0], s[1], x) {
        PairIff(s[0], s[1], x);
      }
      if bytes != [] {
        FromHexIff(s[2..], bytes[1..]);
        assert bytes == [bytes[0]] + bytes[1..];
        if |bytes| == |s| / 2 {
          PairsShift(s, bytes);
        }
      }
    }
  }

  lemma PairsShift(s: string, bytes: Bytes)
    requires 2 <= |s| && bytes != [] && |bytes| == |s| / 2
    ensures (forall i | 0 <= i < |bytes| :: Pair(s[2 * i], s[2 * i + 1], bytes[i])) <==>
              && Pair(s[0], s[1], bytes[0])
              && forall i | 0 <= i < |bytes[1..]| :: Pair(s[2..][2 * i], s[2..][2 * i + 1], bytes[1..][i])
  {
    hide Pair;
    if forall i | 0 <= i < |bytes| :: Pair(s[2 * i], s[2 * i + 1], bytes[i]) {
      assert Pair(s[2 * 0], s[2 * 0 + 1], bytes[0]);
      forall i | 0 <= i < |bytes[1..]| ensures Pair(s[2..][2 * i], s[2..][2 * i + 1], bytes[1..][i]) {
        assert Pair(s[2 * (i + 1)], s[2 * (i + 1) + 1], bytes[i + 1]);
      }
    }
    if Pair(s[0], s[1], bytes[0])
       && forall i | 0 <= i < |bytes[1..]| :: Pair(s[2..][2 * i], s[2..][2 * i + 1], bytes[1..][i]) {
      forall i | 0 <= i < |bytes| ensures Pair(s[2 * i], s[2 * i + 1], bytes[i]) {
        if i > 0 {
          assert Pair(s[2..][2 * (i - 1)], s[2..][2 * (i - 1) + 1], bytes[1..][i - 1]);
        }
      }
    }
  }
}
