/**
 Bytes, big-endian two's complement, and the integers they stand for.
 */
module Words {
  type byte = b: int | 0 <= b < 256

  type Bytes = seq<byte>

  function Repeat(b: byte, n: nat): (r: Bytes)
    ensures |r| == n && forall i | 0 <= i < n :: r[i] == b
  {
    seq(n, i => b)
  }

  /** The size of a word of the encoding. */
  function WordBytes(): (n: nat)
    ensures n == 32
  {
    256 / 8
  }

  function Pow2(n: nat): (p: int)
    ensures 1 <= p
  {
    if n == 0 then 1 else 2 * Pow2(n - 1)
  }

  function Pow256(n: nat): (p: int)
    ensures 1 <= p
  {
    if n == 0 then 1 else 256 * Pow256(n - 1)
  }

  lemma {:induction false} Pow2Of8(n: nat)
    ensures Pow2(8 * n) == Pow256(n)
  {
    if n > 0 {
      Pow2Of8(n - 1);
      var m := 8 * n;
      assert Pow2(m) == 2 * Pow2(m - 1) == 4 * Pow2(m - 2) == 8 * Pow2(m - 3) == 16 * Pow2(m - 4);
      assert Pow2(m - 4) == 2 * Pow2(m - 5) == 4 * Pow2(m - 6) == 8 * Pow2(m - 7) == 16 * Pow2(m - 8);
    }
  }

  /** One bit less is half as much. */
  lemma Pow2Half(n: nat)
    requires 0 < n
    ensures Pow2(n) == 2 * Pow2(n - 1)
  {
  }

  lemma {:induction false} Pow2Grows(m: nat, n: nat)
    requires m <= n
    ensures Pow2(m) <= Pow2(n)
  {
    if m < n {
      Pow2Grows(m, n - 1);
    }
  }

  /** The length of a number in bits, its sign bit not counted. */
  function BitLength(v: int): nat
    decreases if v < 0 then -v else v, v < 0
  {
    if v < 0 then BitLength(-v - 1)
    else if v == 0 then 0
    else 1 + BitLength(v / 2)
  }

  lemma {:induction false} BitLengthIff(v: int, n: nat)
    ensures BitLength(v) <= n <==> -Pow2(n) <= v < Pow2(n)
    decreases if v < 0 then -v else v, v < 0
  {
    if v < 0 {
      BitLengthIff(-v - 1, n);
    } else if v > 0 && n > 0 {
      BitLengthIff(v / 2, n - 1);
    }
  }

  /** The n lowest bytes of v in two's complement, the highest byte first. */
  function TwosComplement(v: int, n: nat): (s: Bytes)
    ensures |s| == n
    decreases n
  {
    if n == 0 then [] else TwosComplement(v / 256, n - 1) + [v % 256]
  }

  function Unsigned(s: Bytes): nat {
    if s == [] then 0 else 256 * Unsigned(s[..|s| - 1]) + s[|s| - 1]
  }

  /** The number a byte array stands for when its top bit is the sign. */
  function Signed(s: Bytes): int {
    if s != [] && 128 <= s[0] then Unsigned(s) - Pow256(|s|) else Unsigned(s)
  }

  /** The shortest two's complement that still has a sign bit. */
  function ToByteArray(v: int): Bytes {
    TwosComplement(v, BitLength(v) / 8 + 1)
  }

  lemma {:induction false} UnsignedOf(v: int, n: nat)
    ensures 0 <= v < Pow256(n) ==> Unsigned(TwosComplement(v, n)) == v
    ensures -Pow256(n) <= v < 0 ==> Unsigned(TwosComplement(v, n)) == v + Pow256(n)
    decreases n
  {
    if n > 0 {
      var s := TwosComplement(v, n);
      assert s[..n - 1] == TwosComplement(v / 256, n - 1);
      UnsignedOf(v / 256, n - 1);
    }
  }

  lemma {:induction false} UnsignedBound(s: Bytes)
    ensures Unsigned(s) < Pow256(|s|)
  {
    if s != [] {
      UnsignedBound(s[..|s| - 1]);
    }
  }

  /** A byte array is determined by its length and its value. */
  lemma {:induction false} BytesOf(s: Bytes)
    ensures TwosComplement(Unsigned(s), |s|) == s
  {
    if s != [] {
      var u := Unsigned(s);
      assert u / 256 == Unsigned(s[..|s| - 1]) && u % 256 == s[|s| - 1];
      BytesOf(s[..|s| - 1]);
    }
  }

  lemma {:induction false} TopBit(s: Bytes)
    requires s != []
    ensures 128 <= s[0] <==> Pow256(|s|) <= 2 * Unsigned(s)
  {
    var rest := s[..|s| - 1];
    if rest == [] {
      assert Unsigned(s) == s[0];
      assert Pow256(1) == 256;
    } else {
      TopBit(rest);
      assert rest[0] == s[0];
    }
  }

  /** Reading a word back gives the number modulo 2^256, taken in the signed range. */
  lemma SignedOf(v: int, n: nat)
    requires 0 < n && -Pow256(n) <= 2 * v && v < Pow256(n)
    ensures Signed(TwosComplement(v, n)) == if 2 * v < Pow256(n) then v else v - Pow256(n)
  {
    UnsignedOf(v, n);
    TopBit(TwosComplement(v, n));
  }

  /** Extending with the sign byte does not change the number. */
  lemma {:induction false} SignExtend(v: int, n: nat, k: nat)
    requires -Pow256(n) <= v < Pow256(n)
    ensures TwosComplement(v, k + n) == Repeat(if v < 0 then 255 else 0, k) + TwosComplement(v, n)
    decreases n, k
  {
    var pad := if v < 0 then 255 else 0;
    if n == 0 {
      if k > 0 {
        SignExtend(v, 0, k - 1);
        assert v / 256 == v;
        assert Repeat(pad, k) == Repeat(pad, k - 1) + [pad];
      }
    } else {
      SignExtend(v / 256, n - 1, k);
      assert TwosComplement(v, k + n) == TwosComplement(v / 256, k + (n - 1)) + [v % 256];
    }
  }

  /** Leading zero bytes add nothing. */
  lemma {:induction false} LeadingZerosIgnored(s: Bytes, k: nat)
    requires k <= |s| && forall i | 0 <= i < k :: s[i] == 0
    ensures Unsigned(s[k..]) == Unsigned(s)
    decreases |s|
  {
    if k < |s| {
      var rest := s[..|s| - 1];
      LeadingZerosIgnored(rest, k);
      assert s[k..][..|s| - k - 1] == rest[k..];
    } else if s != [] {
      var rest := s[..|s| - 1];
      LeadingZerosIgnored(rest, k - 1);
      assert rest[k - 1..] == [] && s[k..] == [];
    }
  }

  /** The byte array of a number has room for it and for its sign. */
  lemma ToByteArrayFits(v: int)
    ensures var n := BitLength(v) / 8 + 1; -Pow256(n) <= 2 * v < Pow256(n)
  {
    var n := BitLength(v) / 8 + 1;
    BitLengthIff(v, 8 * n - 1);
    Pow2Of8(n);
    assert Pow2(8 * n) == 2 * Pow2(8 * n - 1);
  }

  /** The byte array without its leading zeros, padded to a word with zeros: the number's word. */
  lemma StrippedWord(v: int, offset: nat)
    requires 0 <= v < Pow256(WordBytes())
    requires offset < |ToByteArray(v)| && forall i | 0 <= i < offset :: ToByteArray(v)[i] == 0
    requires offset == |ToByteArray(v)| - 1 || ToByteArray(v)[offset] != 0
    ensures |ToByteArray(v)| - offset <= 32
    ensures Repeat(0, 32 - (|ToByteArray(v)| - offset)) + ToByteArray(v)[offset..] == TwosComplement(v, WordBytes())
  {
    var a := ToByteArray(v);
    var s := a[offset..];
    ToByteArrayFits(v);
    UnsignedOf(v, |a|);
    LeadingZerosIgnored(a, offset);
    assert Unsigned(s) == v;
    ShortEnough(s, WordBytes());
    BytesOf(s);
    UnsignedBound(s);
    SignExtend(v, |s|, 32 - |s|);
  }

  /** Without a leading zero a byte array is no longer than its value needs. */
  lemma {:induction false} ShortEnough(s: Bytes, n: nat)
    requires s != [] && (|s| == 1 || s[0] != 0) && 1 <= n && Unsigned(s) < Pow256(n)
    ensures |s| <= n
  {
    if |s| > 1 {
      var rest := s[..|s| - 1];
      assert Pow256(1) == 256;
      if n == 1 {
        LeadByte(rest);
      } else {
        ShortEnough(rest, n - 1);
      }
    }
  }

  lemma {:induction false} LeadByte(s: Bytes)
    requires s != [] && s[0] != 0
    ensures 1 <= Unsigned(s)
  {
    var rest := s[..|s| - 1];
    if rest == [] {
      assert Unsigned(s) == s[0];
    } else {
      LeadByte(rest);
    }
  }

  /** The byte array of a negative number starts with its sign, and padded with sign bytes is its word. */
  lemma NegativeWord(v: int)
    requires -Pow256(WordBytes()) <= 2 * v < 0
    ensures |ToByteArray(v)| <= 32 && 128 <= ToByteArray(v)[0]
    ensures Repeat(255, 32 - |ToByteArray(v)|) + ToByteArray(v) == TwosComplement(v, WordBytes())
  {
    hide Unsigned, BitLength, Pow2, Pow256;
    var n := |ToByteArray(v)|;
    NegativeIsShort(v);
    ToByteArrayFits(v);
    UnsignedOf(v, n);
    TopBit(ToByteArray(v));
    SignExtend(v, n, 32 - n);
  }

  lemma NegativeIsShort(v: int)
    requires -Pow256(WordBytes()) <= 2 * v < 0
    ensures BitLength(v) / 8 + 1 <= 32
  {
    hide BitLength, Pow256;
    var bits := 8 * WordBytes();
    Pow2Of8(WordBytes());
    assert Pow2(bits) == 2 * Pow2(bits - 1);
    BitLengthIff(v, bits - 1);
  }
}
