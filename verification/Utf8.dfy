/**
  Well-formed UTF-8, as the grammar in section 4 of RFC 3629 defines it, and where its characters begin.
 */
module Utf8 {
  import opened Bytes

  predicate IsTail(b: byte) {
    0x80 <= b <= 0xBF
  }

  predicate IsLeadOfThree(b0: byte, b1: byte) {
    || (b0 == 0xE0 && 0xA0 <= b1 <= 0xBF)
    || (0xE1 <= b0 <= 0xEC && IsTail(b1))
    || (b0 == 0xED && 0x80 <= b1 <= 0x9F)
    || (0xEE <= b0 <= 0xEF && IsTail(b1))
  }

  predicate IsLeadOfFour(b0: byte, b1: byte) {
    || (b0 == 0xF0 && 0x90 <= b1 <= 0xBF)
    || (0xF1 <= b0 <= 0xF3 && IsTail(b1))
    || (b0 == 0xF4 && 0x80 <= b1 <= 0x8F)
  }

  /** The number of bytes in the character that `s` begins with, or 0 if it does not begin with one. */
  function CharLen(s: seq<byte>): (n: nat)
    ensures n <= 4 && n <= |s|
  {
    if |s| >= 1 && s[0] <= 0x7F then 1
    else if |s| >= 2 && 0xC2 <= s[0] <= 0xDF && IsTail(s[1]) then 2
    else if |s| >= 3 && IsLeadOfThree(s[0], s[1]) && IsTail(s[2]) then 3
    else if |s| >= 4 && IsLeadOfFour(s[0], s[1]) && IsTail(s[2]) && IsTail(s[3]) then 4
    else 0
  }

  predicate ValidUtf8(s: seq<byte>) {
    s == [] || (CharLen(s) > 0 && ValidUtf8(s[CharLen(s)..]))
  }

  /** The test that `str::is_char_boundary` makes: it looks at one byte only. */
  predicate IsCharBoundary(s: seq<byte>, i: nat) {
    i == 0 || i == |s| || (i < |s| && !IsTail(s[i]))
  }

  /** A character is its lead byte and then only tail bytes, and no proper prefix of it is a character. */
  lemma CharShape(s: seq<byte>)
    requires CharLen(s) > 0
    ensures !IsTail(s[0])
    ensures forall i :: 0 < i < CharLen(s) ==> IsTail(s[i])
    ensures forall i: nat :: i <= |s| ==> CharLen(s[..i]) == if i < CharLen(s) then 0 else CharLen(s)
  {
  }

  /** In well-formed text the one-byte test finds exactly the places where a prefix is itself well-formed. */
  lemma {:induction false} BoundaryIffValidPrefix(s: seq<byte>, i: nat)
    requires ValidUtf8(s) && i <= |s|
    ensures IsCharBoundary(s, i) <==> ValidUtf8(s[..i])
  {
    hide CharLen, IsTail;
    if i > 0 {
      var n := CharLen(s);
      CharShape(s);
      if i >= n {
        BoundaryIffValidPrefix(s[n..], i - n);
        assert s[..i][n..] == s[n..][..i - n];
        if i == n {
          BoundaryAfterChar(s);
        }
      }
    }
  }

  lemma BoundaryAfterChar(s: seq<byte>)
    requires ValidUtf8(s) && s != []
    ensures IsCharBoundary(s, CharLen(s))
  {
    var rest := s[CharLen(s)..];
    if rest != [] {
      CharShape(rest);
    }
  }

  /** A boundary is never more than three bytes back. */
  lemma {:induction false} BoundaryWithinThree(s: seq<byte>, i: nat)
    requires ValidUtf8(s) && 3 <= i <= |s|
    ensures IsCharBoundary(s, i) || IsCharBoundary(s, i - 1) || IsCharBoundary(s, i - 2) || IsCharBoundary(s, i - 3)
  {
    var n := CharLen(s);
    CharShape(s);
    if i >= n + 3 {
      BoundaryWithinThree(s[n..], i - n);
      BoundaryAfterChar(s);
    } else {
      BoundaryAfterChar(s);
    }
  }

  // ---------- text as Unicode scalar values ----------

  /** A Unicode scalar value: a code point that is not a surrogate. */
  type Scalar = v: nat | v < 0xD800 || 0xE000 <= v <= 0x10FFFF

  /** The encoding of a scalar value in section 3 of RFC 3629, its six-bit groups as numbers. */
  function Encoding(v: Scalar): (s: seq<byte>)
    ensures 1 <= |s| <= 4
  {
    if v < 0x80 then [ToByte(v)]
    else if v < 0x800 then [ToByte(0xC0 + v / 64), ToByte(0x80 + v % 64)]
    else if v < 0x1_0000 then [ToByte(0xE0 + v / 4096), ToByte(0x80 + v / 64 % 64), ToByte(0x80 + v % 64)]
    else
      [ToByte(0xF0 + v / 262144), ToByte(0x80 + v / 4096 % 64), ToByte(0x80 + v / 64 % 64), ToByte(0x80 + v % 64)]
  }

  function EncodingAll(vs: seq<Scalar>): seq<byte> {
    if vs == [] then [] else Encoding(vs[0]) + EncodingAll(vs[1..])
  }

  // The grammar again, on the values of the bytes.

  predicate TailValue(n: nat) {
    0x80 <= n <= 0xBF
  }

  predicate LeadOfThreeValues(n0: nat, n1: nat) {
    || (n0 == 0xE0 && 0xA0 <= n1 <= 0xBF)
    || (0xE1 <= n0 <= 0xEC && TailValue(n1))
    || (n0 == 0xED && 0x80 <= n1 <= 0x9F)
    || (0xEE <= n0 <= 0xEF && TailValue(n1))
  }

  predicate LeadOfFourValues(n0: nat, n1: nat) {
    || (n0 == 0xF0 && 0x90 <= n1 <= 0xBF)
    || (0xF1 <= n0 <= 0xF3 && TailValue(n1))
    || (n0 == 0xF4 && 0x80 <= n1 <= 0x8F)
  }

  lemma LeadValues(b: byte)
    ensures b <= 0x7F <==> ToInt(b) <= 0x7F
    ensures 0xC2 <= b <= 0xDF <==> 0xC2 <= ToInt(b) <= 0xDF
    ensures IsTail(b) <==> TailValue(ToInt(b))
  {
  }

  lemma LeadOfThreeByValue(b0: byte, b1: byte)
    ensures IsLeadOfThree(b0, b1) <==> LeadOfThreeValues(ToInt(b0), ToInt(b1))
  {
  }

  lemma LeadOfFourByValue(b0: byte, b1: byte)
    ensures IsLeadOfFour(b0, b1) <==> LeadOfFourValues(ToInt(b0), ToInt(b1))
  {
  }

  /** `CharLen`, told by the values of the bytes. */
  function CharLenByValue(s: seq<byte>): nat {
    if |s| >= 1 && ToInt(s[0]) <= 0x7F then 1
    else if |s| >= 2 && 0xC2 <= ToInt(s[0]) <= 0xDF && TailValue(ToInt(s[1])) then 2
    else if |s| >= 3 && LeadOfThreeValues(ToInt(s[0]), ToInt(s[1])) && TailValue(ToInt(s[2])) then 3
    else if |s| >= 4 && LeadOfFourValues(ToInt(s[0]), ToInt(s[1])) && TailValue(ToInt(s[2])) && TailValue(ToInt(s[3]))
    then 4
    else 0
  }

  lemma CharLenValues(s: seq<byte>)
    ensures CharLen(s) == CharLenByValue(s)
  {
    hide IsTail, IsLeadOfThree, IsLeadOfFour, TailValue, LeadOfThreeValues, LeadOfFourValues, ToInt;
    if |s| >= 1 {
      LeadValues(s[0]);
    }
    if |s| >= 2 {
      LeadValues(s[1]);
      LeadOfThreeByValue(s[0], s[1]);
      LeadOfFourByValue(s[0], s[1]);
    }
    if |s| >= 3 {
      LeadValues(s[2]);
    }
    if |s| >= 4 {
      LeadValues(s[3]);
    }
  }

  lemma SixBitGroups(v: nat)
    ensures v == v / 64 * 64 + v % 64
    ensures v / 64 == v / 4096 * 64 + v / 64 % 64
    ensures v / 4096 == v / 262144 * 64 + v / 4096 % 64
  {
  }

  lemma GroupsOfSum(a: nat, b: nat, c: nat)
    requires b < 64 && c < 64
    ensures (a * 64 + b) / 64 == a && (a * 64 + b) % 64 == b
    ensures ((a * 64 + b) * 64 + c) / 4096 == a
  {
  }

  lemma ThreeByteEncodingValues(v: Scalar)
    requires 0x800 <= v < 0x1_0000
    ensures LeadOfThreeValues(0xE0 + v / 4096, 0x80 + v / 64 % 64)
  {
    SixBitGroups(v);
  }

  lemma FourByteEncodingValues(v: Scalar)
    requires 0x1_0000 <= v
    ensures LeadOfFourValues(0xF0 + v / 262144, 0x80 + v / 4096 % 64)
  {
    SixBitGroups(v);
  }

  /** The encoding of a scalar value is one character of the grammar. */
  lemma CharOfEncoding(v: Scalar, t: seq<byte>)
    ensures CharLen(Encoding(v) + t) == |Encoding(v)|
  {
    hide ToInt, ToByte, CharLen, LeadOfThreeValues, LeadOfFourValues;
    var s := Encoding(v) + t;
    CharLenValues(s);
    assert forall i :: 0 <= i < |Encoding(v)| ==> s[i] == Encoding(v)[i];
    if 0x800 <= v < 0x1_0000 {
      ThreeByteEncodingValues(v);
    } else if 0x1_0000 <= v {
      FourByteEncodingValues(v);
      NotLeadOfThree(0xF0 + v / 262144, 0x80 + v / 4096 % 64);
    }
  }

  lemma NotLeadOfThree(n0: nat, n1: nat)
    requires n0 >= 0xF0
    ensures !LeadOfThreeValues(n0, n1)
  {
  }

  /** A character of the grammar is the encoding of a scalar value. */
  lemma EncodingOfChar(s: seq<byte>) returns (v: Scalar)
    requires CharLen(s) > 0
    ensures Encoding(v) == s[..CharLen(s)]
  {
    hide CharLen, ToInt;
    CharLenValues(s);
    var n := CharLen(s);
    var n0 := ToInt(s[0]);
    if n == 1 {
      v := n0;
      ToIntInjective(ToByte(v), s[0]);
    } else if n == 2 {
      v := TwoByteValue(s[0], s[1]);
    } else if n == 3 {
      v := ThreeByteValue(s[0], s[1], s[2]);
    } else {
      v := FourByteValue(s[0], s[1], s[2], s[3]);
    }
  }

  lemma TwoByteValue(b0: byte, b1: byte) returns (v: Scalar)
    requires 0xC2 <= ToInt(b0) <= 0xDF && TailValue(ToInt(b1))
    ensures Encoding(v) == [b0, b1]
  {
    hide ToInt, ToByte;
    var a, b := ToInt(b0) - 0xC0, ToInt(b1) - 0x80;
    GroupsOfSum(a, b, 0);
    v := a * 64 + b;
    ToIntInjective(Encoding(v)[0], b0);
    ToIntInjective(Encoding(v)[1], b1);
  }

  lemma ThreeByteValue(b0: byte, b1: byte, b2: byte) returns (v: Scalar)
    requires LeadOfThreeValues(ToInt(b0), ToInt(b1)) && TailValue(ToInt(b2))
    ensures Encoding(v) == [b0, b1, b2]
  {
    hide ToInt, ToByte;
    var a, b, c := ToInt(b0) - 0xE0, ToInt(b1) - 0x80, ToInt(b2) - 0x80;
    GroupsOfSum(a, b, c);
    GroupsOfSum(a * 64 + b, c, 0);
    v := (a * 64 + b) * 64 + c;
    assert 0x800 <= v < 0x1_0000;
    ToIntInjective(Encoding(v)[0], b0);
    ToIntInjective(Encoding(v)[1], b1);
    ToIntInjective(Encoding(v)[2], b2);
  }

  lemma FourByteValue(b0: byte, b1: byte, b2: byte, b3: byte) returns (v: Scalar)
    requires LeadOfFourValues(ToInt(b0), ToInt(b1)) && TailValue(ToInt(b2)) && TailValue(ToInt(b3))
    ensures Encoding(v) == [b0, b1, b2, b3]
  {
    hide ToInt, ToByte;
    var a, b, c, d := ToInt(b0) - 0xF0, ToInt(b1) - 0x80, ToInt(b2) - 0x80, ToInt(b3) - 0x80;
    var n := FourGroups(a, b, c, d);
    v := n;
    ToIntInjective(Encoding(v)[0], b0);
    ToIntInjective(Encoding(v)[1], b1);
    ToIntInjective(Encoding(v)[2], b2);
    ToIntInjective(Encoding(v)[3], b3);
  }

  lemma FourGroups(a: nat, b: nat, c: nat, d: nat) returns (v: nat)
    requires a <= 4 && b < 64 && c < 64 && d < 64
    requires a == 0 ==> b >= 16
    requires a == 4 ==> b < 16
    ensures v / 262144 == a && v / 4096 % 64 == b && v / 64 % 64 == c && v % 64 == d
    ensures 0x1_0000 <= v <= 0x10_FFFF
  {
    var w := a * 64 + b;
    GroupsOfSum(a, b, 0);
    GroupsOfSum(w, c, d);
    GroupsOfSum(w * 64 + c, d, 0);
    GroupsOfSum(w, c, 0);
    v := (w * 64 + c) * 64 + d;
    SixBitGroups(v);
  }

  lemma {:induction false} EncodingAllValid(vs: seq<Scalar>)
    ensures ValidUtf8(EncodingAll(vs))
    decreases |vs|
  {
    hide CharLen, Encoding;
    if vs != [] {
      var t := EncodingAll(vs[1..]);
      CharOfEncoding(vs[0], t);
      assert (Encoding(vs[0]) + t)[|Encoding(vs[0])|..] == t;
      EncodingAllValid(vs[1..]);
    }
  }

  lemma {:induction false} ValidIsEncodingAll(s: seq<byte>) returns (vs: seq<Scalar>)
    requires ValidUtf8(s)
    ensures EncodingAll(vs) == s
    decreases |s|
  {
    hide CharLen, Encoding;
    if s == [] {
      vs := [];
    } else {
      var n := CharLen(s);
      var v := EncodingOfChar(s);
      var rest := ValidIsEncodingAll(s[n..]);
      vs := [v] + rest;
      assert vs[1..] == rest && s == s[..n] + s[n..];
    }
  }

  /** `s` is the encoding of some sequence of Unicode scalar values. */
  ghost predicate IsText(s: seq<byte>) {
    exists vs: seq<Scalar> :: EncodingAll(vs) == s
  }

  /** The grammar accepts exactly the encodings of sequences of Unicode scalar values. */
  lemma ValidUtf8IsText(s: seq<byte>)
    ensures ValidUtf8(s) <==> IsText(s)
  {
    hide ValidUtf8, EncodingAll;
    if ValidUtf8(s) {
      var vs := ValidIsEncodingAll(s);
    }
    forall vs: seq<Scalar> | EncodingAll(vs) == s
      ensures ValidUtf8(s)
    {
      EncodingAllValid(vs);
    }
  }
}
