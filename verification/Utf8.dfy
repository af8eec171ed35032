/** UTF-8 as RFC 3629, section 3 defines it: the texts the decoder accepts are exactly the
    encodings of sequences of Unicode scalar values. */
module Utf8 {
  import opened Base64
  import opened XdrStrings

  /** A code point that is no surrogate. */
  type Scalar = c: int | 0 <= c < 0xD800 || 0xE000 <= c < 0x11_0000

  /** The encoding of one scalar value in one to four bytes. */
  function Encoded(c: Scalar): seq<byte> {
    if c < 0x80 then [c]
    else if c < 0x800 then [0xC0 + c / 64, 0x80 + c % 64]
    else if c < 0x1_0000 then [0xE0 + c / 4096, 0x80 + c / 64 % 64, 0x80 + c % 64]
    else [0xF0 + c / 0x4_0000, 0x80 + c / 4096 % 64, 0x80 + c / 64 % 64, 0x80 + c % 64]
  }

  function EncodedText(cs: seq<Scalar>): seq<byte> {
    if cs == [] then [] else Encoded(cs[0]) + EncodedText(cs[1..])
  }

  lemma EncodedIsOne(c: Scalar, rest: seq<byte>)
    ensures Utf8Width(Encoded(c) + rest) == |Encoded(c)|
  {
    var s := Encoded(c) + rest;
    assert forall i :: 0 <= i < |Encoded(c)| ==> s[i] == Encoded(c)[i];
  }

  /** The scalar value at the front of a text. */
  function Front(s: seq<byte>): int
    requires s != [] && Utf8Width(s) > 0
  {
    var w := Utf8Width(s);
    if w == 1 then s[0] as int
    else if w == 2 then (s[0] as int - 0xC0) * 64 + (s[1] as int - 0x80)
    else if w == 3 then ((s[0] as int - 0xE0) * 64 + (s[1] as int - 0x80)) * 64 + (s[2] as int - 0x80)
    else (((s[0] as int - 0xF0) * 64 + (s[1] as int - 0x80)) * 64 + (s[2] as int - 0x80)) * 64 + (s[3] as int - 0x80)
  }

  lemma FrontOfThree(s: seq<byte>)
    requires s != [] && Utf8Width(s) == 3
    ensures var c := Front(s); 0x800 <= c < 0x1_0000 && !(0xD800 <= c < 0xE000) && Encoded(c) == s[..3]
  {
    var c := Front(s);
    assert c / 64 == (s[0] as int - 0xE0) * 64 + (s[1] as int - 0x80) && c % 64 == s[2] as int - 0x80;
    assert c / 4096 == s[0] as int - 0xE0 && c / 64 % 64 == s[1] as int - 0x80;
  }

  lemma FrontOfFour(s: seq<byte>)
    requires s != [] && Utf8Width(s) == 4
    ensures var c := Front(s); 0x1_0000 <= c < 0x11_0000 && Encoded(c) == s[..4]
  {
    var c := Front(s);
    assert c / 64 == ((s[0] as int - 0xF0) * 64 + (s[1] as int - 0x80)) * 64 + (s[2] as int - 0x80);
    assert c % 64 == s[3] as int - 0x80;
    assert c / 4096 == (s[0] as int - 0xF0) * 64 + (s[1] as int - 0x80) && c / 64 % 64 == s[2] as int - 0x80;
    assert c / 0x4_0000 == s[0] as int - 0xF0 && c / 4096 % 64 == s[1] as int - 0x80;
  }

  lemma FrontIsEncoded(s: seq<byte>)
    requires s != [] && Utf8Width(s) > 0
    ensures var c := Front(s);
            (0 <= c < 0xD800 || 0xE000 <= c < 0x11_0000) && Encoded(c) == s[..Utf8Width(s)]
  {
    var w := Utf8Width(s);
    if w == 3 {
      FrontOfThree(s);
    } else if w == 4 {
      FrontOfFour(s);
    }
  }

  lemma {:induction false} EncodedIsValid(cs: seq<Scalar>)
    ensures ValidUtf8(EncodedText(cs))
    decreases |cs|
  {
    if cs != [] {
      EncodedIsValid(cs[1..]);
      EncodedIsOne(cs[0], EncodedText(cs[1..]));
      var s := EncodedText(cs);
      assert s[|Encoded(cs[0])|..] == EncodedText(cs[1..]);
    }
  }

  lemma {:induction false} ValidIsEncoded(s: seq<byte>) returns (cs: seq<Scalar>)
    requires ValidUtf8(s)
    ensures s == EncodedText(cs)
    decreases |s|
  {
    if s == [] {
      cs := [];
    } else {
      var w := Utf8Width(s);
      var rest := ValidIsEncoded(s[w..]);
      FrontIsEncoded(s);
      cs := [Front(s)] + rest;
      assert cs[0] == Front(s) && cs[1..] == rest;
      assert s == s[..w] + s[w..];
    }
  }

  /** A text is accepted exactly when it encodes some sequence of scalar values. */
  lemma ValidIffEncoded(s: seq<byte>)
    ensures ValidUtf8(s) <==> exists cs: seq<Scalar> :: s == EncodedText(cs)
  {
    if ValidUtf8(s) {
      var cs := ValidIsEncoded(s);
    }
    if cs: seq<Scalar> :| s == EncodedText(cs) {
      EncodedIsValid(cs);
    }
  }
}
