/** The API server's decoder of XDR string vectors, against the array and string
    encodings of RFC 4506, sections 4.13 and 4.11. A string is its UTF-8 bytes. */
module XdrStrings {
  import opened Common
  import opened Base64

  type Text = seq<byte>

  // ---- UTF-8 ----

  predicate Between(b: byte, lo: int, hi: int) {
    lo <= b <= hi
  }

  /** The length of the well-formed UTF-8 sequence at the front of `s`, or 0. */
  function Utf8Width(s: Text): nat
    requires s != []
  {
    var b := s[0];
    if b < 0x80 then 1
    else if |s| >= 2 && Between(b, 0xC2, 0xDF) && Between(s[1], 0x80, 0xBF) then 2
    else if |s| >= 3 && Between(s[2], 0x80, 0xBF) &&
            (|| (b == 0xE0 && Between(s[1], 0xA0, 0xBF))
             || ((Between(b, 0xE1, 0xEC) || Between(b, 0xEE, 0xEF)) && Between(s[1], 0x80, 0xBF))
             || (b == 0xED && Between(s[1], 0x80, 0x9F))) then 3
    else if |s| >= 4 && Between(s[2], 0x80, 0xBF) && Between(s[3], 0x80, 0xBF) &&
            (|| (b == 0xF0 && Between(s[1], 0x90, 0xBF))
             || (Between(b, 0xF1, 0xF3) && Between(s[1], 0x80, 0xBF))
             || (b == 0xF4 && Between(s[1], 0x80, 0x8F))) then 4
    else 0
  }

  predicate ValidUtf8(s: Text)
    decreases |s|
  {
    s == [] || (Utf8Width(s) > 0 && ValidUtf8(s[Utf8Width(s)..]))
  }

  // ---- The encoding of the standard ----

  /** A 32-bit number, most significant byte first. */
  function Word(n: u32): seq<byte> {
    [n / 0x100_0000, n / 0x1_0000 % 0x100, n / 0x100 % 0x100, n % 0x100]
  }

  function RoundUp4(n: nat): nat {
    (n + 3) / 4 * 4
  }

  function Zeros(n: nat): seq<byte> {
    seq(n, i => 0)
  }

  /** Byte strings and their number that 32-bit lengths can count. */
  predicate Sized(texts: seq<Text>) {
    |texts| <= U32_MAX && forall i :: 0 <= i < |texts| ==> |texts[i]| <= U32_MAX
  }

  predicate Encodable(texts: seq<Text>) {
    Sized(texts) && forall i :: 0 <= i < |texts| ==> ValidUtf8(texts[i])
  }

  lemma RoundUp4Range(n: nat)
    ensures n <= RoundUp4(n) < n + 4
  {
  }

  /** A string's bytes, padded with zeros to a multiple of four. */
  function Body(t: Text): seq<byte> {
    RoundUp4Range(|t|);
    t + Zeros(RoundUp4(|t|) - |t|)
  }

  function EncodeText(t: Text): seq<byte>
    requires |t| <= U32_MAX
  {
    Word(|t|) + Body(t)
  }

  function EncodeItems(texts: seq<Text>): seq<byte>
    requires Sized(texts)
  {
    if texts == [] then [] else EncodeText(texts[0]) + EncodeItems(texts[1..])
  }

  function EncodeVector(texts: seq<Text>): seq<byte>
    requires Sized(texts)
  {
    Word(|texts|) + EncodeItems(texts)
  }

  /** The most significant byte comes first. */
  lemma WordMeaning(n: u32)
    ensures var w := Word(n);
            && |w| == 4 && n == ((w[0] as int * 256 + w[1] as int) * 256 + w[2] as int) * 256 + w[3] as int
  {
  }

  /** A string is its length, its bytes, and up to three zeros that fill the last word. */
  lemma TextMeaning(t: Text)
    requires |t| <= U32_MAX
    ensures EncodeText(t) == Word(|t|) + t + Zeros(RoundUp4(|t|) - |t|)
    ensures RoundUp4(|t|) % 4 == 0 && |t| <= RoundUp4(|t|) < |t| + 4
  {
    RoundUp4Range(|t|);
    assert EncodeText(t) == Word(|t|) + (t + Zeros(RoundUp4(|t|) - |t|));
  }

  // ---- The decoder ----

  /** The big-endian number in `width` bytes from `pos` on. */
  function NumberAt(bytes: seq<byte>, pos: nat, width: nat): nat
    requires pos + width <= |bytes|
  {
    if width == 0 then 0 else NumberAt(bytes, pos, width - 1) * 256 + bytes[pos + width - 1]
  }

  const WORD := 4

  function TrimNul(t: Text): Text {
    if t == [] || t[|t| - 1] != 0 then t else TrimNul(t[..|t| - 1])
  }

  /** The bodies of at most `count` strings from `pos` on: reading stops where a
      length or a body runs past the end. */
  function Bodies(bytes: seq<byte>, pos: nat, count: nat): seq<seq<byte>>
    decreases count
  {
    if count == 0 || pos + 4 > |bytes| || pos + 4 + NumberAt(bytes, pos, WORD) > |bytes| then []
    else
      var len := NumberAt(bytes, pos, WORD);
      [bytes[pos + 4..pos + 4 + len]] + Bodies(bytes, pos + 4 + RoundUp4(len), count - 1)
  }

  /** The string of one body, if it is UTF-8. */
  function Item(body: seq<byte>): seq<Text> {
    if ValidUtf8(body) then [TrimNul(body)] else []
  }

  /** The strings of a list of bodies; those that are not UTF-8 are skipped. */
  function Items(bodies: seq<seq<byte>>): seq<Text> {
    if bodies == [] then [] else Items(bodies[..|bodies| - 1]) + Item(bodies[|bodies| - 1])
  }

  function DecodeVector(bytes: seq<byte>): seq<Text> {
    if |bytes| < 4 then [] else Items(Bodies(bytes, 4, NumberAt(bytes, 0, WORD)))
  }

  function Decode(xdr: seq<byte>): Option<seq<Text>> {
    match Base64.Decode(xdr)
    case None => None
    case Some(bytes) => Some(DecodeVector(bytes))
  }

  method TrimEndNul(t: Text) returns (trimmed: Text)
    ensures trimmed == TrimNul(t)
  {
    trimmed := t;
    while |trimmed| > 0 && trimmed[|trimmed| - 1] == 0
      invariant TrimNul(trimmed) == TrimNul(t)
      decreases |trimmed|
    {
      trimmed := trimmed[..|trimmed| - 1];
    }
  }

  method DecodeStringVecXdr(xdr: seq<byte>) returns (result: Option<seq<Text>>)
    ensures result == Decode(xdr)
  {
    var decoded := Base64Decode(xdr);
    if decoded.None? { return None; }
    var bytes := decoded.value;
    if |bytes| < 4 { return Some([]); }
    var texts := DecodeBuffer(bytes);
    result := Some(texts);
  }

  method DecodeBuffer(bytes: seq<byte>) returns (texts: seq<Text>)
    requires |bytes| >= 4
    ensures texts == DecodeVector(bytes)
  {
    var count := NumberAt(bytes, 0, WORD);
    texts := [];
    var pos: nat := 4;
    ghost var read: seq<seq<byte>> := [];
    for i := 0 to count
      invariant Bodies(bytes, 4, count) == read + Bodies(bytes, pos, count - i)
      invariant texts == Items(read)
    {
      var body, next := ReadBody(bytes, pos);
      if body.None? {
        NothingLeft(bytes, pos, count - i, read);
        break;
      }
      NextBody(bytes, pos, count - i, body.value, next);
      OneMoreBody(read, body.value, Bodies(bytes, next, count - i - 1));
      var item := DecodeItem(body.value);
      pos := next;
      read := read + [body.value];
      texts := texts + item;
    }
    assert Bodies(bytes, 4, count) == read;
  }

  /** The front of the loop body: one length and that many bytes, unless the buffer ends. */
  method ReadBody(bytes: seq<byte>, pos: nat) returns (body: Option<seq<byte>>, next: nat)
    ensures body.None? <==> Ends(bytes, pos)
    ensures body.Some? ==> ReadsBody(bytes, pos, body.value, next)
  {
    next := pos;
    if pos + 4 > |bytes| { return None, next; }
    var len := NumberAt(bytes, pos, WORD);
    next := pos + 4;
    if next + len > |bytes| { return None, next; }
    body := Some(bytes[next..next + len]);
    next := next + RoundUp4(len);
  }

  predicate Ends(bytes: seq<byte>, pos: nat) {
    pos + 4 > |bytes| || pos + 4 + NumberAt(bytes, pos, WORD) > |bytes|
  }

  /** Reading has come to an end: no item is due, or the next one runs past the bytes. */
  lemma NothingLeft(bytes: seq<byte>, pos: nat, count: nat, read: seq<seq<byte>>)
    requires count == 0 || Ends(bytes, pos)
    ensures read + Bodies(bytes, pos, count) == read
  {
    assert Bodies(bytes, pos, count) == [];
  }

  /** The next item is `body`, and reading goes on at `next`. */
  predicate ReadsBody(bytes: seq<byte>, pos: nat, body: seq<byte>, next: nat) {
    && pos + 4 <= |bytes|
    && var len := NumberAt(bytes, pos, WORD);
       pos + 4 + len <= |bytes| && body == bytes[pos + 4..pos + 4 + len] && next == pos + 4 + RoundUp4(len)
  }

  lemma NextBody(bytes: seq<byte>, pos: nat, count: nat, body: seq<byte>, next: nat)
    requires count > 0 && ReadsBody(bytes, pos, body, next)
    ensures Bodies(bytes, pos, count) == [body] + Bodies(bytes, next, count - 1)
  {
  }

  lemma OneMoreBody(read: seq<seq<byte>>, body: seq<byte>, left: seq<seq<byte>>)
    ensures read + ([body] + left) == read + [body] + left
    ensures Items(read + [body]) == Items(read) + Item(body)
  {
    assert (read + [body])[..|read|] == read;
  }

  method DecodeItem(body: seq<byte>) returns (item: seq<Text>)
    ensures item == Item(body)
  {
    item := [];
    if ValidUtf8(body) {
      var trimmed := TrimEndNul(body);
      item := item + [trimmed];
    }
  }

  // ---- Round trip ----

  function TrimAll(texts: seq<Text>): seq<Text> {
    seq(|texts|, i requires 0 <= i < |texts| => TrimNul(texts[i]))
  }

  lemma WordInside(before: seq<byte>, n: u32, rest: seq<byte>)
    ensures NumberAt(before + Word(n) + rest, |before|, WORD) == n
  {
    var bytes, pos := before + Word(n) + rest, |before|;
    var q1, q2, q3 := n / 0x100, n / 0x1_0000, n / 0x100_0000;
    assert NumberAt(bytes, pos, 1) == NumberAt(bytes, pos, 0) * 256 + bytes[pos] == q3;
    assert NumberAt(bytes, pos, 2) == q3 * 256 + q2 % 0x100 == q2;
    assert NumberAt(bytes, pos, 3) == q2 * 256 + q1 % 0x100 == q1;
  }

  /** An encoded string is read back as its bytes, and reading goes on after it. */
  lemma ReadOneText(before: seq<byte>, t: Text, rest: seq<byte>, count: nat)
    requires |t| <= U32_MAX && count > 0
    ensures var bytes := before + EncodeText(t) + rest;
            Bodies(bytes, |before|, count) == [t] + Bodies(bytes, |before + EncodeText(t)|, count - 1)
  {
    var bytes := before + EncodeText(t) + rest;
    var pos := |before| + 4;
    assert bytes == before + Word(|t|) + (Body(t) + rest);
    WordInside(before, |t|, Body(t) + rest);
    BodyShape(t);
    assert bytes[pos..pos + |t|] == (Body(t) + rest)[..|t|] == t;
  }

  lemma BodyShape(t: Text)
    ensures |Body(t)| == RoundUp4(|t|) && Body(t)[..|t|] == t
  {
    RoundUp4Range(|t|);
  }

  lemma {:induction false} ReadInvertsEncode(before: seq<byte>, texts: seq<Text>)
    requires Sized(texts)
    ensures Bodies(before + EncodeItems(texts), |before|, |texts|) == texts
    decreases |texts|
  {
    if texts != [] {
      var first, rest := texts[0], texts[1..];
      ReadInvertsEncode(before + EncodeText(first), rest);
      ReadOneText(before, first, EncodeItems(rest), |texts|);
      Regroup(before, EncodeText(first), EncodeItems(rest));
    }
  }

  lemma {:induction false} ItemsOfTexts(texts: seq<Text>)
    requires forall i :: 0 <= i < |texts| ==> ValidUtf8(texts[i])
    ensures Items(texts) == TrimAll(texts)
    decreases |texts|
  {
    if texts != [] {
      var n := |texts| - 1;
      ItemsOfTexts(texts[..n]);
      assert TrimAll(texts) == TrimAll(texts[..n]) + [TrimNul(texts[n])];
    }
  }

  predicate NoTrailingNul(t: Text) {
    t == [] || t[|t| - 1] != 0
  }

  /** Any byte strings are read back from their encoding; those that are not UTF-8 are then
      skipped and the others trimmed, one by one and in order. */
  lemma ReadsVector(texts: seq<Text>)
    requires Sized(texts)
    ensures DecodeVector(EncodeVector(texts)) == Items(texts)
  {
    WordInside([], |texts|, EncodeItems(texts));
    assert [] + Word(|texts|) + EncodeItems(texts) == EncodeVector(texts);
    ReadInvertsEncode(Word(|texts|), texts);
  }

  lemma ItemsOfOne(t: Text)
    ensures Items([t]) == if ValidUtf8(t) then [TrimNul(t)] else []
  {
    assert [t][..0] == [];
  }

  lemma {:induction false} NumberInPrefix(bytes: seq<byte>, n: nat, pos: nat, width: nat)
    requires pos + width <= n <= |bytes|
    ensures NumberAt(bytes[..n], pos, width) == NumberAt(bytes, pos, width)
    decreases width
  {
    if width > 0 {
      NumberInPrefix(bytes, n, pos, width - 1);
    }
  }

  /** A buffer cut short gives the first of the strings of the whole buffer. */
  lemma {:induction false} TruncatedBodies(bytes: seq<byte>, n: nat, pos: nat, count: nat)
    requires n <= |bytes|
    ensures Bodies(bytes[..n], pos, count) <= Bodies(bytes, pos, count)
    decreases count
  {
    if count > 0 && !Ends(bytes[..n], pos) {
      NumberInPrefix(bytes, n, pos, WORD);
      var len := NumberAt(bytes, pos, WORD);
      var body, next := bytes[pos + 4..pos + 4 + len], pos + 4 + RoundUp4(len);
      assert body == bytes[..n][pos + 4..pos + 4 + len];
      TruncatedBodies(bytes, n, next, count - 1);
      NextBody(bytes, pos, count, body, next);
      NextBody(bytes[..n], pos, count, body, next);
    } else {
      NothingLeft(bytes[..n], pos, count, []);
    }
  }

  /** The encoded vector decodes to its strings with trailing NULs trimmed. */
  lemma DecodesTrimmed(texts: seq<Text>, padding: nat)
    requires Encodable(texts)
    ensures Decode(Base64.Encode(EncodeVector(texts)) + Padding(padding)) == Some(TrimAll(texts))
  {
    DecodesEncoded(EncodeVector(texts), padding);
    ReadsVector(texts);
    ItemsOfTexts(texts);
  }

  /** Trimming takes off the trailing NULs, all of them and nothing else. */
  lemma {:induction false} TrimMeaning(t: Text)
    ensures |TrimNul(t)| <= |t| && t == TrimNul(t) + Zeros(|t| - |TrimNul(t)|) && NoTrailingNul(TrimNul(t))
    decreases |t|
  {
    if t != [] && t[|t| - 1] == 0 {
      TrimMeaning(t[..|t| - 1]);
      var k := |t| - |TrimNul(t)|;
      assert Zeros(k) == Zeros(k - 1) + [0] && t == t[..|t| - 1] + [0];
    }
  }

  lemma TrimAllKeeps(texts: seq<Text>)
    ensures TrimAll(texts) == texts <==> forall i :: 0 <= i < |texts| ==> NoTrailingNul(texts[i])
  {
    forall i | 0 <= i < |texts|
      ensures TrimAll(texts)[i] == texts[i] <==> NoTrailingNul(texts[i])
    {
      TrimShortens(texts[i]);
    }
    if forall i :: 0 <= i < |texts| ==> NoTrailingNul(texts[i]) {
      assert TrimAll(texts) == texts;
    }
  }

  /** Decoding the base64 of the standard's encoding gives back every list of UTF-8
      strings with trailing NULs trimmed; the list itself exactly when none ends in NUL. */
  lemma DecodesEncodedVector(texts: seq<Text>, padding: nat)
    requires Encodable(texts)
    ensures var xdr := Base64.Encode(EncodeVector(texts)) + Padding(padding);
            && Decode(xdr) == Some(TrimAll(texts))
            && (Decode(xdr) == Some(texts) <==> forall i :: 0 <= i < |texts| ==> NoTrailingNul(texts[i]))
  {
    DecodesTrimmed(texts, padding);
    TrimAllKeeps(texts);
  }

  lemma {:induction false} TrimShortens(t: Text)
    ensures |TrimNul(t)| <= |t|
    ensures TrimNul(t) == t <==> NoTrailingNul(t)
    decreases |t|
  {
    if t != [] {
      TrimShortens(t[..|t| - 1]);
    }
  }
}
