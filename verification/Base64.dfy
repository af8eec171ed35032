/** The API server's base64 decoder, against the encoder of RFC 4648, section 4. */
module Base64 {
  import opened Common

  type byte = x: int | 0 <= x < 256
  type sextet = x: int | 0 <= x < 64

  const PAD: byte := 61
  const NO_VALUE: byte := 255

  /** Table 1 of RFC 4648: A-Z, a-z, 0-9, '+' and '/'. */
  function Alphabet(v: sextet): byte {
    if v < 26 then 65 + v
    else if v < 52 then 97 + (v - 26)
    else if v < 62 then 48 + (v - 52)
    else if v == 62 then 43
    else 47
  }

  /** The decoder's 128-entry table: the value of a character, or 255. */
  function TableEntry(c: byte): byte {
    if 65 <= c <= 90 then c - 65
    else if 97 <= c <= 122 then c - 97 + 26
    else if 48 <= c <= 57 then c - 48 + 52
    else if c == 43 then 62
    else if c == 47 then 63
    else NO_VALUE
  }

  predicate InAlphabet(c: byte) {
    c < 128 && TableEntry(c) != NO_VALUE
  }

  predicate AllInAlphabet(chars: seq<byte>) {
    forall i :: 0 <= i < |chars| ==> InAlphabet(chars[i])
  }

  lemma TableInverts(v: sextet, c: byte)
    ensures InAlphabet(Alphabet(v)) && TableEntry(Alphabet(v)) == v && Alphabet(v) != PAD
    ensures InAlphabet(c) ==> TableEntry(c) < 64 && Alphabet(TableEntry(c)) == c
  {
  }

  /** Table 1 of RFC 4648, as text. */
  const TABLE := UPPER + LOWER + DIGITS + "+/"

  lemma AlphabetIsTable(v: sextet)
    ensures |TABLE| == 64 && Alphabet(v) == TABLE[v] as int && PAD == '=' as int
  {
    if v < 26 {
      LettersAt(v);
    } else if v < 52 {
      LettersAt(v - 26);
    } else if v < 62 {
      LettersAt(v - 52);
    }
    LettersAt(0);
  }

  // ---- Bytes as eight bits ----

  lemma BitsOfNumber(b: bv8)
    ensures 0 <= b as int < 256 && (b as int) as bv8 == b
  {
  }

  lemma NumberOfNibbles(high: int, low: int)
    requires 0 <= high < 16 && 0 <= low < 16
    ensures ((16 * high + low) as bv8) as int == 16 * high + low
  {
  }

  lemma NumberOfBits(x: byte)
    ensures (x as bv8) as int == x
  {
    NumberOfNibbles(x / 16, x % 16);
  }

  lemma SixBits(b: bv8)
    requires b < 64
    ensures 0 <= b as int < 64 && (b as int) as bv8 == b
  {
  }

  // ---- The encoder of the standard ----

  // The 24 bits of three bytes, from the left, in four groups of six.

  function Split0(a: byte): sextet {
    var b := a as bv8 >> 2;
    SixBits(b);
    b as int
  }

  function Split1(a: byte, b: byte): sextet {
    var s := ((a as bv8 & 3) << 4) | (b as bv8 >> 4);
    SixBits(s);
    s as int
  }

  function Split2(b: byte, c: byte): sextet {
    var s := ((b as bv8 & 15) << 2) | (c as bv8 >> 6);
    SixBits(s);
    s as int
  }

  function Split3(c: byte): sextet {
    var s := c as bv8 & 63;
    SixBits(s);
    s as int
  }

  function Encode3(a: byte, b: byte, c: byte): seq<byte> {
    [Alphabet(Split0(a)), Alphabet(Split1(a, b)), Alphabet(Split2(b, c)), Alphabet(Split3(c))]
  }

  /** Encoding without the final padding. */
  function Encode(data: seq<byte>): seq<byte> {
    if |data| == 0 then []
    else if |data| == 1 then Encode3(data[0], 0, 0)[..2]
    else if |data| == 2 then Encode3(data[0], data[1], 0)[..3]
    else Encode3(data[0], data[1], data[2]) + Encode(data[3..])
  }

  function Padding(n: nat): seq<byte> {
    seq(n, i => PAD)
  }

  /** Encoding padded to a multiple of four characters. */
  function EncodePadded(data: seq<byte>): seq<byte> {
    Encode(data) + Padding((3 - |data| % 3) % 3)
  }

  // ---- The decoder ----

  // The three bytes of a group, by the decoder's shifts and "or"s of eight-bit values.

  function Join0(v0: byte, v1: byte): byte {
    var b := (v0 as bv8 << 2) | (v1 as bv8 >> 4);
    BitsOfNumber(b);
    b as int
  }

  function Join1(v1: byte, v2: byte): byte {
    var b := (v1 as bv8 << 4) | (v2 as bv8 >> 2);
    BitsOfNumber(b);
    b as int
  }

  function Join2(v2: byte, v3: byte): byte {
    var b := (v2 as bv8 << 6) | v3 as bv8;
    BitsOfNumber(b);
    b as int
  }

  function TrimPadding(input: seq<byte>): seq<byte> {
    if input == [] || input[|input| - 1] != PAD then input else TrimPadding(input[..|input| - 1])
  }

  function DecodeTail(chars: seq<byte>): Option<seq<byte>>
    requires |chars| < 4
  {
    if |chars| == 1 || !AllInAlphabet(chars) then None
    else if |chars| == 0 then Some([])
    else if |chars| == 2 then Some([Join0(TableEntry(chars[0]), TableEntry(chars[1]))])
    else
      var v0, v1, v2 := TableEntry(chars[0]), TableEntry(chars[1]), TableEntry(chars[2]);
      Some([Join0(v0, v1), Join1(v1, v2)])
  }

  function Decode4(c0: byte, c1: byte, c2: byte, c3: byte): seq<byte>
    requires InAlphabet(c0) && InAlphabet(c1) && InAlphabet(c2) && InAlphabet(c3)
  {
    var v0, v1, v2, v3 := TableEntry(c0), TableEntry(c1), TableEntry(c2), TableEntry(c3);
    [Join0(v0, v1), Join1(v1, v2), Join2(v2, v3)]
  }

  /** What precedes a decoded rest. */
  function Prepend(out: seq<byte>, rest: Option<seq<byte>>): Option<seq<byte>> {
    if rest.None? then None else Some(out + rest.value)
  }

  function DecodeChars(chars: seq<byte>): Option<seq<byte>> {
    if |chars| < 4 then DecodeTail(chars)
    else if InAlphabet(chars[0]) && InAlphabet(chars[1]) && InAlphabet(chars[2]) && InAlphabet(chars[3]) then
      Prepend(Decode4(chars[0], chars[1], chars[2], chars[3]), DecodeChars(chars[4..]))
    else None
  }

  function Decode(input: seq<byte>): Option<seq<byte>> {
    DecodeChars(TrimPadding(input))
  }

  /** The table as it is built: 255 everywhere, then one entry per alphabet character. */
  method BuildTable() returns (table: array<byte>)
    ensures fresh(table) && table.Length == 128
    ensures forall c :: 0 <= c < 128 ==> table[c] == TableEntry(c)
  {
    table := new byte[128](_ => NO_VALUE);
    for i := 0 to 64
      invariant forall c :: 0 <= c < 128 ==> table[c] == if TableEntry(c) < i then TableEntry(c) else NO_VALUE
    {
      TableInverts(i, Alphabet(i));
      forall c | 0 <= c < 128
        ensures TableEntry(c) == i <==> c == Alphabet(i)
      {
        TableInverts(i, c);
      }
      table[Alphabet(i)] := i;
    }
  }

  method TrimEnd(input: seq<byte>) returns (trimmed: seq<byte>)
    ensures trimmed == TrimPadding(input)
  {
    trimmed := input;
    while |trimmed| > 0 && trimmed[|trimmed| - 1] == PAD
      invariant TrimPadding(trimmed) == TrimPadding(input)
      decreases |trimmed|
    {
      trimmed := trimmed[..|trimmed| - 1];
    }
  }

  lemma PrependNothing(rest: Option<seq<byte>>)
    ensures Prepend([], rest) == rest
  {
    if rest.Some? {
      assert [] + rest.value == rest.value;
    }
  }

  lemma PrependTwice(out: seq<byte>, next: seq<byte>, rest: Option<seq<byte>>)
    ensures Prepend(out, Prepend(next, rest)) == Prepend(out + next, rest)
  {
    if rest.Some? {
      assert out + (next + rest.value) == out + next + rest.value;
    }
  }

  method Base64Decode(input: seq<byte>) returns (decoded: Option<seq<byte>>)
    ensures decoded == Decode(input)
  {
    var table := BuildTable();
    var bytes := TrimEnd(input);
    var out: seq<byte> := [];
    var i := 0;
    assert bytes[0..] == bytes;
    PrependNothing(DecodeChars(bytes));
    while i + 3 < |bytes|
      invariant 0 <= i <= |bytes|
      invariant forall c :: 0 <= c < 128 ==> table[c] == TableEntry(c)
      invariant DecodeChars(bytes) == Prepend(out, DecodeChars(bytes[i..]))
    {
      var group := DecodeGroup(table, bytes[i], bytes[i + 1], bytes[i + 2], bytes[i + 3]);
      if group.None? { return None; }
      assert bytes[i..][4..] == bytes[i + 4..];
      PrependTwice(out, group.value, DecodeChars(bytes[i + 4..]));
      out := out + group.value;
      i := i + 4;
    }
    var tail := DecodeRest(table, bytes[i..]);
    decoded := Prepend(out, tail);
  }

  /** The body of the main loop: one full group of four characters. */
  method DecodeGroup(table: array<byte>, c0: byte, c1: byte, c2: byte, c3: byte) returns (group: Option<seq<byte>>)
    requires table.Length == 128 && forall c :: 0 <= c < 128 ==> table[c] == TableEntry(c)
    ensures if InAlphabet(c0) && InAlphabet(c1) && InAlphabet(c2) && InAlphabet(c3)
            then group == Some(Decode4(c0, c1, c2, c3)) else group.None?
  {
    if c0 >= 128 || c1 >= 128 || c2 >= 128 || c3 >= 128 { return None; }
    var b0, b1, b2, b3 := table[c0], table[c1], table[c2], table[c3];
    if b0 == NO_VALUE || b1 == NO_VALUE || b2 == NO_VALUE || b3 == NO_VALUE { return None; }
    var out := [Join0(b0, b1)];
    out := out + [Join1(b1, b2)];
    out := out + [Join2(b2, b3)];
    assert out == Decode4(c0, c1, c2, c3);
    group := Some(out);
  }

  lemma TwoInAlphabet(chars: seq<byte>)
    requires |chars| == 2
    ensures AllInAlphabet(chars) <==> InAlphabet(chars[0]) && InAlphabet(chars[1])
  {
  }

  lemma ThreeInAlphabet(chars: seq<byte>)
    requires |chars| == 3
    ensures AllInAlphabet(chars) <==> InAlphabet(chars[0]) && InAlphabet(chars[1]) && InAlphabet(chars[2])
  {
  }

  /** The match on the two or three characters left after the last full group. */
  method DecodeRest(table: array<byte>, chars: seq<byte>) returns (tail: Option<seq<byte>>)
    requires table.Length == 128 && forall c :: 0 <= c < 128 ==> table[c] == TableEntry(c)
    requires |chars| < 4
    ensures tail == DecodeTail(chars)
  {
    match |chars|
    case 2 =>
      TwoInAlphabet(chars);
      if chars[0] >= 128 || chars[1] >= 128 { return None; }
      var b0, b1 := table[chars[0]], table[chars[1]];
      if b0 == NO_VALUE || b1 == NO_VALUE { return None; }
      tail := Some([Join0(b0, b1)]);
    case 3 =>
      ThreeInAlphabet(chars);
      if chars[0] >= 128 || chars[1] >= 128 || chars[2] >= 128 { return None; }
      var b0, b1, b2 := table[chars[0]], table[chars[1]], table[chars[2]];
      if b0 == NO_VALUE || b1 == NO_VALUE || b2 == NO_VALUE { return None; }
      tail := Some([Join0(b0, b1), Join1(b1, b2)]);
    case 0 => tail := Some([]);
    case _ => tail := None;
  }

  // ---- Round trip ----

  // Two groups of bits side by side, as a number.

  lemma SixAndTwo(x: bv8, y: bv8)
    requires x < 64 && y < 4
    ensures ((x << 2) | y) as int == x as int * 4 + y as int
  {
  }

  lemma FourAndFour(x: bv8, y: bv8)
    requires x < 16 && y < 16
    ensures ((x << 4) | y) as int == x as int * 16 + y as int
  {
  }

  lemma TwoAndSix(x: bv8, y: bv8)
    requires x < 4 && y < 64
    ensures ((x << 6) | y) as int == x as int * 64 + y as int
  {
  }

  lemma BitsFallApart(b: bv8)
    ensures ((b >> 2) << 2) | (b & 3) == b && b >> 2 < 64 && b & 3 < 4
    ensures ((b >> 4) << 4) | (b & 15) == b && b >> 4 < 16 && b & 15 < 16
    ensures ((b >> 6) << 6) | (b & 63) == b && b >> 6 < 4 && b & 63 < 64
  {
  }

  lemma Quarters(x: byte)
    ensures (x as bv8 >> 2) as int == x / 4 && (x as bv8 & 3) as int == x % 4
  {
    var b := x as bv8;
    NumberOfBits(x);
    BitsFallApart(b);
    SixAndTwo(b >> 2, b & 3);
    SixBits(b & 3);
  }

  lemma Sixteenths(x: byte)
    ensures (x as bv8 >> 4) as int == x / 16 && (x as bv8 & 15) as int == x % 16
  {
    var b := x as bv8;
    NumberOfBits(x);
    BitsFallApart(b);
    FourAndFour(b >> 4, b & 15);
  }

  lemma SixtyFourths(x: byte)
    ensures (x as bv8 >> 6) as int == x / 64 && (x as bv8 & 63) as int == x % 64
  {
    var b := x as bv8;
    NumberOfBits(x);
    BitsFallApart(b);
    TwoAndSix(b >> 6, b & 63);
  }

  /** What the decoder makes of any groups of six bits, whether the encoder wrote them or not. */
  lemma JoinParts(v0: sextet, v1: sextet, v2: sextet, v3: sextet)
    ensures Join0(v0, v1) == v0 * 4 + v1 / 16
    ensures Join1(v1, v2) == v1 % 16 * 16 + v2 / 4
    ensures Join2(v2, v3) == v2 % 4 * 64 + v3
  {
    var b0, b1, b2, b3 := v0 as bv8, v1 as bv8, v2 as bv8, v3 as bv8;
    NumberOfBits(v0);
    NumberOfBits(v3);
    SmallBits(v0);
    SmallBits(v1);
    SmallBits(v2);
    SmallBits(v3);
    Sixteenths(v1);
    Quarters(v2);
    ShiftsOfSmall(b1, b2);
    SixAndTwo(b0, b1 >> 4);
    FourAndFour(b1 & 15, b2 >> 2);
    TwoAndSix(b2 & 3, b3);
  }

  lemma SmallBits(v: sextet)
    ensures v as bv8 < 64
  {
    NumberOfBits(v);
  }

  lemma ShiftsOfSmall(b1: bv8, b2: bv8)
    requires b1 < 64 && b2 < 64
    ensures b1 >> 4 < 4 && b2 >> 2 < 16 && b1 << 4 == (b1 & 15) << 4 && b2 << 6 == (b2 & 3) << 6
    ensures b1 & 15 < 16 && b2 & 3 < 4
  {
  }

  lemma SplitParts(a: byte, b: byte, c: byte)
    ensures Split0(a) == a / 4 && Split1(a, b) == a % 4 * 16 + b / 16
    ensures Split2(b, c) == b % 16 * 4 + c / 64 && Split3(c) == c % 64
  {
    Quarters(a);
    Sixteenths(b);
    SixtyFourths(c);
    BitsFallApart(a as bv8);
    BitsFallApart(b as bv8);
    BitsFallApart(c as bv8);
    FourAndFour(a as bv8 & 3, b as bv8 >> 4);
    SixAndTwo(b as bv8 & 15, c as bv8 >> 6);
  }

  lemma BitsRejoin(a: bv8, b: bv8, c: bv8)
    ensures ((a >> 2) << 2) | ((((a & 3) << 4) | (b >> 4)) >> 4) == a
    ensures ((((a & 3) << 4) | (b >> 4)) << 4) | ((((b & 15) << 2) | (c >> 6)) >> 2) == b
    ensures ((((b & 15) << 2) | (c >> 6)) << 6) | (c & 63) == c
  {
  }

  lemma SplitBits(a: byte, b: byte, c: byte)
    ensures Split0(a) as bv8 == a as bv8 >> 2
    ensures Split1(a, b) as bv8 == ((a as bv8 & 3) << 4) | (b as bv8 >> 4)
    ensures Split2(b, c) as bv8 == ((b as bv8 & 15) << 2) | (c as bv8 >> 6)
    ensures Split3(c) as bv8 == c as bv8 & 63
  {
    SixBits(a as bv8 >> 2);
    SixBits(((a as bv8 & 3) << 4) | (b as bv8 >> 4));
    SixBits(((b as bv8 & 15) << 2) | (c as bv8 >> 6));
    SixBits(c as bv8 & 63);
  }

  /** Joining the four groups of six bits gives the three bytes back. */
  lemma JoinSplit(a: byte, b: byte, c: byte)
    ensures Join0(Split0(a), Split1(a, b)) == a
    ensures Join1(Split1(a, b), Split2(b, c)) == b
    ensures Join2(Split2(b, c), Split3(c)) == c
  {
    SplitBits(a, b, c);
    BitsRejoin(a as bv8, b as bv8, c as bv8);
    NumberOfBits(a);
    NumberOfBits(b);
    NumberOfBits(c);
  }

  /** Three bytes encode to a group that decodes to them. */
  lemma EncodesGroup(a: byte, b: byte, c: byte)
    ensures Group(Encode3(a, b, c), [a, b, c])
  {
    TableInverts(Split0(a), 0);
    TableInverts(Split1(a, b), 0);
    TableInverts(Split2(b, c), 0);
    TableInverts(Split3(c), 0);
    JoinSplit(a, b, c);
  }

  /** Four alphabet characters, none of them padding, that decode to `data`. */
  ghost predicate Group(e: seq<byte>, data: seq<byte>) {
    && |e| == 4
    && (forall i :: 0 <= i < 4 ==> InAlphabet(e[i]) && e[i] != PAD)
    && Decode4(e[0], e[1], e[2], e[3]) == data
  }

  lemma PartOfGroup(e: seq<byte>, data: seq<byte>)
    requires Group(e, data) && |data| == 3
    ensures DecodeChars(e[..2]) == Some([data[0]])
    ensures DecodeChars(e[..3]) == Some([data[0], data[1]])
  {
  }

  lemma GroupThenRest(e: seq<byte>, data: seq<byte>, rest: seq<byte>, decoded: seq<byte>)
    requires Group(e, data) && DecodeChars(rest) == Some(decoded)
    ensures DecodeChars(e + rest) == Some(data + decoded)
  {
    assert (e + rest)[4..] == rest;
  }

  lemma ShortTail(data: seq<byte>)
    requires 0 < |data| < 3
    ensures DecodeChars(Encode(data)) == Some(data)
    ensures forall c :: c in Encode(data) ==> c != PAD
  {
    var a, b := data[0], if |data| > 1 then data[1] else 0;
    EncodesGroup(a, b, 0);
    PartOfGroup(Encode3(a, b, 0), [a, b, 0]);
    assert data == if |data| == 1 then [a] else [a, b];
  }

  lemma {:induction false} DecodeInvertsEncode(data: seq<byte>)
    ensures DecodeChars(Encode(data)) == Some(data)
    ensures forall c :: c in Encode(data) ==> c != PAD
    decreases |data|
  {
    if 0 < |data| < 3 {
      ShortTail(data);
    } else if |data| >= 3 {
      var a, b, c, rest := data[0], data[1], data[2], data[3..];
      EncodesGroup(a, b, c);
      DecodeInvertsEncode(rest);
      GroupThenRest(Encode3(a, b, c), [a, b, c], Encode(rest), rest);
      assert data == [a, b, c] + rest;
    }
  }

  lemma {:induction false} TrimDropsPadding(chars: seq<byte>, n: nat)
    requires forall c :: c in chars ==> c != PAD
    ensures TrimPadding(chars + Padding(n)) == chars
    decreases n
  {
    if n == 0 {
      assert chars + Padding(0) == chars;
      assert chars != [] ==> chars[|chars| - 1] in chars;
    } else {
      assert (chars + Padding(n))[..|chars| + n - 1] == chars + Padding(n - 1);
      TrimDropsPadding(chars, n - 1);
    }
  }

  /** The decoder inverts the standard's encoder on every byte sequence, with any
      amount of padding, the standard amount and none included. */
  lemma DecodesEncoded(data: seq<byte>, padding: nat)
    ensures Decode(Encode(data) + Padding(padding)) == Some(data)
  {
    DecodeInvertsEncode(data);
    TrimDropsPadding(Encode(data), padding);
  }

  lemma ThreeMore(n: nat)
    ensures (n + 3) % 3 == n % 3 && (n + 3 + 2) / 3 == 1 + (n + 2) / 3
  {
  }

  lemma {:induction false} PaddedLength(data: seq<byte>)
    ensures |EncodePadded(data)| == 4 * ((|data| + 2) / 3)
    decreases |data|
  {
    if |data| >= 3 {
      PaddedLength(data[3..]);
      ThreeMore(|data| - 3);
    }
  }

  /** The groups of six bits are those of the number the three bytes form. */
  lemma SplitIsRadix64(a: byte, b: byte, c: byte)
    ensures ((Split0(a) * 64 + Split1(a, b)) * 64 + Split2(b, c)) * 64 + Split3(c) == (a * 256 + b) * 256 + c
  {
    SplitParts(a, b, c);
  }

  /** The standard's padded encoding has four characters for every three bytes begun, and
      decodes to the data. */
  lemma DecodesPadded(data: seq<byte>)
    ensures |EncodePadded(data)| == 4 * ((|data| + 2) / 3)
    ensures Decode(EncodePadded(data)) == Some(data)
  {
    PaddedLength(data);
    DecodesEncoded(data, (3 - |data| % 3) % 3);
  }

  lemma FourMore(n: nat)
    ensures (n + 4) * 3 / 4 == 3 + n * 3 / 4 && (n + 4) % 4 == n % 4
  {
  }

  lemma {:induction false} DecodesWhen(chars: seq<byte>)
    ensures DecodeChars(chars).Some? <==> |chars| % 4 != 1 && AllInAlphabet(chars)
    ensures DecodeChars(chars).Some? ==> |DecodeChars(chars).value| == |chars| * 3 / 4
    decreases |chars|
  {
    if |chars| >= 4 {
      var rest := chars[4..];
      DecodesWhen(rest);
      AllInAlphabetSplit(chars);
      FourMore(|rest|);
    }
  }

  lemma AllInAlphabetSplit(chars: seq<byte>)
    requires |chars| >= 4
    ensures AllInAlphabet(chars)
            <==> InAlphabet(chars[0]) && InAlphabet(chars[1]) && InAlphabet(chars[2]) && InAlphabet(chars[3])
                 && AllInAlphabet(chars[4..])
  {
    if AllInAlphabet(chars[4..]) {
      forall i | 4 <= i < |chars|
        ensures chars[i] == chars[4..][i - 4] && InAlphabet(chars[i])
      {
      }
    }
  }

  /** Decoding succeeds exactly on inputs that, without trailing '=', use only the
      alphabet and do not leave one character over. */
  lemma DecodesExactly(input: seq<byte>)
    ensures var chars := TrimPadding(input);
            Decode(input).Some? <==> |chars| % 4 != 1 && AllInAlphabet(chars)
  {
    DecodesWhen(TrimPadding(input));
  }
}
