/** Unpadded base64 over the standard alphabet of RFC 4648 section 4 (the
    encoding Go calls `base64.RawStdEncoding`): input bytes are taken in
    groups of three, each group becomes four characters, and a final group of
    one or two bytes becomes two or three characters, with no `=` padding
    (section 3.2 of RFC 4648 allows padding to be left out).

    The decoder is the canonical decoder for that encoding: it accepts only
    alphabet characters, never a length that leaves one character over, and
    requires the unused low bits of a short final group to be zero. It is the
    partner against which the encoder is proved. */
module Base64 {

  import opened Wrappers

  /** The character that encodes the 6-bit value `v`. */
  function Digit(v: int): (c: char)
    requires 0 <= v < 64
  {
    if v < 26 then ('A' as int + v) as char
    else if v < 52 then ('a' as int + (v - 26)) as char
    else if v < 62 then ('0' as int + (v - 52)) as char
    else if v == 62 then '+'
    else '/'
  }

  /** `c` is one of the 64 characters of the alphabet. */
  predicate IsDigit(c: char) {
    ('A' <= c <= 'Z') || ('a' <= c <= 'z') || ('0' <= c <= '9') || c == '+' || c == '/'
  }

  /** The 6-bit value a character of the alphabet stands for. */
  function DigitValue(c: char): (v: int)
    requires IsDigit(c)
    ensures 0 <= v < 64
    ensures Digit(v) == c
  {
    if 'A' <= c <= 'Z' then c as int - 'A' as int
    else if 'a' <= c <= 'z' then c as int - 'a' as int + 26
    else if '0' <= c <= '9' then c as int - '0' as int + 52
    else if c == '+' then 62
    else 63
  }

  lemma DigitIsAlphabet(v: int)
    requires 0 <= v < 64
    ensures IsDigit(Digit(v)) && DigitValue(Digit(v)) == v
    ensures Digit(v) != '='
  {
  }

  /** Every string of alphabet characters. */
  predicate AllDigits(s: string) {
    forall i :: 0 <= i < |s| ==> IsDigit(s[i])
  }

  /** The four 6-bit values of a group of three bytes. */
  function Split3(b0: byte, b1: byte, b2: byte): (v: seq<int>)
    ensures |v| == 4 && forall i :: 0 <= i < 4 ==> 0 <= v[i] < 64
  {
    [b0 / 4, (b0 % 4) * 16 + b1 / 16, (b1 % 16) * 4 + b2 / 64, b2 % 64]
  }

  /** The three bytes packed in four 6-bit values. */
  function Join4(c0: int, c1: int, c2: int, c3: int): (b: seq<byte>)
    requires 0 <= c0 < 64 && 0 <= c1 < 64 && 0 <= c2 < 64 && 0 <= c3 < 64
    ensures |b| == 3
  {
    [c0 * 4 + c1 / 16, (c1 % 16) * 16 + c2 / 4, (c2 % 4) * 64 + c3]
  }

  /** The string of characters for a sequence of 6-bit values. */
  function Digits(v: seq<int>): (s: string)
    requires forall i :: 0 <= i < |v| ==> 0 <= v[i] < 64
    ensures |s| == |v| && AllDigits(s) && '=' !in s
    ensures forall i :: 0 <= i < |v| ==> DigitValue(s[i]) == v[i]
  {
    seq(|v|, i requires 0 <= i < |v| => DigitIsAlphabet(v[i]); Digit(v[i]))
  }

  /** Three bytes become four characters: the 24 bits read as four 6-bit values. */
  function EncodeGroup(b0: byte, b1: byte, b2: byte): (s: string)
  {
    Digits(Split3(b0, b1, b2))
  }

  /** A final group of one byte: 8 bits padded with four zero bits to two 6-bit values. */
  function EncodeTail1(b0: byte): (s: string)
  {
    Digits([b0 / 4, (b0 % 4) * 16])
  }

  /** A final group of two bytes: 16 bits padded with two zero bits to three 6-bit values. */
  function EncodeTail2(b0: byte, b1: byte): (s: string)
  {
    Digits([b0 / 4, (b0 % 4) * 16 + b1 / 16, (b1 % 16) * 4])
  }

  /** Unpadded standard base64 of `b`: the output has ceil(8n/6) characters for
      n input bytes, all from the alphabet, and never the padding character. */
  function Encode(b: seq<byte>): (s: string)
    ensures |s| == (8 * |b| + 5) / 6
    ensures AllDigits(s)
    ensures '=' !in s
    decreases |b|
  {
    if |b| == 0 then []
    else if |b| == 1 then EncodeTail1(b[0])
    else if |b| == 2 then EncodeTail2(b[0], b[1])
    else EncodeGroup(b[0], b[1], b[2]) + Encode(b[3..])
  }

  /** The bytes of a final group of fewer than four characters; `None` for a
      single character, a character outside the alphabet, or unused bits that
      are not zero. */
  function DecodeFinal(s: string): (r: Option<seq<byte>>)
    requires |s| < 4
  {
    if |s| == 0 then Some([])
    else if |s| == 1 || !AllDigits(s) then None
    else
      var c0, c1 := DigitValue(s[0]), DigitValue(s[1]);
      if |s| == 2 then
        if c1 % 16 != 0 then None else Some(Join4(c0, c1, 0, 0)[..1])
      else
        var c2 := DigitValue(s[2]);
        if c2 % 4 != 0 then None else Some(Join4(c0, c1, c2, 0)[..2])
  }

  /** The three bytes of a full group of four characters; `None` for a
      character outside the alphabet. */
  function DecodeQuad(g: string): (r: Option<seq<byte>>)
    requires |g| == 4
  {
    if !AllDigits(g) then None
    else Some(Join4(DigitValue(g[0]), DigitValue(g[1]), DigitValue(g[2]), DigitValue(g[3])))
  }

  /** Canonical decoding of unpadded base64: full groups of four characters,
      then a final group of two or three. */
  function Decode(s: string): (r: Option<seq<byte>>)
    ensures r.Some? ==> |r.value| == |s| * 6 / 8
    decreases |s|
  {
    if |s| < 4 then DecodeFinal(s)
    else
      match (DecodeQuad(s[..4]), Decode(s[4..]))
      case (Some(q), Some(rest)) => Some(q + rest)
      case _ => None
  }

  /** Packing undoes splitting. */
  lemma JoinSplit(b0: byte, b1: byte, b2: byte)
    ensures var v := Split3(b0, b1, b2); Join4(v[0], v[1], v[2], v[3]) == [b0, b1, b2]
  {
    assert ((b0 % 4) * 16 + b1 / 16) / 16 == b0 % 4;
    assert ((b0 % 4) * 16 + b1 / 16) % 16 == b1 / 16;
    assert ((b1 % 16) * 4 + b2 / 64) / 4 == b1 % 16;
    assert ((b1 % 16) * 4 + b2 / 64) % 4 == b2 / 64;
    assert b0 == (b0 / 4) * 4 + b0 % 4;
    assert b1 == (b1 / 16) * 16 + b1 % 16;
    assert b2 == (b2 / 64) * 64 + b2 % 64;
  }

  /** Splitting undoes packing. */
  lemma SplitJoin(c0: int, c1: int, c2: int, c3: int)
    requires 0 <= c0 < 64 && 0 <= c1 < 64 && 0 <= c2 < 64 && 0 <= c3 < 64
    ensures var b := Join4(c0, c1, c2, c3); Split3(b[0], b[1], b[2]) == [c0, c1, c2, c3]
  {
    assert (c0 * 4 + c1 / 16) / 4 == c0 && (c0 * 4 + c1 / 16) % 4 == c1 / 16;
    assert ((c1 % 16) * 16 + c2 / 4) / 16 == c1 % 16 && ((c1 % 16) * 16 + c2 / 4) % 16 == c2 / 4;
    assert ((c2 % 4) * 64 + c3) / 64 == c2 % 4 && ((c2 % 4) * 64 + c3) % 64 == c3;
    assert c1 == (c1 / 16) * 16 + c1 % 16;
    assert c2 == (c2 / 4) * 4 + c2 % 4;
  }

  /** Characters with the same values are the same characters. */
  lemma DigitsDetermined(s: string, v: seq<int>)
    requires AllDigits(s) && |s| == |v|
    requires forall i :: 0 <= i < |v| ==> 0 <= v[i] < 64 && DigitValue(s[i]) == v[i]
    ensures Digits(v) == s
  {
  }

  /** A final group of one byte decodes back to that byte. */
  lemma DecodeTail1(b0: byte)
    ensures Decode(EncodeTail1(b0)) == Some([b0])
  {
    JoinSplit(b0, 0, 0);
    var v := Split3(b0, 0, 0);
    assert v[..2] == [b0 / 4, (b0 % 4) * 16];
    assert v[2] == 0 && v[3] == 0 && v[1] % 16 == 0;
    assert Join4(v[0], v[1], 0, 0)[..1] == [b0];
  }

  /** A final group of two bytes decodes back to those bytes. */
  lemma DecodeTail2(b0: byte, b1: byte)
    ensures Decode(EncodeTail2(b0, b1)) == Some([b0, b1])
  {
    JoinSplit(b0, b1, 0);
    var s := EncodeTail2(b0, b1);
    var v := Split3(b0, b1, 0);
    assert v[..3] == [b0 / 4, (b0 % 4) * 16 + b1 / 16, (b1 % 16) * 4];
    assert v[3] == 0 && v[2] % 4 == 0;
    assert Join4(v[0], v[1], v[2], 0)[..2] == [b0, b1];
    assert s == Digits(v[..3]);
  }

  /** A full group decodes back to its three bytes. */
  lemma DecodeGroup(b0: byte, b1: byte, b2: byte)
    ensures DecodeQuad(EncodeGroup(b0, b1, b2)) == Some([b0, b1, b2])
  {
    JoinSplit(b0, b1, b2);
  }

  /** Decoding undoes encoding: the original bytes come back for every input. */
  lemma {:induction false} DecodeEncode(b: seq<byte>)
    ensures Decode(Encode(b)) == Some(b)
    decreases |b|
  {
    if |b| == 1 {
      DecodeTail1(b[0]);
      assert b == [b[0]];
    } else if |b| == 2 {
      DecodeTail2(b[0], b[1]);
      assert b == [b[0], b[1]];
    } else if |b| > 2 {
      var g, t := EncodeGroup(b[0], b[1], b[2]), Encode(b[3..]);
      EncodeFirstGroup(b);
      DecodeEncode(b[3..]);
      DecodeGroup(b[0], b[1], b[2]);
      assert (g + t)[..4] == g && (g + t)[4..] == t;
      assert b == [b[0], b[1], b[2]] + b[3..];
    }
  }

  /** A final group that the decoder accepts is the encoding of its bytes. */
  lemma EncodeFinal(s: string)
    requires |s| < 4 && DecodeFinal(s).Some?
    ensures Encode(DecodeFinal(s).value) == s
  {
    if |s| == 2 {
      EncodeFinal2(s);
    } else if |s| == 3 {
      EncodeFinal3(s);
    }
  }

  /** Two characters that decode to one byte are that byte's encoding. */
  lemma EncodeFinal2(s: string)
    requires |s| == 2 && DecodeFinal(s).Some?
    ensures Encode(DecodeFinal(s).value) == s
  {
    var c0, c1 := DigitValue(s[0]), DigitValue(s[1]);
    var b := Join4(c0, c1, 0, 0);
    SplitJoin(c0, c1, 0, 0);
    assert b[1] == 0 && c1 % 16 == 0;
    assert DecodeFinal(s).value == [b[0]];
    assert Encode([b[0]]) == EncodeTail1(b[0]) == Digits([c0, c1]);
    DigitsDetermined(s, [c0, c1]);
  }

  /** Three characters that decode to two bytes are those bytes' encoding. */
  lemma EncodeFinal3(s: string)
    requires |s| == 3 && DecodeFinal(s).Some?
    ensures Encode(DecodeFinal(s).value) == s
  {
    var c0, c1, c2 := DigitValue(s[0]), DigitValue(s[1]), DigitValue(s[2]);
    var b := Join4(c0, c1, c2, 0);
    SplitJoin(c0, c1, c2, 0);
    assert b[2] == 0 && c2 % 4 == 0;
    assert DecodeFinal(s).value == [b[0], b[1]];
    assert Encode([b[0], b[1]]) == EncodeTail2(b[0], b[1]) == Digits([c0, c1, c2]);
    DigitsDetermined(s, [c0, c1, c2]);
  }

  /** A full group that the decoder accepts is the encoding of its bytes. */
  lemma EncodeQuad(g: string)
    requires |g| == 4 && DecodeQuad(g).Some?
    ensures var q := DecodeQuad(g).value; EncodeGroup(q[0], q[1], q[2]) == g
  {
    var c0, c1, c2, c3 := DigitValue(g[0]), DigitValue(g[1]), DigitValue(g[2]), DigitValue(g[3]);
    SplitJoin(c0, c1, c2, c3);
    DigitsDetermined(g, [c0, c1, c2, c3]);
  }

  /** Encoding undoes decoding: a string the decoder accepts is exactly the
      encoding of what it decodes to, so the encoder is a bijection onto the
      canonical strings. */
  lemma {:induction false} EncodeDecode(s: string)
    requires Decode(s).Some?
    ensures Encode(Decode(s).value) == s
    decreases |s|
  {
    if |s| < 4 {
      EncodeFinal(s);
    } else {
      var q, rest := DecodeQuad(s[..4]).value, Decode(s[4..]).value;
      var b := q + rest;
      EncodeQuad(s[..4]);
      EncodeDecode(s[4..]);
      assert b[..3] == q && b[3..] == rest;
      assert Encode(b) == EncodeGroup(b[0], b[1], b[2]) + Encode(b[3..]);
      assert s == s[..4] + s[4..];
    }
  }

  /** Different byte strings have different encodings. */
  lemma EncodeInjective(a: seq<byte>, b: seq<byte>)
    requires Encode(a) == Encode(b)
    ensures a == b
  {
    DecodeEncode(a);
    DecodeEncode(b);
  }

  /** A group of three bytes with the 6-bit values `v` encodes to the
      characters of those values. */
  lemma GroupVector(b0: byte, b1: byte, b2: byte, v: seq<int>)
    requires Split3(b0, b1, b2) == v
    ensures EncodeGroup(b0, b1, b2) == [Digit(v[0]), Digit(v[1]), Digit(v[2]), Digit(v[3])]
  {
  }

  /** Encoding a string of three or more bytes writes its first group, then
      the encoding of the rest. */
  lemma EncodeFirstGroup(b: seq<byte>)
    requires |b| >= 3
    ensures Encode(b) == EncodeGroup(b[0], b[1], b[2]) + Encode(b[3..])
  {
  }

  /** The groups of the test vectors of RFC 4648 section 10. */
  lemma RfcGroups()
    ensures EncodeTail1(102) == "Zg"
    ensures EncodeTail2(102, 111) == "Zm8"
    ensures EncodeGroup(102, 111, 111) == "Zm9v"
    ensures EncodeGroup(98, 97, 114) == "YmFy"
  {
    GroupVector(102, 111, 111, [25, 38, 61, 47]);
    GroupVector(98, 97, 114, [24, 38, 5, 50]);
  }

  /** The unpadded forms of the test vectors of RFC 4648 section 10:
      "f", "fo", "foo" and "foobar". */
  lemma TestVectors()
    ensures Encode([102]) == "Zg"
    ensures Encode([102, 111]) == "Zm8"
    ensures Encode([102, 111, 111]) == "Zm9v"
    ensures Encode([102, 111, 111, 98, 97, 114]) == "Zm9vYmFy"
  {
    RfcGroups();
    var b: seq<byte> := [102, 111, 111, 98, 97, 114];
    assert b[..3][3..] == [] && b[3..] == [98, 97, 114] && b[3..][3..] == [];
    EncodeFirstGroup(b[..3]);
    EncodeFirstGroup(b[3..]);
    EncodeFirstGroup(b);
  }

  /** The groups of the bytes of the stamp `2024-01-01`. */
  lemma StampGroups()
    ensures EncodeGroup(50, 48, 50) == "MjAy"
    ensures EncodeGroup(52, 45, 48) == "NC0w"
    ensures EncodeGroup(49, 45, 48) == "MS0w"
    ensures EncodeTail1(49) == "MQ"
  {
    GroupVector(50, 48, 50, [12, 35, 0, 50]);
    GroupVector(52, 45, 48, [13, 2, 52, 48]);
    GroupVector(49, 45, 48, [12, 18, 52, 48]);
  }

  /** The bytes of the stamp `2024-01-01`, group by group. */
  lemma StampVector()
    ensures Encode([50, 48, 50, 52, 45, 48, 49, 45, 48, 49]) == "MjAyNC0wMS0wMQ"
  {
    var b: seq<byte> := [50, 48, 50, 52, 45, 48, 49, 45, 48, 49];
    ThreeGroupsAndOne(b);
    StampGroups();
    assert "MjAy" + "NC0w" + "MS0w" + "MQ" == "MjAyNC0wMS0wMQ";
  }

  /** Ten bytes encode as three full groups and a final group of one. */
  lemma ThreeGroupsAndOne(b: seq<byte>)
    requires |b| == 10
    ensures Encode(b) == EncodeGroup(b[0], b[1], b[2]) + EncodeGroup(b[3], b[4], b[5])
                         + EncodeGroup(b[6], b[7], b[8]) + EncodeTail1(b[9])
  {
    EncodeFirstGroup(b);
    EncodeFirstGroup(b[3..]);
    EncodeFirstGroup(b[6..]);
  }
}
