/** The bytes of a string, as Go's conversion `[]byte(s)` gives them: Go
    strings hold UTF-8, so a string of Unicode scalar values becomes the
    concatenation of the UTF-8 encodings of its characters (RFC 3629
    section 3). */
module Utf8 {

  import opened Wrappers

  /** The one to four UTF-8 bytes of a scalar value. */
  function EncodeChar(c: char): (b: seq<byte>)
    ensures 1 <= |b| <= 4
    ensures |b| == 1 <==> c as int < 0x80
    ensures |b| == 1 ==> b[0] == c as int
  {
    var n := c as int;
    if n < 0x80 then [n]
    else if n < 0x800 then [0xC0 + n / 0x40, 0x80 + n % 0x40]
    else if n < 0x1_0000 then [0xE0 + n / 0x1000, 0x80 + (n / 0x40) % 0x40, 0x80 + n % 0x40]
    else [0xF0 + n / 0x4_0000, 0x80 + (n / 0x1000) % 0x40, 0x80 + (n / 0x40) % 0x40, 0x80 + n % 0x40]
  }

  predicate IsAscii(s: string) {
    forall i :: 0 <= i < |s| ==> s[i] as int < 0x80
  }

  /** The UTF-8 bytes of a string: one to four per character, and for an
      ASCII string exactly one per character, equal to its code. */
  function Encode(s: string): (b: seq<byte>)
    ensures |s| <= |b| <= 4 * |s|
    ensures IsAscii(s) ==> |b| == |s| && forall i :: 0 <= i < |s| ==> b[i] == s[i] as int
  {
    if s == [] then []
    else
      var rest := Encode(s[1..]);
      assert IsAscii(s) ==> IsAscii(s[1..]);
      EncodeChar(s[0]) + rest
  }

  /** The bytes of a concatenation are the bytes of its parts, in order. */
  lemma {:induction false} EncodeAppend(s: string, t: string)
    ensures Encode(s + t) == Encode(s) + Encode(t)
  {
    if s == [] {
      assert s + t == t;
    } else {
      assert (s + t)[0] == s[0] && (s + t)[1..] == s[1..] + t;
      EncodeAppend(s[1..], t);
    }
  }

  /** Two ASCII strings with the same bytes are the same string. */
  lemma AsciiInjective(s: string, t: string)
    requires IsAscii(s) && IsAscii(t)
    requires Encode(s) == Encode(t)
    ensures s == t
  {
    assert forall i :: 0 <= i < |s| ==> s[i] as int == Encode(s)[i] == t[i] as int;
  }

  /** The bytes of the stamp `2024-01-01` are its ASCII codes. */
  lemma StampExample()
    ensures Encode("2024-01-01") == [50, 48, 50, 52, 45, 48, 49, 45, 48, 49]
  {
    AsciiCodes("2024-01-01", [50, 48, 50, 52, 45, 48, 49, 45, 48, 49]);
  }

  /** An ASCII string encodes to the byte string of its codes. */
  lemma AsciiCodes(s: string, b: seq<byte>)
    requires IsAscii(s) && |b| == |s|
    requires forall i :: 0 <= i < |s| ==> b[i] == s[i] as int
    ensures Encode(s) == b
  {
  }
}
