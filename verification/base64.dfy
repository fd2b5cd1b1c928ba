/**
 * Convert.ToBase64String and Convert.FromBase64String: the base64 encoding of
 * section 4 of RFC 4648 (alphabet A-Z a-z 0-9 + /, '=' padding to a multiple of
 * four characters). As the .NET decoder does, decoding skips white space
 * (space, tab, CR, LF) and fails on anything else that is not well formed.
 */
module Base64 {
  import opened Wrappers
  import opened Models

  predicate IsBase64Char(c: char)
  {
    ('A' <= c <= 'Z') || ('a' <= c <= 'z') || ('0' <= c <= '9') || c == '+' || c == '/'
  }

  predicate IsWhitespace(c: char)
  {
    c == ' ' || c == '\t' || c == '\r' || c == '\n'
  }

  /** The 6-bit value of an alphabet character (Table 1 of RFC 4648). */
  function IndexOf(c: char): (i: nat)
    requires IsBase64Char(c)
    ensures i < 64
  {
    if 'A' <= c <= 'Z' then c as int - 'A' as int
    else if 'a' <= c <= 'z' then c as int - 'a' as int + 26
    else if '0' <= c <= '9' then c as int - '0' as int + 52
    else if c == '+' then 62
    else 63
  }

  /** The alphabet character for a 6-bit value. */
  function CharOf(i: nat): (c: char)
    requires i < 64
    ensures IsBase64Char(c) && IndexOf(c) == i
  {
    if i < 26 then ('A' as int + i) as char
    else if i < 52 then ('a' as int + i - 26) as char
    else if i < 62 then ('0' as int + i - 52) as char
    else if i == 62 then '+'
    else '/'
  }

  /** Three bytes as four characters. */
  function EncodeTriple(b0: byte, b1: byte, b2: byte): string
  {
    [CharOf(b0 / 4), CharOf(b0 % 4 * 16 + b1 / 16), CharOf(b1 % 16 * 4 + b2 / 64), CharOf(b2 % 64)]
  }

  /** Convert.ToBase64String. */
  function Encode(b: seq<byte>): (s: string)
    ensures |s| % 4 == 0 && (|b| == 0 <==> |s| == 0)
    ensures forall k :: 0 <= k < |s| ==> IsBase64Char(s[k]) || s[k] == '='
    decreases |b|
  {
    if |b| == 0 then ""
    else if |b| == 1 then [CharOf(b[0] / 4), CharOf(b[0] % 4 * 16), '=', '=']
    else if |b| == 2 then [CharOf(b[0] / 4), CharOf(b[0] % 4 * 16 + b[1] / 16), CharOf(b[1] % 16 * 4), '=']
    else EncodeTriple(b[0], b[1], b[2]) + Encode(b[3..])
  }

  /** The encoding of n bytes has 4·⌈n/3⌉ characters. */
  lemma {:induction false} EncodeLength(b: seq<byte>)
    ensures |Encode(b)| == (|b| + 2) / 3 * 4
    decreases |b|
  {
    if |b| > 2 {
      var n := |b[3..]|;
      EncodeLength(b[3..]);
      assert |Encode(b)| == 4 + |Encode(b[3..])|;
      assert (n + 3 + 2) / 3 == (n + 2) / 3 + 1;
    }
  }

  /** The input with its white space removed. */
  function StripWhitespace(s: string): (t: string)
    ensures |t| <= |s|
    ensures forall k :: 0 <= k < |t| ==> !IsWhitespace(t[k])
  {
    if s == [] then []
    else (if IsWhitespace(s[0]) then [] else [s[0]]) + StripWhitespace(s[1..])
  }

  /** Four alphabet characters as three bytes; no padding allowed. */
  function DecodeQuad(q: string): (r: Option<seq<byte>>)
    requires |q| == 4
  {
    if IsBase64Char(q[0]) && IsBase64Char(q[1]) && IsBase64Char(q[2]) && IsBase64Char(q[3]) then
      var i0, i1, i2, i3 := IndexOf(q[0]), IndexOf(q[1]), IndexOf(q[2]), IndexOf(q[3]);
      Some([i0 * 4 + i1 / 16, i1 % 16 * 16 + i2 / 4, i2 % 4 * 64 + i3])
    else None
  }

  /**
   * The last four characters, which may end in "==" (one byte) or "=" (two
   * bytes). The bits that padding leaves over are not checked.
   */
  function DecodeFinal(q: string): (r: Option<seq<byte>>)
    requires |q| == 4
  {
    if q[3] != '=' then DecodeQuad(q)
    else if q[2] == '=' then
      if IsBase64Char(q[0]) && IsBase64Char(q[1]) then
        Some([IndexOf(q[0]) * 4 + IndexOf(q[1]) / 16])
      else None
    else if IsBase64Char(q[0]) && IsBase64Char(q[1]) && IsBase64Char(q[2]) then
      var i0, i1, i2 := IndexOf(q[0]), IndexOf(q[1]), IndexOf(q[2]);
      Some([i0 * 4 + i1 / 16, i1 % 16 * 16 + i2 / 4])
    else None
  }

  /** A white-space-free text of whole four-character blocks. */
  function DecodeBlocks(t: string): (r: Option<seq<byte>>)
    requires |t| % 4 == 0
    decreases |t|
  {
    if |t| == 0 then Some([])
    else if |t| == 4 then DecodeFinal(t)
    else
      match DecodeQuad(t[..4])
      case None => None
      case Some(head) =>
        match DecodeBlocks(t[4..])
        case None => None
        case Some(tail) => Some(head + tail)
  }

  /** Convert.FromBase64String; None where .NET throws a FormatException. */
  function Decode(s: string): (r: Option<seq<byte>>)
    ensures r.Some? ==> |StripWhitespace(s)| % 4 == 0
  {
    var t := StripWhitespace(s);
    if |t| % 4 == 0 then DecodeBlocks(t) else None
  }

  /** A full block of four characters decodes to the three bytes it encodes. */
  lemma TripleRoundTrip(b0: byte, b1: byte, b2: byte)
    ensures DecodeQuad(EncodeTriple(b0, b1, b2)) == Some([b0, b1, b2])
  {
    var i0, i1, i2, i3 := b0 / 4, b0 % 4 * 16 + b1 / 16, b1 % 16 * 4 + b2 / 64, b2 % 64;
    assert i1 / 16 == b0 % 4 && i1 % 16 == b1 / 16;
    assert i2 / 4 == b1 % 16 && i2 % 4 == b2 / 64;
  }

  /** Text without white space is left as it is. */
  lemma {:induction false} StripNothing(s: string)
    requires forall k :: 0 <= k < |s| ==> !IsWhitespace(s[k])
    ensures StripWhitespace(s) == s
  {
    if s != [] {
      StripNothing(s[1..]);
    }
  }

  /** One byte, padded with "==", decodes back. */
  lemma DecodeOne(b0: byte)
    ensures DecodeBlocks(Encode([b0])) == Some([b0])
  {
    var i1 := b0 % 4 * 16;
    assert i1 / 16 == b0 % 4;
  }

  /** Two bytes, padded with "=", decode back. */
  lemma DecodeTwo(b0: byte, b1: byte)
    ensures DecodeBlocks(Encode([b0, b1])) == Some([b0, b1])
  {
    var i1, i2 := b0 % 4 * 16 + b1 / 16, b1 % 16 * 4;
    assert i1 / 16 == b0 % 4 && i1 % 16 == b1 / 16;
    assert i2 / 4 == b1 % 16;
    assert i1 % 16 * 16 + i2 / 4 == b1;
  }

  /** Three bytes, one unpadded block, decode back. */
  lemma DecodeThree(b0: byte, b1: byte, b2: byte)
    ensures DecodeBlocks(Encode([b0, b1, b2])) == Some([b0, b1, b2])
  {
    var b := [b0, b1, b2];
    assert b[3..] == [];
    assert Encode(b) == EncodeTriple(b0, b1, b2);
    TripleRoundTrip(b0, b1, b2);
  }

  /** A full leading block followed by further blocks decodes block by block. */
  lemma DecodeBlocksCons(t: string, rest: string, head: seq<byte>, tail: seq<byte>)
    requires |t| == 4 && |rest| % 4 == 0 && |rest| > 0
    requires DecodeQuad(t) == Some(head) && DecodeBlocks(rest) == Some(tail)
    ensures DecodeBlocks(t + rest) == Some(head + tail)
  {
    var s := t + rest;
    assert s[..4] == t && s[4..] == rest;
  }

  /** Beyond three bytes, the encoding is the first block followed by the rest. */
  lemma EncodeCons(b: seq<byte>)
    requires |b| > 3
    ensures Encode(b) == EncodeTriple(b[0], b[1], b[2]) + Encode(b[3..])
  {
  }

  /** The inductive step: a leading triple in front of a round-tripping rest. */
  lemma {:induction false} DecodeBlocksEncodeStep(b: seq<byte>)
    requires |b| > 3 && DecodeBlocks(Encode(b[3..])) == Some(b[3..])
    ensures DecodeBlocks(Encode(b)) == Some(b)
  {
    EncodeCons(b);
    TripleRoundTrip(b[0], b[1], b[2]);
    DecodeBlocksCons(EncodeTriple(b[0], b[1], b[2]), Encode(b[3..]), [b[0], b[1], b[2]], b[3..]);
    assert b == [b[0], b[1], b[2]] + b[3..];
  }

  /** The blocks of any encoding decode to the encoded bytes. */
  lemma {:induction false} DecodeBlocksEncode(b: seq<byte>)
    ensures DecodeBlocks(Encode(b)) == Some(b)
    decreases |b|
  {
    if |b| == 1 {
      assert b == [b[0]];
      DecodeOne(b[0]);
    } else if |b| == 2 {
      assert b == [b[0], b[1]];
      DecodeTwo(b[0], b[1]);
    } else if |b| == 3 {
      assert b == [b[0], b[1], b[2]];
      DecodeThree(b[0], b[1], b[2]);
    } else if |b| > 3 {
      DecodeBlocksEncode(b[3..]);
      DecodeBlocksEncodeStep(b);
    }
  }

  /** Decoding what was encoded gives back the same bytes. */
  lemma DecodeEncode(b: seq<byte>)
    ensures Decode(Encode(b)) == Some(b)
  {
    var s := Encode(b);
    assert forall k :: 0 <= k < |s| ==> !IsWhitespace(s[k]);
    StripNothing(s);
    DecodeBlocksEncode(b);
  }
}
