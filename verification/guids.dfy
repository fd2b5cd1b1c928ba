/**
 * System.Guid as the storage layer uses it: a 128-bit identifier, its canonical
 * text form ("D" format: 32 lower-case hexadecimal digits in groups 8-4-4-4-12)
 * produced by Guid.ToString(), and Guid.Parse for that form.
 *
 * A Guid is modelled as the 128-bit number whose hexadecimal digits, most
 * significant first, are the digits its text form spells.
 */
module Guids {
  import opened Wrappers

  /** 16 to the power n. */
  function Pow16(n: nat): (p: nat)
    ensures p >= 1
  {
    if n == 0 then 1 else 16 * Pow16(n - 1)
  }

  type Guid = g: nat | g < Pow16(32)

  /** Guid.Empty, the value a Guid property holds until it is set. */
  const Empty: Guid := 0

  predicate IsHexDigit(c: char)
  {
    ('0' <= c <= '9') || ('a' <= c <= 'f') || ('A' <= c <= 'F')
  }

  predicate AllHex(s: string)
  {
    forall k :: 0 <= k < |s| ==> IsHexDigit(s[k])
  }

  /** The value of one hexadecimal digit; upper and lower case are both accepted. */
  function DigitValue(c: char): (d: nat)
    requires IsHexDigit(c)
    ensures d < 16
  {
    if c <= '9' then c as int - '0' as int
    else if c <= 'F' then c as int - 'A' as int + 10
    else c as int - 'a' as int + 10
  }

  /** The lower-case digit that stands for d. */
  function HexChar(d: nat): (c: char)
    requires d < 16
    ensures IsLowerHexDigit(c) && DigitValue(c) == d
  {
    if d < 10 then ('0' as int + d) as char else ('a' as int + d - 10) as char
  }

  predicate IsLowerHexDigit(c: char)
  {
    ('0' <= c <= '9') || ('a' <= c <= 'f')
  }

  /** The last n hexadecimal digits of v, most significant first. */
  function HexDigits(v: nat, n: nat): (s: string)
    ensures |s| == n && AllHex(s)
    ensures forall k :: 0 <= k < |s| ==> IsLowerHexDigit(s[k])
  {
    if n == 0 then [] else HexDigits(v / 16, n - 1) + [HexChar(v % 16)]
  }

  /** The number a string of hexadecimal digits spells. */
  function HexValue(s: string): (v: nat)
    requires AllHex(s)
    ensures v < Pow16(|s|)
  {
    if s == [] then 0
    else
      var init := s[..|s| - 1];
      assert AllHex(init);
      16 * HexValue(init) + DigitValue(s[|s| - 1])
  }

  /** Reading back the digits of a number that fits in n digits gives the number. */
  lemma {:induction false} HexValueOfDigits(v: nat, n: nat)
    requires v < Pow16(n)
    ensures HexValue(HexDigits(v, n)) == v
  {
    if n > 0 {
      var s := HexDigits(v, n);
      assert s[..n - 1] == HexDigits(v / 16, n - 1);
      assert s[n - 1] == HexChar(v % 16);
      HexValueOfDigits(v / 16, n - 1);
    }
  }

  /** The positions of the four hyphens in the 8-4-4-4-12 layout. */
  predicate IsHyphenPos(k: int)
  {
    k == 8 || k == 13 || k == 18 || k == 23
  }

  /** The "D" format: 36 characters, hyphens at their places, hexadecimal digits of either case elsewhere. */
  predicate IsDFormat(s: string)
  {
    |s| == 36 && forall k :: 0 <= k < 36 ==> if IsHyphenPos(k) then s[k] == '-' else IsHexDigit(s[k])
  }

  /** Where the j-th of the 32 digits stands in the 36-character text. */
  function TextIndex(j: int): int
  {
    j + (if j >= 8 then 1 else 0) + (if j >= 12 then 1 else 0) + (if j >= 16 then 1 else 0) + (if j >= 20 then 1 else 0)
  }

  /** Which of the 32 digits the k-th character of the text is, when it is not a hyphen. */
  function DigitIndex(k: int): int
  {
    k - (if k > 8 then 1 else 0) - (if k > 13 then 1 else 0) - (if k > 18 then 1 else 0) - (if k > 23 then 1 else 0)
  }

  /** The 32 digits laid out in groups 8-4-4-4-12 with hyphens between them. */
  function Grouped(h: string): (s: string)
    requires |h| == 32
    ensures |s| == 36
  {
    seq(36, k requires 0 <= k < 36 => if IsHyphenPos(k) then '-' else h[DigitIndex(k)])
  }

  /** The 32 digits of a 36-character text, with the hyphen places skipped. */
  function Ungrouped(s: string): (h: string)
    requires |s| == 36
    ensures |h| == 32
  {
    seq(32, j requires 0 <= j < 32 => s[TextIndex(j)])
  }

  /** Taking the hyphens out of a grouped text gives back its digits. */
  lemma UngroupedGrouped(h: string)
    requires |h| == 32
    ensures Ungrouped(Grouped(h)) == h
  {
    var u := Ungrouped(Grouped(h));
    forall j | 0 <= j < 32
      ensures u[j] == h[j]
    {
      assert !IsHyphenPos(TextIndex(j)) && DigitIndex(TextIndex(j)) == j;
    }
  }

  /** With the hyphens in place, a text is in the "D" format exactly when its 32 digits are all hexadecimal. */
  lemma DFormatDigits(s: string)
    requires |s| == 36 && s[8] == '-' && s[13] == '-' && s[18] == '-' && s[23] == '-'
    ensures IsDFormat(s) <==> AllHex(Ungrouped(s))
  {
    var h := Ungrouped(s);
    if AllHex(h) {
      forall k | 0 <= k < 36 && !IsHyphenPos(k)
        ensures IsHexDigit(s[k])
      {
        assert TextIndex(DigitIndex(k)) == k;
        assert IsHexDigit(h[DigitIndex(k)]);
      }
    }
    if IsDFormat(s) {
      forall j | 0 <= j < 32
        ensures IsHexDigit(h[j])
      {
        assert !IsHyphenPos(TextIndex(j));
      }
    }
  }

  /** Guid.ToString(): the "D" format in lower case, e.g. 0f8fad5b-d9cb-469f-a165-70867728950e. */
  function ToString(g: Guid): (s: string)
    ensures IsDFormat(s)
    ensures forall k :: 0 <= k < 36 && !IsHyphenPos(k) ==> IsLowerHexDigit(s[k])
  {
    Grouped(HexDigits(g, 32))
  }

  /**
   * Guid.Parse on the "D" format: four hyphens at their places and 32
   * hexadecimal digits of either case; anything else is rejected (None).
   */
  function Parse(s: string): (r: Option<Guid>)
    ensures r.Some? <==> IsDFormat(s)
  {
    if |s| == 36 && s[8] == '-' && s[13] == '-' && s[18] == '-' && s[23] == '-' then
      DFormatDigits(s);
      var h := Ungrouped(s);
      if AllHex(h) then Some(HexValue(h)) else None
    else None
  }

  /** Parsing the text of a Guid gives back that Guid. */
  lemma ParseToString(g: Guid)
    ensures Parse(ToString(g)) == Some(g)
  {
    UngroupedGrouped(HexDigits(g, 32));
    HexValueOfDigits(g, 32);
  }

  /** Distinct Guids have distinct texts, so a blob name stands for one Guid only. */
  lemma ToStringInjective(a: Guid, b: Guid)
    ensures ToString(a) == ToString(b) ==> a == b
  {
    ParseToString(a);
    ParseToString(b);
  }
}
