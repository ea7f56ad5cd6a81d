/** Decimal numbers and white space in text. */
module Decimals {
  import opened Options
  import opened ReadSets

  function Digit(d: nat): char
    requires d < 10
  {
    '0' + d as char
  }

  predicate IsDigit(c: char) {
    '0' <= c <= '9'
  }

  function DigitValue(c: char): nat
    requires IsDigit(c)
  {
    c as int - '0' as int
  }

  /** The digits of a number, as printed. */
  function Decimal(n: nat): (text: string)
    ensures text != "" && forall k :: 0 <= k < |text| ==> IsDigit(text[k])
  {
    if n < 10 then [Digit(n)] else Decimal(n / 10) + [Digit(n % 10)]
  }

  predicate Digital(text: string) {
    forall k :: 0 <= k < |text| ==> IsDigit(text[k])
  }

  function Value(text: string): nat
    requires Digital(text)
  {
    if text == "" then 0
    else 10 * Value(text[..|text| - 1]) + DigitValue(text[|text| - 1])
  }

  lemma {:induction false} DecimalValue(n: nat)
    ensures Value(Decimal(n)) == n
  {
    var text := Decimal(n);
    if n < 10 {
      assert text[..0] == "";
    } else {
      DecimalValue(n / 10);
      assert text[..|text| - 1] == Decimal(n / 10);
    }
  }

  lemma DigitChars(d: nat)
    requires d < 10
    ensures Digit(d) == "0123456789"[d] && DigitValue("0123456789"[d]) == d
  {
  }

  lemma DigitIs(c: char)
    ensures IsDigit(c) <==> c in "0123456789"
  {
    if IsDigit(c) {
      assert "0123456789"[DigitValue(c)] == c;
    }
  }

  /** Parses an unsigned 64-bit number: digits, with an optional plus sign. */
  function ParseNumber(text: string): Option<u64> {
    var digits := if text != "" && text[0] == '+' then text[1..] else text;
    if digits == "" || !Digital(digits) then None
    else if Value(digits) > U64_MAX then None
    else Some(Value(digits) as u64)
  }

  lemma PrintedNumberParses(n: u64)
    ensures ParseNumber(Decimal(n as nat)) == Some(n)
  {
    DecimalValue(n as nat);
    assert IsDigit(Decimal(n as nat)[0]);
  }

  /** What is read as a number: digits below 2^64, after a plus sign or not, and nothing else. */
  lemma ParseNumberIff(text: string, digits: string)
    requires text == digits || text == "+" + digits
    requires digits == "" || digits[0] != '+'
    ensures ParseNumber(text).Some? <==>
              && digits != "" && (forall k :: 0 <= k < |digits| ==> digits[k] in "0123456789")
              && Digital(digits) && Value(digits) < 0x1_0000_0000_0000_0000
    ensures ParseNumber(text).Some? ==> Digital(digits) && ParseNumber(text).value as nat == Value(digits)
  {
    hide Value, IsDigit;
    forall k | 0 <= k < |digits| ensures IsDigit(digits[k]) <==> digits[k] in "0123456789" {
      DigitIs(digits[k]);
    }
    assert (if text != "" && text[0] == '+' then text[1..] else text) == digits;
    assert (forall k :: 0 <= k < |digits| ==> digits[k] in "0123456789") <==> Digital(digits);
  }

  // ----- white space -----

  predicate IsSpace(c: char) {
    || '\U{9}' <= c <= '\U{D}' || c == ' ' || c == '\U{85}' || c == '\U{A0}' || c == '\U{1680}'
    || '\U{2000}' <= c <= '\U{200A}' || c == '\U{2028}' || c == '\U{2029}' || c == '\U{202F}'
    || c == '\U{205F}' || c == '\U{3000}'
  }

  function TrimStart(text: string): (r: string)
    ensures r != "" ==> !IsSpace(r[0])
    ensures text != "" && !IsSpace(text[0]) ==> r == text
  {
    if text != "" && IsSpace(text[0]) then TrimStart(text[1..]) else text
  }

  function TrimEnd(text: string): (r: string)
    ensures r != "" ==> !IsSpace(r[|r| - 1])
    ensures r <= text
    ensures text != "" && !IsSpace(text[|text| - 1]) ==> r == text
  {
    if text != "" && IsSpace(text[|text| - 1]) then TrimEnd(text[..|text| - 1]) else text
  }

  function Trim(text: string): string {
    TrimEnd(TrimStart(text))
  }

  /** The characters of Unicode's `White_Space`. */
  lemma SpacesAre(c: char)
    ensures IsSpace(c) <==>
              c in "\U{9}\U{A}\U{B}\U{C}\U{D} \U{85}\U{A0}\U{1680}\U{2000}\U{2001}\U{2002}\U{2003}\U{2004}\U{2005}" +
                   "\U{2006}\U{2007}\U{2008}\U{2009}\U{200A}\U{2028}\U{2029}\U{202F}\U{205F}\U{3000}"
  {
  }

  lemma {:induction false} TrimStartIs(text: string, i: nat)
    requires i <= |text| && (forall k :: 0 <= k < i ==> IsSpace(text[k])) && (i < |text| ==> !IsSpace(text[i]))
    ensures TrimStart(text) == text[i..]
  {
    if i > 0 {
      TrimStartIs(text[1..], i - 1);
    }
  }

  lemma {:induction false} TrimEndIs(text: string, j: nat)
    requires j <= |text| && (forall k :: j <= k < |text| ==> IsSpace(text[k])) && (j > 0 ==> !IsSpace(text[j - 1]))
    ensures TrimEnd(text) == text[..j]
    decreases |text|
  {
    if j < |text| {
      TrimEndIs(text[..|text| - 1], j);
    }
  }

  /** Trimming leaves what stands between the white space at the two ends. */
  lemma TrimIs(text: string, i: nat, j: nat)
    requires i < j <= |text| && !IsSpace(text[i]) && !IsSpace(text[j - 1])
    requires forall k :: 0 <= k < i || j <= k < |text| ==> IsSpace(text[k])
    ensures Trim(text) == text[i..j]
  {
    hide IsSpace;
    TrimStartIs(text, i);
    TrimEndIs(text[i..], j - i);
  }

  lemma TrimBlank(text: string)
    requires forall k :: 0 <= k < |text| ==> IsSpace(text[k])
    ensures Trim(text) == ""
  {
    hide IsSpace;
    TrimStartIs(text, |text|);
  }

  /** Text that neither starts nor ends with white space. */
  predicate Tight(text: string) {
    text != "" ==> !IsSpace(text[0]) && !IsSpace(text[|text| - 1])
  }

  lemma TrimTight(text: string)
    ensures Tight(Trim(text))
    ensures Tight(text) <==> Trim(text) == text
  {
  }

  /** Trimming keeps a stretch of the text. */
  lemma {:induction false} TrimStartWithin(text: string, c: char)
    requires c in TrimStart(text)
    ensures c in text
  {
    if text != "" && IsSpace(text[0]) {
      TrimStartWithin(text[1..], c);
    }
  }

  lemma TrimWithin(text: string, c: char)
    requires c in Trim(text)
    ensures c in text
  {
    TrimStartWithin(text, c);
  }
}
