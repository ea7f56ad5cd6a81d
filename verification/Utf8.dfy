/** UTF-8 (RFC 3629): text as bytes, and the strict decoder. */
module Utf8 {
  import opened Options
  import opened Blocks

  // ----- one character -----

  function Utf8Char(c: char): (bytes: seq<byte>)
    ensures 1 <= |bytes| <= 4
  {
    var n := c as int;
    if n < 0x80 then [n as byte]
    else if n < 0x800 then [(0xC0 + n / 0x40) as byte, Continuation(n)]
    else if n < 0x1_0000 then [(0xE0 + n / 0x40 / 0x40) as byte, Continuation(n / 0x40), Continuation(n)]
    else
      [(0xF0 + n / 0x40 / 0x40 / 0x40) as byte, Continuation(n / 0x40 / 0x40), Continuation(n / 0x40), Continuation(n)]
  }

  function Continuation(n: nat): byte {
    (0x80 + n % 0x40) as byte
  }

  predicate Continues(b: byte) {
    0x80 <= b < 0xC0
  }

  /** How many bytes the character starting with this byte takes. */
  function Width(lead: byte): Option<nat> {
    if lead < 0x80 then Some(1)
    else if 0xC0 <= lead < 0xE0 then Some(2)
    else if 0xE0 <= lead < 0xF0 then Some(3)
    else if 0xF0 <= lead < 0xF8 then Some(4)
    else None
  }

  function Low(b: byte): nat {
    b as int % 0x40
  }

  /** The number the bytes spell. */
  function Spelt(bytes: seq<byte>, width: nat): nat
    requires width <= |bytes| && 1 <= width <= 4 && Width(bytes[0]) == Some(width)
  {
    var lead := bytes[0] as int;
    if width == 1 then lead
    else if width == 2 then (lead - 0xC0) * 0x40 + Low(bytes[1])
    else if width == 3 then (lead - 0xE0) * 0x1000 + Low(bytes[1]) * 0x40 + Low(bytes[2])
    else (lead - 0xF0) * 0x4_0000 + Low(bytes[1]) * 0x1000 + Low(bytes[2]) * 0x40 + Low(bytes[3])
  }

  predicate IsScalar(n: nat) {
    n < 0xD800 || 0xE000 <= n < 0x11_0000
  }

  /** The least number that needs so many bytes. */
  function Least(width: nat): nat {
    if width <= 1 then 0 else if width == 2 then 0x80 else if width == 3 then 0x800 else 0x1_0000
  }

  /** The character at the front: whole, no longer than it need be, and no surrogate. */
  function FrontChar(bytes: seq<byte>): (c: Option<char>)
    requires bytes != []
    ensures c.Some? ==> Width(bytes[0]).Some? && 1 <= Width(bytes[0]).value <= |bytes|
  {
    match Width(bytes[0])
    case None => None
    case Some(width) =>
      if width > |bytes| || !(forall k :: 1 <= k < width ==> Continues(bytes[k])) then None
      else
        var n := Spelt(bytes, width);
        if n < Least(width) || !IsScalar(n) then None else Some(n as char)
  }

  // ----- text -----

  function Utf8Text(text: string): seq<byte> {
    if text == "" then [] else Utf8Char(text[0]) + Utf8Text(text[1..])
  }

  function FromUtf8(bytes: seq<byte>): Option<string> {
    if bytes == [] then Some("")
    else
      match FrontChar(bytes)
      case None => None
      case Some(c) =>
        match FromUtf8(bytes[Width(bytes[0]).value..])
        case None => None
        case Some(rest) => Some([c] + rest)
  }

  /** The examples of section 7 of RFC 3629, and the byte order mark. */
  lemma Examples()
    ensures Utf8Char('A') == [0x41] && Utf8Char('\U{2262}') == [0xE2, 0x89, 0xA2]
    ensures Utf8Char('\U{0391}') == [0xCE, 0x91] && Utf8Char('\U{233B4}') == [0xF0, 0xA3, 0x8E, 0xB4]
    ensures Utf8Char('\U{FEFF}') == [0xEF, 0xBB, 0xBF]
  {
  }

  /** Each character's number, six bits to a continuation byte. */
  lemma CharBits(c: char)
    ensures var n, bytes := c as int, Utf8Char(c);
            && (|bytes| == 1 <==> n < 0x80) && (|bytes| <= 2 <==> n < 0x800) && (|bytes| <= 3 <==> n < 0x1_0000)
            && (|bytes| == 1 ==> n == bytes[0] as int)
            && (|bytes| == 2 ==> n == (bytes[0] as int - 0xC0) * 0x40 + (bytes[1] as int - 0x80))
            && (|bytes| == 3 ==>
                  n == (bytes[0] as int - 0xE0) * 0x1000 + (bytes[1] as int - 0x80) * 0x40 + (bytes[2] as int - 0x80))
            && (|bytes| == 4 ==>
                  n == (bytes[0] as int - 0xF0) * 0x4_0000 + (bytes[1] as int - 0x80) * 0x1000
                       + (bytes[2] as int - 0x80) * 0x40 + (bytes[3] as int - 0x80))
  {
  }

  // ----- round trip -----

  lemma LowOf(n: nat)
    ensures Low(Continuation(n)) == n % 0x40 && Continues(Continuation(n))
  {
  }

  lemma CharWidth(c: char)
    ensures Width(Utf8Char(c)[0]) == Some(|Utf8Char(c)|)
    ensures forall k :: 1 <= k < |Utf8Char(c)| ==> Continues(Utf8Char(c)[k])
    ensures Least(|Utf8Char(c)|) <= c as int && IsScalar(c as int)
  {
  }

  lemma CharSpells(c: char)
    ensures Width(Utf8Char(c)[0]) == Some(|Utf8Char(c)|)
    ensures Spelt(Utf8Char(c), |Utf8Char(c)|) == c as int
  {
    hide Low, Continuation, Continues;
    CharWidth(c);
    var n := c as int;
    LowOf(n);
    LowOf(n / 0x40);
    LowOf(n / 0x40 / 0x40);
  }

  lemma FrontOfChar(c: char, rest: seq<byte>)
    ensures FrontChar(Utf8Char(c) + rest) == Some(c) && Width(Utf8Char(c)[0]) == Some(|Utf8Char(c)|)
  {
    hide Utf8Char, Width, Low, Continues, Least, IsScalar;
    CharWidth(c);
    CharSpells(c);
  }

  /** Decoding gives back the text. */
  lemma {:induction false} Utf8RoundTrip(text: string)
    ensures FromUtf8(Utf8Text(text)) == Some(text)
  {
    if text != "" {
      hide Utf8Char, FrontChar, Width;
      FrontOfChar(text[0], Utf8Text(text[1..]));
      Utf8RoundTrip(text[1..]);
      var bytes := Utf8Text(text);
      assert bytes[|Utf8Char(text[0])|..] == Utf8Text(text[1..]);
      assert text == [text[0]] + text[1..];
    }
  }

  lemma {:induction false} Utf8Concat(a: string, b: string)
    ensures Utf8Text(a + b) == Utf8Text(a) + Utf8Text(b)
  {
    hide Utf8Char;
    if a == "" {
      assert a + b == b;
    } else {
      assert (a + b)[1..] == a[1..] + b;
      Utf8Concat(a[1..], b);
    }
  }

  lemma ContinuationOf(b: byte, high: nat)
    requires Continues(b)
    ensures Continuation(high * 0x40 + Low(b)) == b && (high * 0x40 + Low(b)) / 0x40 == high
    ensures Low(b) < 0x40
  {
  }

  /** The decoder accepts a character only as the encoder writes it. */
  lemma CharOfFront(bytes: seq<byte>)
    requires bytes != [] && FrontChar(bytes).Some?
    ensures Utf8Char(FrontChar(bytes).value) == bytes[..Width(bytes[0]).value]
  {
    hide Continuation, Low, Continues;
    var width := Width(bytes[0]).value;
    var lead := bytes[0] as int;
    if width == 2 {
      ContinuationOf(bytes[1], lead - 0xC0);
    } else if width == 3 {
      var high := (lead - 0xE0) * 0x40 + Low(bytes[1]);
      ContinuationOf(bytes[1], lead - 0xE0);
      ContinuationOf(bytes[2], high);
    } else if width == 4 {
      var top := (lead - 0xF0) * 0x40 + Low(bytes[1]);
      var high := top * 0x40 + Low(bytes[2]);
      ContinuationOf(bytes[1], lead - 0xF0);
      ContinuationOf(bytes[2], top);
      ContinuationOf(bytes[3], high);
    }
  }

  /** Bytes are valid exactly when they are the encoding of some text, and then of that one. */
  lemma {:induction false} ValidMeansEncoded(bytes: seq<byte>)
    ensures FromUtf8(bytes).Some? ==> Utf8Text(FromUtf8(bytes).value) == bytes
    decreases |bytes|
  {
    hide Utf8Char, Width;
    if FromUtf8(bytes).Some? && bytes != [] {
      CharOfFront(bytes);
      ValidMeansEncoded(bytes[Width(bytes[0]).value..]);
      var text := FromUtf8(bytes).value;
      assert text[1..] == FromUtf8(bytes[Width(bytes[0]).value..]).value;
    }
  }
}
