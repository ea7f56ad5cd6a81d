/** Base64 (section 4 of RFC 4648): the padded encoder, and a decoder that does not insist on padding
    or on clear trailing bits. */
module Base64 {
  import opened Options
  import opened Blocks

  const PAD: byte := 61

  type Sextet = n: nat | n < 64

  function Digit(s: Sextet): (b: byte)
    ensures b != PAD && b != 63 && !IsWhite(b)
  {
    if s < 26 then (65 + s) as byte
    else if s < 52 then (71 + s) as byte
    else if s < 62 then (s - 4) as byte
    else if s == 62 then 43
    else 47
  }

  function DigitOf(b: byte): Option<Sextet> {
    if 65 <= b <= 90 then Some(b as int - 65)
    else if 97 <= b <= 122 then Some(b as int - 71)
    else if 48 <= b <= 57 then Some(b as int + 4)
    else if b == 43 then Some(62)
    else if b == 47 then Some(63)
    else None
  }

  /** ASCII white space. */
  predicate IsWhite(b: byte) {
    b == 9 || b == 10 || b == 12 || b == 13 || b == 32
  }

  lemma DigitBack(s: Sextet)
    ensures DigitOf(Digit(s)) == Some(s)
  {
  }

  // ----- encoding -----

  function Encode64(bytes: seq<byte>): seq<byte> {
    if bytes == [] then []
    else if |bytes| == 1 then
      var a := bytes[0] as int;
      [Digit(a / 4), Digit(a % 4 * 16), PAD, PAD]
    else if |bytes| == 2 then
      var a, b := bytes[0] as int, bytes[1] as int;
      [Digit(a / 4), Digit(a % 4 * 16 + b / 16), Digit(b % 16 * 4), PAD]
    else
      Quad(bytes[0], bytes[1], bytes[2]) + Encode64(bytes[3..])
  }

  function Quad(a: byte, b: byte, c: byte): seq<byte> {
    var x, y, z := a as int, b as int, c as int;
    [Digit(x / 4), Digit(x % 4 * 16 + y / 16), Digit(y % 16 * 4 + z / 64), Digit(z % 64)]
  }

  // ----- decoding -----

  function Unpadded(text: seq<byte>): (body: seq<byte>)
    ensures body <= text && (body != [] ==> body[|body| - 1] != PAD)
    ensures forall k :: |body| <= k < |text| ==> text[k] == PAD
  {
    if text != [] && text[|text| - 1] == PAD then Unpadded(text[..|text| - 1]) else text
  }

  predicate AllDigits(text: seq<byte>) {
    forall k :: 0 <= k < |text| ==> DigitOf(text[k]).Some?
  }

  function First(a: Sextet, b: Sextet): byte {
    (a * 4 + b / 16) as byte
  }

  function Second(b: Sextet, c: Sextet): byte {
    (b % 16 * 16 + c / 4) as byte
  }

  function Third(c: Sextet, d: Sextet): byte {
    (c % 4 * 64 + d) as byte
  }

  function DecodeDigits(body: seq<byte>): seq<byte>
    requires AllDigits(body) && |body| % 4 != 1
  {
    if body == [] then []
    else
      var a, b := DigitOf(body[0]).value, DigitOf(body[1]).value;
      if |body| == 2 then [First(a, b)]
      else
        var c := DigitOf(body[2]).value;
        if |body| == 3 then [First(a, b), Second(b, c)]
        else
          var d := DigitOf(body[3]).value;
          [First(a, b), Second(b, c), Third(c, d)] + DecodeDigits(body[4..])
  }

  /** Padding may be missing, but may stand only where it belongs. */
  function Decode64(text: seq<byte>): Option<seq<byte>> {
    var body := Unpadded(text);
    var over := |body| % 4;
    if !AllDigits(body) || over == 1 then None
    else if |text| - |body| > (if over == 0 then 0 else 4 - over) then None
    else Some(DecodeDigits(body))
  }

  // ----- round trip -----

  /** The digits of an encoding, without its padding. */
  function Digits(bytes: seq<byte>): (body: seq<byte>)
    ensures |body| == |bytes| / 3 * 4 + (if |bytes| % 3 == 0 then 0 else |bytes| % 3 + 1)
    ensures AllDigits(body) && forall k :: 0 <= k < |body| ==> body[k] != PAD && body[k] != 63 && !IsWhite(body[k])
  {
    hide Digit, IsWhite;
    if bytes == [] then []
    else if |bytes| == 1 then
      var a := bytes[0] as int;
      [Digit(a / 4), Digit(a % 4 * 16)]
    else if |bytes| == 2 then
      var a, b := bytes[0] as int, bytes[1] as int;
      [Digit(a / 4), Digit(a % 4 * 16 + b / 16), Digit(b % 16 * 4)]
    else
      Quad(bytes[0], bytes[1], bytes[2]) + Digits(bytes[3..])
  }

  function Padding(n: nat): seq<byte> {
    if n % 3 == 1 then [PAD, PAD] else if n % 3 == 2 then [PAD] else []
  }

  lemma {:induction false} EncodeIsDigits(bytes: seq<byte>)
    ensures Encode64(bytes) == Digits(bytes) + Padding(|bytes|)
  {
    if |bytes| > 2 {
      EncodeIsDigits(bytes[3..]);
    }
  }

  lemma QuadBack(a: byte, b: byte, c: byte)
    ensures var q := Quad(a, b, c);
            && AllDigits(q)
            && First(DigitOf(q[0]).value, DigitOf(q[1]).value) == a
            && Second(DigitOf(q[1]).value, DigitOf(q[2]).value) == b
            && Third(DigitOf(q[2]).value, DigitOf(q[3]).value) == c
  {
    hide Digit, DigitOf;
    var x, y, z := a as int, b as int, c as int;
    DigitBack(x / 4);
    DigitBack(x % 4 * 16 + y / 16);
    DigitBack(y % 16 * 4 + z / 64);
    DigitBack(z % 64);
  }

  lemma DecodeQuad(q: seq<byte>, rest: seq<byte>)
    requires |q| == 4 && AllDigits(q) && AllDigits(rest) && |rest| % 4 != 1
    ensures AllDigits(q + rest) && |q + rest| % 4 != 1
    ensures DecodeDigits(q + rest) ==
            [First(DigitOf(q[0]).value, DigitOf(q[1]).value), Second(DigitOf(q[1]).value, DigitOf(q[2]).value),
             Third(DigitOf(q[2]).value, DigitOf(q[3]).value)] + DecodeDigits(rest)
  {
  }

  lemma FewBack(bytes: seq<byte>)
    requires |bytes| < 3
    ensures |Digits(bytes)| % 4 != 1 && DecodeDigits(Digits(bytes)) == bytes
  {
    hide Digit, DigitOf, First, Second, Third;
    if |bytes| == 1 {
      OneBack(bytes[0]);
    } else if |bytes| == 2 {
      TwoBack(bytes[0], bytes[1]);
    }
  }

  lemma DigitsMore(bytes: seq<byte>)
    requires |bytes| >= 3
    ensures Digits(bytes) == Quad(bytes[0], bytes[1], bytes[2]) + Digits(bytes[3..])
  {
    hide Digit, DigitOf, Quad, IsWhite, AllDigits;
  }

  lemma {:induction false} DigitsBack(bytes: seq<byte>)
    ensures |Digits(bytes)| % 4 != 1 && DecodeDigits(Digits(bytes)) == bytes
  {
    hide Digits, DecodeDigits, DigitOf, Quad, First, Second, Third;
    if |bytes| < 3 {
      FewBack(bytes);
    } else {
      DigitsBack(bytes[3..]);
      DigitsMore(bytes);
      QuadBack(bytes[0], bytes[1], bytes[2]);
      QuadLength(bytes[0], bytes[1], bytes[2]);
      DecodeQuad(Quad(bytes[0], bytes[1], bytes[2]), Digits(bytes[3..]));
      assert bytes == [bytes[0], bytes[1], bytes[2]] + bytes[3..];
    }
  }

  lemma QuadLength(a: byte, b: byte, c: byte)
    ensures |Quad(a, b, c)| == 4
  {
  }

  lemma OneBack(a: byte)
    ensures DigitOf(Digit(a as int / 4)).Some? && DigitOf(Digit(a as int % 4 * 16)).Some?
    ensures First(DigitOf(Digit(a as int / 4)).value, DigitOf(Digit(a as int % 4 * 16)).value) == a
  {
  }

  lemma TwoBack(a: byte, b: byte)
    ensures var x, y := a as int, b as int;
            && var s, t, u := DigitOf(Digit(x / 4)), DigitOf(Digit(x % 4 * 16 + y / 16)), DigitOf(Digit(y % 16 * 4));
            && s.Some? && t.Some? && u.Some? && First(s.value, t.value) == a && Second(t.value, u.value) == b
  {
    QuadBack(a, b, 0);
  }

  lemma {:induction false} UnpaddedIs(body: seq<byte>, padding: seq<byte>)
    requires body == [] || body[|body| - 1] != PAD
    requires forall k :: 0 <= k < |padding| ==> padding[k] == PAD
    ensures Unpadded(body + padding) == body
    decreases |padding|
  {
    var text := body + padding;
    if padding == [] {
      assert text == body;
    } else {
      UnpaddedIs(body, padding[..|padding| - 1]);
      assert text[..|text| - 1] == body + padding[..|padding| - 1];
    }
  }

  lemma EncodedLength(n: nat)
    ensures n / 3 * 4 + (if n % 3 == 0 then 0 else n % 3 + 1) + |Padding(n)| == (n + 2) / 3 * 4
    ensures forall k :: 0 <= k < |Padding(n)| ==> Padding(n)[k] == PAD
    ensures var body := n / 3 * 4 + (if n % 3 == 0 then 0 else n % 3 + 1);
            |Padding(n)| == if body % 4 == 0 then 0 else 4 - body % 4
  {
  }

  /** Decoding undoes encoding, and every encoded byte is a digit or padding. */
  lemma Base64RoundTrip(bytes: seq<byte>)
    ensures Decode64(Encode64(bytes)) == Some(bytes)
    ensures |Encode64(bytes)| == (|bytes| + 2) / 3 * 4
    ensures forall k :: 0 <= k < |Encode64(bytes)| ==> Encode64(bytes)[k] != 63 && !IsWhite(Encode64(bytes)[k])
  {
    hide Digits, Encode64, DecodeDigits, DigitOf, Unpadded, Padding, AllDigits;
    EncodeIsDigits(bytes);
    EncodedLength(|bytes|);
    DigitsBack(bytes);
    UnpaddedIs(Digits(bytes), Padding(|bytes|));
  }

  // ----- what the alphabet and the digits are -----

  const UPPER := "ABCDEFGHIJKLMNOPQRSTUVWXYZ"
  const LOWER := "abcdefghijklmnopqrstuvwxyz"
  const NUMBERS := "0123456789"

  lemma Letters(k: nat)
    requires k < 26
    ensures |UPPER| == |LOWER| == 26 && UPPER[k] as int == 65 + k && LOWER[k] as int == 97 + k
  {
  }

  /** The standard alphabet. */
  lemma Alphabet(s: Sextet)
    ensures |UPPER + LOWER + NUMBERS + "+/"| == 64 && Digit(s) as int == (UPPER + LOWER + NUMBERS + "+/")[s] as int
  {
    Letters(if s < 26 then s else if s < 52 then s - 26 else 0);
    assert |NUMBERS| == 10;
    assert 52 <= s < 62 ==> NUMBERS[s - 52] as int == 48 + (s - 52);
  }

  /** Only its characters are digits. */
  lemma OnlyAlphabet(b: byte)
    ensures DigitOf(b).Some? ==> Digit(DigitOf(b).value) == b
  {
  }

  /** Three octets and the four digits for them spell one number, most significant first. */
  lemma QuadSpells(a: byte, b: byte, c: byte, w: Sextet, x: Sextet, y: Sextet, z: Sextet)
    requires Quad(a, b, c) == [Digit(w), Digit(x), Digit(y), Digit(z)]
    ensures ((w * 64 + x) * 64 + y) * 64 + z == (a as int * 256 + b as int) * 256 + c as int
  {
    hide Digit, DigitOf;
    var p, q, r := a as int, b as int, c as int;
    DigitBack(p / 4);
    DigitBack(p % 4 * 16 + q / 16);
    DigitBack(q % 16 * 4 + r / 64);
    DigitBack(r % 64);
    DigitBack(w);
    DigitBack(x);
    DigitBack(y);
    DigitBack(z);
  }

  /** Encoded text comes in fours: one or two octets left over are filled up with zero bits and padded. */
  lemma {:induction false} EncodedFours(bytes: seq<byte>)
    ensures |Encode64(bytes)| == (|bytes| + 2) / 3 * 4
    ensures |bytes| == 1 ==> Encode64(bytes) == Quad(bytes[0], 0, 0)[..2] + [61, 61]
    ensures |bytes| == 2 ==> Encode64(bytes) == Quad(bytes[0], bytes[1], 0)[..3] + [61]
    ensures |bytes| >= 3 ==> Encode64(bytes) == Quad(bytes[0], bytes[1], bytes[2]) + Encode64(bytes[3..])
  {
    hide Digit;
    if |bytes| > 2 {
      EncodedFours(bytes[3..]);
    }
  }

  /** Padding may be left out, in part or whole, and there may not be more than belongs. */
  lemma PaddingOptional(body: seq<byte>, pads: nat)
    requires body != [] ==> body[|body| - 1] != 61
    ensures Decode64(body + seq<byte>(pads, _ => 61)) == if pads <= (4 - |body| % 4) % 4 then Decode64(body) else None
  {
    hide DecodeDigits, AllDigits;
    var padding: seq<byte> := seq(pads, _ => 61);
    UnpaddedIs(body, padding);
    UnpaddedIs(body, []);
    assert body + [] == body;
  }

  // ----- lengths -----

  lemma {:induction false} DecodeDigitsShort(body: seq<byte>)
    requires AllDigits(body) && |body| % 4 != 1
    ensures |DecodeDigits(body)| <= |body|
  {
    hide First, Second, Third, DigitOf;
    if |body| > 3 {
      DecodeDigitsShort(body[4..]);
    }
  }

  /** What is decoded is no longer than its digits. */
  lemma Decode64Short(text: seq<byte>)
    ensures Decode64(text).Some? ==> |Decode64(text).value| <= |text|
  {
    hide DecodeDigits, AllDigits;
    if Decode64(text).Some? {
      DecodeDigitsShort(Unpadded(text));
    }
  }
}
