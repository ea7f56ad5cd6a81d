/** Header values as encoded words (RFC 2047): the encoder a posting uses and the decoder every header
    goes through. */
module EncodedWords {
  import opened Options
  import opened Sequences
  import opened Blocks
  import opened Base64
  import opened Utf8
  import Decimals
  import opened Strings
  import opened QuotedPrintable

  const QMARK: byte := 63
  const UNDERSCORE: byte := 95
  const BOM: char := '\U{FEFF}'

  // ----- charsets -----

  /** The charset tables this model does not look into. */
  datatype Tables = Tables(
    windows1252: seq<byte> -> string,
    lossyUtf8: seq<byte> -> string,
    labelled: (seq<byte>, string) -> Option<string>)

  function AsciiLower(text: string): (r: string)
    ensures |r| == |text|
  {
    seq(|text|, k requires 0 <= k < |text| =>
      if 'A' <= text[k] <= 'Z' then (text[k] as int + 32) as char else text[k])
  }

  /** A label without its language suffix, white space and quotation marks. */
  function CleanLabel(charset: string): string {
    Unquoted(Decimals.Trim(Split(charset, '*')[0]))
  }

  function Unquoted(text: string): string
    decreases |text|
  {
    if text == "" then ""
    else if text[0] == '\"' then Unquoted(text[1..])
    else if text[|text| - 1] == '\"' then Unquoted(text[..|text| - 1])
    else text
  }

  predicate NamesUtf8(charset: string) {
    AsciiLower(Decimals.Trim(charset)) in
      {"utf-8", "utf8", "unicode-1-1-utf-8", "unicode11utf8", "unicode20utf8", "x-unicode20utf8"}
  }

  /** Decoding drops one byte order mark from the front. */
  function WithoutBom(bytes: seq<byte>): seq<byte> {
    if Marked(bytes) then bytes[3..] else bytes
  }

  /** UTF-8 if it is valid, else Windows-1252. */
  function Decode8Bit(t: Tables, bytes: seq<byte>): string {
    match FromUtf8(bytes)
    case Some(text) => text
    case None => t.windows1252(bytes)
  }

  function DecodeWithCharset(t: Tables, bytes: seq<byte>, charset: string): string {
    var name := CleanLabel(charset);
    if NamesUtf8(name) then
      match FromUtf8(WithoutBom(bytes))
      case Some(text) => text
      case None => t.lossyUtf8(bytes)
    else
      match t.labelled(bytes, name)
      case Some(text) => text
      case None => Decode8Bit(t, bytes)
  }

  /** A language suffix on a label is ignored, and so are quotation marks around it. */
  lemma LabelDressed(name: string, language: string)
    requires name != "" && Decimals.Tight(name) && '*' !in name && name[0] != '\"' && name[|name| - 1] != '\"'
    ensures CleanLabel(name) == name && CleanLabel(name + "*" + language) == name
    ensures CleanLabel("\"" + name + "\"") == name
  {
    hide Split;
    SplitConcat(name, language, '*');
    assert name + ['*'] + language == name + "*" + language;
    Decimals.TrimTight(name);
    var quoted := "\"" + name + "\"";
    Decimals.TrimTight(quoted);
    assert quoted[1..][..|name|] == name;
    assert Unquoted(name) == name;
    assert Unquoted(name + "\"") == name by {
      assert (name + "\"")[..|name|] == name;
    }
    assert quoted[1..] == name + "\"";
  }

  /** The names of UTF-8, and that their case does not matter. */
  lemma Utf8Names(name: string)
    requires AsciiLower(name) in
               ["utf-8", "utf8", "unicode-1-1-utf-8", "unicode11utf8", "unicode20utf8", "x-unicode20utf8"]
    ensures NamesUtf8(name)
  {
    assert AsciiLower(name)[0] in {'u', 'x'} && AsciiLower(name)[|name| - 1] == '8';
    Decimals.TrimTight(name);
  }

  /** Bytes under any other label are decoded as its table says, and if there is none by the 8-bit rule:
      UTF-8 when they are valid, else Windows-1252. */
  lemma OtherCharset(t: Tables, bytes: seq<byte>, name: string)
    requires name != "" && Decimals.Tight(name) && '*' !in name && name[0] != '\"' && name[|name| - 1] != '\"'
    requires AsciiLower(name) !in
               ["utf-8", "utf8", "unicode-1-1-utf-8", "unicode11utf8", "unicode20utf8", "x-unicode20utf8"]
    ensures DecodeWithCharset(t, bytes, name) ==
            if t.labelled(bytes, name).Some? then t.labelled(bytes, name).value
            else if FromUtf8(bytes).Some? then FromUtf8(bytes).value
            else t.windows1252(bytes)
  {
    hide FromUtf8, CleanLabel;
    LabelDressed(name, "");
    Decimals.TrimTight(name);
  }

  // ----- the "Q" encoding -----

  /** What the front of a "Q" text stands for, and how many bytes it takes. */
  function FrontQ(bytes: seq<byte>): (r: (seq<byte>, nat))
    requires bytes != []
    ensures 0 < r.1 <= |bytes|
  {
    if bytes[0] == UNDERSCORE then ([SPACE], 1)
    else if bytes[0] == EQUALS then
      if |bytes| > 2 && HexValue(bytes[1]).Some? && HexValue(bytes[2]).Some? then
        ([HexValue(bytes[1]).value * 16 + HexValue(bytes[2]).value], 3)
      else
        var n := if |bytes| > 2 then 3 else |bytes|;
        (bytes[..n], n)
    else ([bytes[0]], 1)
  }

  function DecodedQ(bytes: seq<byte>): seq<byte> {
    if bytes == [] then [] else FrontQ(bytes).0 + DecodedQ(bytes[FrontQ(bytes).1..])
  }

  method DecodeQ(input: seq<byte>) returns (out: seq<byte>)
    ensures out == DecodedQ(input)
  {
    hide DecodedQ;
    out := [];
    var i: nat := 0;
    assert input[0..] == input;
    while i < |input|
      invariant i <= |input|
      invariant out + DecodedQ(input[i..]) == DecodedQ(input)
    {
      DecodedQStep(out, input, i);
      var byte := input[i];
      i := i + 1;
      if byte == UNDERSCORE {
        out := out + [SPACE];
      } else if byte == EQUALS {
        var hi := if i < |input| then [input[i]] else [];
        i := i + |hi|;
        var lo := if i < |input| then [input[i]] else [];
        i := i + |lo|;
        if hi != [] && lo != [] && HexValue(hi[0]).Some? && HexValue(lo[0]).Some? {
          out := out + [HexValue(hi[0]).value * 16 + HexValue(lo[0]).value];
        } else {
          out := out + ([EQUALS] + hi + lo);
        }
      } else {
        out := out + [byte];
      }
    }
    assert input[i..] == [];
    NothingQ(out);
  }

  lemma NothingQ(out: seq<byte>)
    ensures out + DecodedQ([]) == out
  {
  }

  lemma DecodedQStep(out: seq<byte>, input: seq<byte>, i: nat)
    requires i < |input|
    ensures var front := FrontQ(input[i..]);
            && out + DecodedQ(input[i..]) == (out + front.0) + DecodedQ(input[i + front.1..])
            && (input[i] == EQUALS && !(|input| - i > 2 && HexValue(input[i + 1]).Some? && HexValue(input[i + 2]).Some?) ==>
                  front.0 == [EQUALS] + (if i + 1 < |input| then [input[i + 1]] else [])
                             + (if i + 2 < |input| then [input[i + 2]] else []))
  {
  }

  /** An equals sign without two hexadecimal digits stays, and takes what it was looked at with. */
  lemma MalformedStays(a: byte, b: byte, rest: seq<byte>)
    requires HexValue(a).None? || HexValue(b).None?
    ensures DecodedQ([61, a, b] + rest) == [61, a, b] + DecodedQ(rest)
    ensures DecodedQ([61, a]) == [61, a] && DecodedQ([61]) == [61]
  {
    hide HexValue;
    assert ([61, a, b] + rest)[..3] == [61, a, b] && ([61, a, b] + rest)[3..] == rest;
    assert [61, a][..2] == [61, a] && [61 as byte][..1] == [61];
    assert FrontQ([61, a]) == ([61, a], 2) && FrontQ([61]) == ([61], 1);
    assert [61, a][2..] == [] && [61][1..] == [];
    assert DecodedQ([61, a]) == [61, a] + DecodedQ([]) && DecodedQ([61]) == [61] + DecodedQ([]);
  }

  /** A byte written as itself, as an escape, or a space written as `_`. */
  datatype QPiece = QLiteral(b: byte) | QEscaped(hi: byte, lo: byte) | QSpace

  predicate QEncodable(p: QPiece) {
    match p
    case QLiteral(b) => b !in {EQUALS, UNDERSCORE}
    case QEscaped(hi, lo) => HexValue(hi).Some? && HexValue(lo).Some?
    case QSpace => true
  }

  function QOne(p: QPiece): (wire: seq<byte>)
    ensures wire != []
  {
    match p
    case QLiteral(b) => [b]
    case QEscaped(hi, lo) => [EQUALS, hi, lo]
    case QSpace => [UNDERSCORE]
  }

  function QWire(ps: seq<QPiece>): seq<byte> {
    if ps == [] then [] else QOne(ps[0]) + QWire(ps[1..])
  }

  function QByte(p: QPiece): byte
    requires QEncodable(p)
  {
    match p
    case QLiteral(b) => b
    case QEscaped(hi, lo) => HexValue(hi).value * 16 + HexValue(lo).value
    case QSpace => SPACE
  }

  function QData(ps: seq<QPiece>): seq<byte>
    requires forall k :: 0 <= k < |ps| ==> QEncodable(ps[k])
  {
    if ps == [] then [] else [QByte(ps[0])] + QData(ps[1..])
  }

  lemma FrontOfQ(p: QPiece, rest: seq<byte>)
    requires QEncodable(p)
    ensures FrontQ(QOne(p) + rest) == ([QByte(p)], |QOne(p)|)
  {
  }

  /** Decoding recovers what any "Q" encoding stands for. */
  lemma {:induction false} DecodeQInverts(ps: seq<QPiece>)
    requires forall k :: 0 <= k < |ps| ==> QEncodable(ps[k])
    ensures DecodedQ(QWire(ps)) == QData(ps)
  {
    hide FrontQ, QByte, QOne;
    if ps != [] {
      var rest := QWire(ps[1..]);
      DecodeQInverts(ps[1..]);
      FrontOfQ(ps[0], rest);
      assert (QOne(ps[0]) + rest)[|QOne(ps[0])|..] == rest;
    }
  }

  // ----- one encoded word -----

  /** A decoded word and how many bytes it took. */
  datatype Word = Word(text: string, length: nat)

  /** The position of the first `?=`, or the length if there is none. */
  function Close(bytes: seq<byte>): (i: nat)
    ensures i <= |bytes| && (i < |bytes| ==> i + 1 < |bytes| && bytes[i] == QMARK && bytes[i + 1] == EQUALS)
    ensures forall k :: 0 <= k < i && k + 1 < |bytes| ==> !(bytes[k] == QMARK && bytes[k + 1] == EQUALS)
  {
    if bytes == [] || (|bytes| > 1 && bytes[0] == QMARK && bytes[1] == EQUALS) then 0 else 1 + Close(bytes[1..])
  }

  predicate HasWhite(bytes: seq<byte>) {
    exists k :: 0 <= k < |bytes| && IsWhite(bytes[k])
  }

  function RawText(encoding: byte, text: seq<byte>): Option<seq<byte>> {
    if encoding in {81, 113} then Some(DecodedQ(text))
    else if encoding in {66, 98} then Decode64(text)
    else None
  }

  /** The two encodings, by their letters in either case: Q and B. */
  lemma EncodingLetters(letter: char, text: seq<byte>)
    requires letter as int < 128
    ensures RawText(letter as int as byte, text) ==
            if letter in "Qq" then Some(DecodedQ(text)) else if letter in "Bb" then Decode64(text) else None
  {
    hide DecodedQ, Decode64;
  }

  predicate Opens(bytes: seq<byte>) {
    |bytes| >= 2 && bytes[0] == EQUALS && bytes[1] == QMARK
  }

  /** Parses one `=?charset?encoding?text?=` at the start of the input. */
  function ParseWord(t: Tables, input: seq<byte>): (word: Option<Word>)
    ensures word.Some? ==> Opens(input) && 2 < word.value.length <= |input|
  {
    if !Opens(input) then None
    else
      var after := input[2..];
      var c := IndexOf(after, QMARK);
      if c == |after| || c == 0 || HasWhite(after[..c]) then None
      else if |after| < c + 3 || after[c + 2] != QMARK then None
      else
        var rest := after[c + 3..];
        var n := Close(rest);
        if n == |rest| || HasWhite(rest[..n]) then None
        else
          var raw, charset := RawText(after[c + 1], rest[..n]), FromUtf8(after[..c]);
          if raw.None? || charset.None? then None
          else Some(Word(DecodeWithCharset(t, raw.value, charset.value), 2 + c + 1 + 1 + 1 + n + 2))
  }

  // ----- splitting a value -----

  datatype Part = Encoded(text: string) | Raw(bytes: seq<byte>)

  /** Where the first encoded word starts, or the length if there is none. */
  function FirstWord(t: Tables, bytes: seq<byte>): (i: nat)
    ensures i <= |bytes|
  {
    if bytes == [] || ParseWord(t, bytes).Some? then 0 else 1 + FirstWord(t, bytes[1..])
  }

  function RawPart(bytes: seq<byte>): seq<Part> {
    if bytes == [] then [] else [Raw(bytes)]
  }

  /** The encoded words of a value, leftmost first, and the runs of bytes between them. */
  function PartsOf(t: Tables, bytes: seq<byte>): seq<Part>
    decreases |bytes|
  {
    var i := FirstWord(t, bytes);
    match ParseWord(t, bytes[i..])
    case None => RawPart(bytes)
    case Some(word) =>
      RawPart(bytes[..i]) + [Encoded(word.text)] + PartsOf(t, bytes[i + word.length..])
  }

  method SplitEncodedWords(t: Tables, bytes: seq<byte>) returns (parts: seq<Part>)
    ensures parts == PartsOf(t, bytes)
  {
    hide PartsOf, ParseWord, FirstWord;
    parts := [];
    var literalStart: nat, cursor: nat := 0, 0;
    assert bytes[0..] == bytes;
    while cursor < |bytes|
      invariant literalStart <= cursor <= |bytes|
      invariant parts + PartsOf(t, bytes[literalStart..]) == PartsOf(t, bytes)
      invariant forall k :: literalStart <= k < cursor ==> ParseWord(t, bytes[k..]).None?
    {
      var rest := bytes[cursor..];
      ParsedWordOpens(t, rest);
      if !Opens(rest) {
        cursor := cursor + 1;
        continue;
      }
      var parsed := ParseWord(t, rest);
      if parsed.None? {
        cursor := cursor + 1;
      } else {
        WordFound(t, bytes, parts, literalStart, cursor);
        if literalStart < cursor {
          parts := parts + [Raw(bytes[literalStart..cursor])];
        }
        parts := parts + [Encoded(parsed.value.text)];
        cursor := cursor + parsed.value.length;
        literalStart := cursor;
      }
    }
    NoWordFound(t, bytes, literalStart);
    if literalStart < |bytes| {
      parts := parts + [Raw(bytes[literalStart..])];
    }
  }

  lemma ParsedWordOpens(t: Tables, input: seq<byte>)
    ensures ParseWord(t, input).Some? ==> Opens(input) && 2 < ParseWord(t, input).value.length <= |input|
  {
  }

  lemma {:induction false} FirstWordIs(t: Tables, bytes: seq<byte>, i: nat)
    requires i <= |bytes| && (i < |bytes| ==> ParseWord(t, bytes[i..]).Some?)
    requires forall k :: 0 <= k < i ==> ParseWord(t, bytes[k..]).None?
    ensures FirstWord(t, bytes) == i
  {
    hide ParseWord;
    assert bytes[0..] == bytes;
    if i > 0 {
      assert forall k :: 0 <= k < i ==> bytes[1..][k..] == bytes[k + 1..];
      FirstWordIs(t, bytes[1..], i - 1);
    }
  }

  lemma PartsAt(t: Tables, bytes: seq<byte>, i: nat)
    requires i < |bytes| && ParseWord(t, bytes[i..]).Some?
    requires forall k :: 0 <= k < i ==> ParseWord(t, bytes[k..]).None?
    ensures var word := ParseWord(t, bytes[i..]).value;
            && i + word.length <= |bytes|
            && PartsOf(t, bytes) == RawPart(bytes[..i]) + [Encoded(word.text)] + PartsOf(t, bytes[i + word.length..])
  {
    hide ParseWord, FirstWord;
    ParsedWordOpens(t, bytes[i..]);
    FirstWordIs(t, bytes, i);
  }

  lemma WordFound(t: Tables, bytes: seq<byte>, parts: seq<Part>, start: nat, cursor: nat)
    requires start <= cursor < |bytes| && ParseWord(t, bytes[cursor..]).Some?
    requires forall k :: start <= k < cursor ==> ParseWord(t, bytes[k..]).None?
    ensures var word := ParseWord(t, bytes[cursor..]).value;
            && cursor + word.length <= |bytes|
            && parts + PartsOf(t, bytes[start..]) ==
               (if start < cursor then parts + [Raw(bytes[start..cursor])] else parts) + [Encoded(word.text)]
               + PartsOf(t, bytes[cursor + word.length..])
  {
    hide ParseWord, FirstWord, PartsOf;
    var rest := bytes[start..];
    var i := cursor - start;
    assert forall k :: 0 <= k < |rest| ==> rest[k..] == bytes[start + k..];
    PartsAt(t, rest, i);
    var word := ParseWord(t, bytes[cursor..]).value;
    assert rest[i + word.length..] == bytes[cursor + word.length..];
    assert rest[..i] == bytes[start..cursor];
    Regrouped(parts, RawPart(rest[..i]), [Encoded(word.text)], PartsOf(t, rest[i + word.length..]));
    assert parts + [] == parts;
  }

  lemma Regrouped(a: seq<Part>, b: seq<Part>, c: seq<Part>, d: seq<Part>)
    ensures a + (b + c + d) == (a + b) + c + d
  {
  }

  lemma NoWordFound(t: Tables, bytes: seq<byte>, start: nat)
    requires start <= |bytes| && forall k :: start <= k < |bytes| ==> ParseWord(t, bytes[k..]).None?
    ensures PartsOf(t, bytes[start..]) == RawPart(bytes[start..])
  {
  }

  // ----- a whole value -----

  predicate BlankByte(b: byte) {
    b == SPACE || b == TAB || b == CR || b == LF
  }

  predicate IsBlankRun(bytes: seq<byte>) {
    bytes != [] && forall k :: 0 <= k < |bytes| ==> BlankByte(bytes[k])
  }

  /** Blank is white space of the kinds that fold a header, and nothing else. */
  lemma BlankIff(bytes: seq<byte>)
    ensures IsBlankRun(bytes) <==> bytes != [] && forall k :: 0 <= k < |bytes| ==> bytes[k] in {32, 9, 13, 10}
  {
  }

  predicate BetweenWords(parts: seq<Part>, k: nat)
    requires k < |parts|
  {
    0 < k < |parts| - 1 && parts[k - 1].Encoded? && parts[k + 1].Encoded?
  }

  /** What a piece shows: nothing, if it is blank and only keeps two encoded words apart. */
  function ShownPart(t: Tables, parts: seq<Part>, k: nat): string
    requires k < |parts|
  {
    match parts[k]
    case Encoded(text) => text
    case Raw(bytes) => if IsBlankRun(bytes) && BetweenWords(parts, k) then "" else Decode8Bit(t, bytes)
  }

  function ShownFirst(t: Tables, parts: seq<Part>, n: nat): string
    requires n <= |parts|
  {
    if n == 0 then "" else ShownFirst(t, parts, n - 1) + ShownPart(t, parts, n - 1)
  }

  function DecodedHeader(t: Tables, bytes: seq<byte>): string {
    ShownFirst(t, PartsOf(t, bytes), |PartsOf(t, bytes)|)
  }

  method DecodeHeaderValue(t: Tables, bytes: seq<byte>) returns (out: string)
    ensures out == DecodedHeader(t, bytes)
  {
    hide PartsOf, IsBlankRun, BetweenWords, Decode8Bit;
    var parts := SplitEncodedWords(t, bytes);
    out := "";
    for k := 0 to |parts|
      invariant out == ShownFirst(t, parts, k)
    {
      assert ShownFirst(t, parts, k) + "" == ShownFirst(t, parts, k);
      match parts[k] {
        case Encoded(text) => out := out + text;
        case Raw(raw) =>
          if IsBlankRun(raw) && BetweenWords(parts, k) {
            continue;
          }
          out := out + Decode8Bit(t, raw);
      }
    }
  }

  // ----- encoding -----

  const PREFIX: seq<byte> := [61, 63, 85, 84, 70, 45, 56, 63, 66, 63]
  const SUFFIX: seq<byte> := [63, 61]

  predicate IsAscii(text: string) {
    forall k :: 0 <= k < |text| ==> text[k] < '\U{80}'
  }

  function WordOf(chunk: seq<byte>): seq<byte> {
    PREFIX + Encode64(chunk) + SUFFIX
  }

  function JoinWords(words: seq<seq<byte>>): seq<byte> {
    if words == [] then []
    else if |words| == 1 then words[0]
    else words[0] + [SPACE] + JoinWords(words[1..])
  }

  function Concat(texts: seq<string>): string {
    if texts == [] then "" else Concat(texts[..|texts| - 1]) + texts[|texts| - 1]
  }

  function WordsOf(chunks: seq<string>): (words: seq<seq<byte>>)
    ensures |words| == |chunks| && forall k :: 0 <= k < |chunks| ==> words[k] == WordOf(Utf8Text(chunks[k]))
  {
    seq(|chunks|, k requires 0 <= k < |chunks| => WordOf(Utf8Text(chunks[k])))
  }

  /** A value cut into whole characters, 45 bytes at most to a chunk, each chunk as long as it can be. */
  ghost predicate IsCut(value: string, chunks: seq<string>) {
    && Concat(chunks) == value
    && (forall k :: 0 <= k < |chunks| ==> chunks[k] != "" && |Utf8Text(chunks[k])| <= 45)
    && forall k :: 0 <= k < |chunks| - 1 ==> |Utf8Text(chunks[k])| + |Utf8Char(chunks[k + 1][0])| > 45
  }

  /** How many characters from the front fit the room. */
  function FitLength(text: string, room: nat): (n: nat)
    ensures n <= |text|
  {
    if text == "" || |Utf8Char(text[0])| > room then 0
    else 1 + FitLength(text[1..], room - |Utf8Char(text[0])|)
  }

  lemma FirstFits(text: string)
    requires text != ""
    ensures FitLength(text, 45) > 0
  {
  }

  /** The chunks of a value: as many characters as fit, then those of the rest. */
  function Cut(value: string): seq<string>
    decreases |value|
  {
    if value == "" then []
    else
      FirstFits(value);
      [value[..FitLength(value, 45)]] + Cut(value[FitLength(value, 45)..])
  }

  /** What a value is sent as: ASCII is left alone. */
  function EncodedHeader(value: string): seq<byte> {
    if IsAscii(value) then Utf8Text(value) else JoinWords(WordsOf(Cut(value)))
  }

  /** Encodes a value, unless it is ASCII already; the result is given as bytes. */
  method EncodeHeaderValue(value: string) returns (out: seq<byte>)
    ensures out == EncodedHeader(value)
  {
    hide Utf8Char, Utf8Text, Encode64, IsCut, Cut;
    ghost var chunks: seq<string> := [];
    if IsAscii(value) {
      return Utf8Text(value);
    }
    var words: seq<seq<byte>> := [];
    var chunk: seq<byte> := [];
    ghost var current := "";
    NothingCut();
    for k := 0 to |value|
      invariant Cutting(value[..k], chunks, current) && chunk == Utf8Text(current)
      invariant |words| == |chunks| && forall i :: 0 <= i < |words| ==> words[i] == Utf8Text(chunks[i])
      invariant k > 0 ==> current != ""
    {
      var encoded := Utf8Char(value[k]);
      NextCharacter(value, k, chunks, current);
      if |chunk| + |encoded| > 45 {
        words := words + [chunk];
        chunks := chunks + [current];
        chunk := [];
        current := "";
      }
      chunk := chunk + encoded;
      current := current + [value[k]];
    }
    assert value[..|value|] == value;
    LastChunk(value, chunks, current);
    if chunk != [] {
      words := words + [chunk];
    }
    chunks := chunks + [current];
    OnlyCut(value, chunks);
    var encodedWords := seq(|words|, i requires 0 <= i < |words| => WordOf(words[i]));
    assert encodedWords == WordsOf(chunks);
    out := JoinWords(encodedWords);
  }

  /** What fits is the one prefix within the room that the next character would burst. */
  lemma {:induction false} FitIs(text: string, room: nat, m: nat)
    requires m <= |text| && |Utf8Text(text[..m])| <= room
    requires m < |text| ==> |Utf8Text(text[..m])| + |Utf8Char(text[m])| > room
    ensures FitLength(text, room) == m
  {
    hide Utf8Char;
    if m > 0 {
      assert text[..m][1..] == text[1..][..m - 1];
      FitIs(text[1..], room - |Utf8Char(text[0])|, m - 1);
    } else if text != "" {
      assert Utf8Text(text[..0]) == [];
    }
  }

  lemma {:induction false} FitFacts(text: string, room: nat)
    ensures var n := FitLength(text, room);
            && |Utf8Text(text[..n])| <= room
            && (n < |text| ==> |Utf8Text(text[..n])| + |Utf8Char(text[n])| > room)
  {
    hide Utf8Char;
    if text != "" && |Utf8Char(text[0])| <= room {
      var n := FitLength(text, room);
      FitFacts(text[1..], room - |Utf8Char(text[0])|);
      assert text[..n][1..] == text[1..][..n - 1];
    } else {
      assert Utf8Text(text[..0]) == [];
    }
  }

  lemma {:induction false} ConcatFront(first: string, rest: seq<string>)
    ensures Concat([first] + rest) == first + Concat(rest)
    decreases |rest|
  {
    if rest == [] {
      assert [first][..0] == [];
    } else {
      var n := |rest| - 1;
      var all := [first] + rest;
      ConcatFront(first, rest[..n]);
      assert all[..n + 1] == [first] + rest[..n] && all[n + 1] == rest[n];
      assert Concat(all) == Concat(all[..n + 1]) + all[n + 1];
    }
  }

  /** The chunks of a value are a cut of it. */
  lemma {:induction false} CutIsCut(value: string)
    ensures IsCut(value, Cut(value)) && (Cut(value) == [] <==> value == "")
    decreases |value|
  {
    hide Utf8Char, Utf8Text, FitLength, Concat;
    if value == "" {
      NothingCutIs();
    } else {
      var n := FitLength(value, 45);
      FirstFits(value);
      FitFacts(value, 45);
      CutIsCut(value[n..]);
      ConcatFront(value[..n], Cut(value[n..]));
      CutStarts(value[n..]);
    }
  }

  lemma NothingCutIs()
    ensures Cut("") == [] && IsCut("", [])
  {
  }

  lemma CutStarts(value: string)
    ensures Cut(value) != [] ==> value != "" && Cut(value)[0] != "" && Cut(value)[0][0] == value[0]
  {
    hide Utf8Char;
  }

  /** The first chunk of a cut is what fits, and the others are a cut of the rest. */
  lemma FirstOfCut(value: string, chunks: seq<string>)
    requires IsCut(value, chunks) && chunks != []
    ensures value != "" && FitLength(value, 45) == |chunks[0]|
    ensures value[..|chunks[0]|] == chunks[0] && IsCut(value[|chunks[0]|..], chunks[1..])
  {
    hide Utf8Char, Utf8Text, FitLength, Concat;
    var first, rest := chunks[0], chunks[1..];
    assert chunks == [first] + rest;
    ConcatFront(first, rest);
    assert value[..|first|] == first && value[|first|..] == Concat(rest);
    assert forall k :: 0 <= k < |rest| ==> rest[k] == chunks[k + 1];
    ConcatStarts(rest);
    FitIs(value, 45, |first|);
  }

  lemma ConcatStarts(texts: seq<string>)
    ensures if texts == [] then Concat(texts) == ""
            else texts[0] != "" ==> Concat(texts) != "" && Concat(texts)[0] == texts[0][0]
  {
    if texts != [] {
      assert texts == [texts[0]] + texts[1..];
      ConcatFront(texts[0], texts[1..]);
    }
  }

  /** And they are the only one. */
  lemma {:induction false} OnlyCut(value: string, chunks: seq<string>)
    requires IsCut(value, chunks)
    ensures chunks == Cut(value)
    decreases |chunks|
  {
    hide IsCut, FitLength;
    if chunks == [] {
      EmptyCut(value);
    } else {
      FirstOfCut(value, chunks);
      OnlyCut(value[|chunks[0]|..], chunks[1..]);
      assert chunks == [chunks[0]] + chunks[1..];
    }
  }

  lemma EmptyCut(value: string)
    requires IsCut(value, [])
    ensures value == ""
  {
  }

  /** The cut so far: finished chunks, and one that can still grow. */
  ghost predicate Cutting(value: string, chunks: seq<string>, current: string) {
    && Concat(chunks) + current == value
    && (forall k :: 0 <= k < |chunks| ==> chunks[k] != "" && |Utf8Text(chunks[k])| <= 45)
    && |Utf8Text(current)| <= 45 && (chunks != [] ==> current != "")
    && forall k {:trigger chunks[k]} :: 0 <= k < |chunks| ==>
         |Utf8Text(chunks[k])| + |Utf8Char(if k < |chunks| - 1 then Head(chunks[k + 1]) else Head(current))| > 45
  }

  function Head(text: string): char {
    if text == "" then ' ' else text[0]
  }

  lemma NothingCut()
    ensures Cutting("", [], "") && Utf8Text("") == []
  {
  }

  lemma OneCharacter(c: char)
    ensures Utf8Text([c]) == Utf8Char(c)
  {
  }

  lemma NextCharacter(value: string, k: nat, chunks: seq<string>, current: string)
    requires k < |value| && Cutting(value[..k], chunks, current)
    requires k > 0 ==> current != ""
    ensures Utf8Text(current + [value[k]]) == Utf8Text(current) + Utf8Char(value[k])
    ensures [] + Utf8Char(value[k]) == Utf8Text("" + [value[k]])
    ensures if |Utf8Text(current)| + |Utf8Char(value[k])| > 45
            then current != "" && Cutting(value[..k + 1], chunks + [current], "" + [value[k]])
            else Cutting(value[..k + 1], chunks, current + [value[k]])
  {
    hide Utf8Char, Utf8Text, Cutting;
    var c := value[k];
    NothingCut();
    OneCharacter(c);
    Utf8Concat(current, [c]);
    assert value[..k + 1] == value[..k] + [c] && "" + [c] == [c];
    if |Utf8Text(current)| + |Utf8Char(c)| > 45 {
      CutHere(value[..k], chunks, current, c);
    } else {
      GrowHere(value[..k], chunks, current, c);
    }
  }

  lemma CutHere(value: string, chunks: seq<string>, current: string, c: char)
    requires Cutting(value, chunks, current) && current != ""
    requires |Utf8Text(current)| + |Utf8Char(c)| > 45 && |Utf8Text([c])| <= 45
    ensures Cutting(value + [c], chunks + [current], [c])
  {
  }

  lemma GrowHere(value: string, chunks: seq<string>, current: string, c: char)
    requires Cutting(value, chunks, current) && |Utf8Text(current + [c])| <= 45
    ensures Cutting(value + [c], chunks, current + [c])
  {
  }

  lemma LastChunk(value: string, chunks: seq<string>, current: string)
    requires Cutting(value, chunks, current) && value != "" && current != ""
    ensures IsCut(value, chunks + [current]) && Utf8Text(current) != []
  {
    hide Utf8Char, Utf8Text, Concat;
    var all := chunks + [current];
    ConcatMore(chunks, current);
    TextIsLong(current);
    forall k | 0 <= k < |all| - 1 ensures |Utf8Text(all[k])| + |Utf8Char(all[k + 1][0])| > 45 {
      assert all[k] == chunks[k] && all[k + 1] == if k < |chunks| - 1 then chunks[k + 1] else current;
    }
  }

  lemma ConcatMore(texts: seq<string>, text: string)
    ensures Concat(texts + [text]) == Concat(texts) + text
  {
  }

  lemma TextIsLong(text: string)
    requires text != ""
    ensures Utf8Text(text) != []
  {
  }

  // ----- words that stand alone -----

  /** The whole of `word` is one encoded word. */
  predicate StandsAlone(t: Tables, word: seq<byte>) {
    ParseWord(t, word).Some? && ParseWord(t, word).value.length == |word|
  }

  /** What an encoded word says. */
  function TextOf(t: Tables, word: seq<byte>): string {
    match ParseWord(t, word)
    case Some(parsed) => parsed.text
    case None => ""
  }

  lemma CloseIs(bytes: seq<byte>, i: nat)
    requires i + 1 < |bytes| && bytes[i] == QMARK && bytes[i + 1] == EQUALS
    requires forall k :: 0 <= k < i ==> !(bytes[k] == QMARK && bytes[k + 1] == EQUALS)
    ensures Close(bytes) == i
  {
  }

  /** How a well-formed word is read. */
  lemma WordParses(t: Tables, charset: seq<byte>, encoding: byte, text: seq<byte>, rest: seq<byte>)
    requires charset != [] && QMARK !in charset && !HasWhite(charset) && !HasWhite(text)
    requires forall k :: 0 <= k < |text| - 1 ==> !(text[k] == QMARK && text[k + 1] == EQUALS)
    ensures var word := [EQUALS, QMARK] + charset + [QMARK, encoding, QMARK] + text + SUFFIX;
            ParseWord(t, word + rest) ==
            if RawText(encoding, text).None? || FromUtf8(charset).None? then None
            else Some(Word(DecodeWithCharset(t, RawText(encoding, text).value, FromUtf8(charset).value), |word|))
  {
    hide HasWhite, RawText, FromUtf8, DecodeWithCharset, IndexOf, Close, ParseWord;
    var word := [EQUALS, QMARK] + charset + [QMARK, encoding, QMARK] + text + SUFFIX;
    var after, tail := charset + ([QMARK, encoding, QMARK] + text + SUFFIX + rest), text + (SUFFIX + rest);
    WordAfter(charset, encoding, text, rest);
    CharsetEnds(charset, [QMARK, encoding, QMARK] + text + SUFFIX + rest);
    TextEnds(text, rest);
    ParseAs(t, word + rest, after, tail, |charset|, |text|);
  }

  lemma CharsetEnds(charset: seq<byte>, more: seq<byte>)
    requires QMARK !in charset && more != [] && more[0] == QMARK
    ensures IndexOf(charset + more, QMARK) == |charset|
  {
    hide IndexOf;
    IndexOfIs(charset + more, QMARK, |charset|);
  }

  lemma TextEnds(text: seq<byte>, rest: seq<byte>)
    requires forall k :: 0 <= k < |text| - 1 ==> !(text[k] == QMARK && text[k + 1] == EQUALS)
    ensures Close(text + (SUFFIX + rest)) == |text|
  {
    hide Close;
    CloseIs(text + (SUFFIX + rest), |text|);
  }

  lemma WordAfter(charset: seq<byte>, encoding: byte, text: seq<byte>, rest: seq<byte>)
    ensures var input := [EQUALS, QMARK] + charset + [QMARK, encoding, QMARK] + text + SUFFIX + rest;
            var after := charset + ([QMARK, encoding, QMARK] + text + SUFFIX + rest);
            var tail := text + (SUFFIX + rest);
            && Opens(input) && input[2..] == after && after[..|charset|] == charset
            && |charset| + 3 <= |after| && after[|charset| + 1] == encoding && after[|charset| + 2] == QMARK
            && after[|charset| + 3..] == tail && tail[..|text|] == text
  {
  }

  lemma ParseAs(t: Tables, input: seq<byte>, after: seq<byte>, tail: seq<byte>, c: nat, n: nat)
    requires Opens(input) && after == input[2..]
    requires 0 < c == IndexOf(after, QMARK) && c + 3 <= |after| && after[c + 2] == QMARK && !HasWhite(after[..c])
    requires tail == after[c + 3..] && n == Close(tail) < |tail| && !HasWhite(tail[..n])
    ensures ParseWord(t, input) ==
            var raw, charset := RawText(after[c + 1], tail[..n]), FromUtf8(after[..c]);
            if raw.None? || charset.None? then None
            else Some(Word(DecodeWithCharset(t, raw.value, charset.value), c + n + 7))
  {
    hide HasWhite, RawText, FromUtf8, DecodeWithCharset, IndexOf, Close;
  }

  /** What follows a word that stands alone does not change how it is read. */
  lemma AloneThenMore(t: Tables, word: seq<byte>, rest: seq<byte>)
    requires StandsAlone(t, word)
    ensures ParseWord(t, word + rest) == ParseWord(t, word)
  {
    hide HasWhite, RawText, FromUtf8, DecodeWithCharset;
    var after := word[2..];
    var c := IndexOf(after, QMARK);
    var n := Close(after[c + 3..]);
    var charset, encoding, text := after[..c], after[c + 1], after[c + 3..][..n];
    assert word == [EQUALS, QMARK] + charset + [QMARK, encoding, QMARK] + text + SUFFIX;
    WordParses(t, charset, encoding, text, rest);
  }

  /** A word the "=?" of which comes after nothing but blanks is the first word. */
  lemma FirstAfterBlanks(t: Tables, blanks: seq<byte>, rest: seq<byte>)
    requires forall k :: 0 <= k < |blanks| ==> BlankByte(blanks[k])
    requires rest != [] && ParseWord(t, rest).Some?
    ensures FirstWord(t, blanks + rest) == |blanks|
  {
    hide ParseWord, FirstWord;
    var bytes := blanks + rest;
    assert bytes[|blanks|..] == rest;
    forall k | 0 <= k < |blanks| ensures ParseWord(t, bytes[k..]).None? {
      ParsedWordOpens(t, bytes[k..]);
    }
    FirstWordIs(t, bytes, |blanks|);
  }

  /** Words with separators between them: `blanks[k]` follows `words[k]`. */
  function Spaced(words: seq<seq<byte>>, blanks: seq<seq<byte>>): seq<byte>
    requires |words| == |blanks| + 1
  {
    if blanks == [] then words[0] else words[0] + (blanks[0] + Spaced(words[1..], blanks[1..]))
  }

  function TextsOf(t: Tables, words: seq<seq<byte>>): (texts: seq<string>)
    ensures |texts| == |words| && forall k :: 0 <= k < |words| ==> texts[k] == TextOf(t, words[k])
  {
    seq(|words|, k requires 0 <= k < |words| => TextOf(t, words[k]))
  }

  /** The parts of spaced words: each word, and each separator. */
  function SpacedParts(texts: seq<string>, blanks: seq<seq<byte>>): (parts: seq<Part>)
    requires |texts| == |blanks| + 1
    ensures |parts| == 2 * |blanks| + 1
    ensures forall k :: 0 <= k < |parts| ==>
              parts[k] == if k % 2 == 0 then Encoded(texts[k / 2]) else Raw(blanks[k / 2])
  {
    seq(2 * |blanks| + 1, k requires 0 <= k < 2 * |blanks| + 1 =>
      if k % 2 == 0 then Encoded(texts[k / 2]) else Raw(blanks[k / 2]))
  }

  lemma SpacedPartsStep(texts: seq<string>, blanks: seq<seq<byte>>)
    requires |texts| == |blanks| + 1 && blanks != []
    ensures SpacedParts(texts, blanks) == [Encoded(texts[0]), Raw(blanks[0])] + SpacedParts(texts[1..], blanks[1..])
  {
  }

  lemma {:induction false} SpacedSplit(t: Tables, words: seq<seq<byte>>, blanks: seq<seq<byte>>)
    requires |words| == |blanks| + 1
    requires forall k :: 0 <= k < |words| ==> StandsAlone(t, words[k])
    requires forall k :: 0 <= k < |blanks| ==> IsBlankRun(blanks[k])
    ensures PartsOf(t, Spaced(words, blanks)) == SpacedParts(TextsOf(t, words), blanks)
    ensures ParseWord(t, Spaced(words, blanks)) == ParseWord(t, words[0]) && Spaced(words, blanks) != []
    decreases |blanks|
  {
    hide ParseWord, FirstWord, PartsOf;
    var bytes := Spaced(words, blanks);
    ParsedWordOpens(t, words[0]);
    if blanks == [] {
      assert bytes + [] == bytes;
      NoParts(t);
      OneWord(t, bytes, []);
      assert SpacedParts(TextsOf(t, words), blanks) == [Encoded(TextsOf(t, words)[0])];
    } else {
      var rest := Spaced(words[1..], blanks[1..]);
      SpacedSplit(t, words[1..], blanks[1..]);
      AloneThenMore(t, words[0], blanks[0] + rest);
      OneWord(t, words[0], blanks[0] + rest);
      BlanksThenWord(t, blanks[0], rest);
      SpacedPartsStep(TextsOf(t, words), blanks);
      assert TextsOf(t, words)[1..] == TextsOf(t, words[1..]);
    }
  }

  lemma NoParts(t: Tables)
    ensures PartsOf(t, []) == []
  {
  }

  lemma OneWord(t: Tables, word: seq<byte>, rest: seq<byte>)
    requires StandsAlone(t, word) && ParseWord(t, word + rest) == ParseWord(t, word)
    ensures word != []
    ensures PartsOf(t, word + rest) == [Encoded(TextOf(t, word))] + PartsOf(t, rest)
  {
    hide ParseWord, FirstWord, PartsOf;
    ParsedWordOpens(t, word);
    var bytes := word + rest;
    assert bytes[0..] == bytes && bytes[|word|..] == rest;
    PartsAt(t, bytes, 0);
    assert RawPart(bytes[..0]) == [];
    assert [] + [Encoded(TextOf(t, word))] == [Encoded(TextOf(t, word))];
  }

  /** A separator and what comes after it. */
  lemma BlanksThenWord(t: Tables, blanks: seq<byte>, rest: seq<byte>)
    requires IsBlankRun(blanks) && rest != [] && ParseWord(t, rest).Some?
    ensures PartsOf(t, blanks + rest) == [Raw(blanks)] + PartsOf(t, rest)
  {
    hide ParseWord, FirstWord, PartsOf;
    FirstAfterBlanks(t, blanks, rest);
    var bytes := blanks + rest;
    assert bytes[|blanks|..] == rest && bytes[..|blanks|] == blanks && rest[0..] == rest;
    assert forall k :: 0 <= k < |blanks| ==> ParseWord(t, bytes[k..]).None?;
    PartsAt(t, bytes, |blanks|);
    PartsAt(t, rest, 0);
    var word := ParseWord(t, rest).value;
    assert bytes[|blanks| + word.length..] == rest[word.length..];
    assert RawPart(rest[..0]) == [];
    Regrouped([Raw(blanks)], [], [Encoded(word.text)], PartsOf(t, rest[word.length..]));
    assert [Raw(blanks)] + [] == [Raw(blanks)];
  }

  /** A word shows its text, and the separator before it nothing. */
  lemma ShownPair(t: Tables, texts: seq<string>, blanks: seq<seq<byte>>, n: nat)
    requires |texts| == |blanks| + 1 && n < |texts|
    requires forall k :: 0 <= k < |blanks| ==> IsBlankRun(blanks[k])
    ensures ShownPart(t, SpacedParts(texts, blanks), 2 * n) == texts[n]
    ensures n > 0 ==> ShownPart(t, SpacedParts(texts, blanks), 2 * n - 1) == ""
  {
    hide IsBlankRun, Decode8Bit;
    assert 2 * n / 2 == n && 2 * n % 2 == 0;
    if n > 0 {
      assert (2 * n - 1) / 2 == n - 1 && (2 * n - 1) % 2 == 1;
      assert (2 * n - 2) % 2 == 0;
    }
  }

  lemma {:induction false} ShownSpaced(t: Tables, texts: seq<string>, blanks: seq<seq<byte>>, n: nat)
    requires |texts| == |blanks| + 1 && n < |texts|
    requires forall k :: 0 <= k < |blanks| ==> IsBlankRun(blanks[k])
    ensures ShownFirst(t, SpacedParts(texts, blanks), 2 * n + 1) == Concat(texts[..n + 1])
    decreases n
  {
    hide IsBlankRun, ShownPart, SpacedParts;
    ShownPair(t, texts, blanks, n);
    assert texts[..n + 1][..n] == texts[..n];
    if n > 0 {
      ShownSpaced(t, texts, blanks, n - 1);
      assert ShownFirst(t, SpacedParts(texts, blanks), 2 * n) == Concat(texts[..n]) + "";
    } else {
      assert texts[..0] == [];
    }
  }

  /** Encoded words with white space between them show as their texts, and nothing else: the white
      space is exactly what is dropped (section 6.2 of RFC 2047). */
  lemma SpacedWordsShow(t: Tables, words: seq<seq<byte>>, blanks: seq<seq<byte>>)
    requires |words| == |blanks| + 1
    requires forall k :: 0 <= k < |words| ==> StandsAlone(t, words[k])
    requires forall k :: 0 <= k < |blanks| ==> IsBlankRun(blanks[k])
    ensures DecodedHeader(t, Spaced(words, blanks)) == Concat(TextsOf(t, words))
  {
    hide StandsAlone, IsBlankRun, PartsOf, ParseWord, TextsOf, Spaced, Concat, ShownFirst;
    SpacedSplit(t, words, blanks);
    ShownSpaced(t, TextsOf(t, words), blanks, |blanks|);
    assert TextsOf(t, words)[..|blanks| + 1] == TextsOf(t, words);
  }

  // ----- encoding, then decoding -----

  const UTF8_LABEL: seq<byte> := [85, 84, 70, 45, 56]

  lemma UnquotedIs(text: string)
    requires text != "" && text[0] != '\"' && text[|text| - 1] != '\"'
    ensures Unquoted(text) == text
  {
  }

  lemma LabelBytes()
    ensures Utf8Text("UTF-8") == UTF8_LABEL
  {
  }

  lemma LabelNames()
    ensures NamesUtf8(CleanLabel("UTF-8"))
  {
    hide Split;
    var name := "UTF-8";
    assert '*' !in name;
    Decimals.TrimTight(name);
    UnquotedIs(name);
    assert CleanLabel(name) == name;
    assert AsciiLower(name) == "utf-8";
  }

  /** The label the encoder writes is recognised. */
  lemma LabelIsUtf8()
    ensures FromUtf8(UTF8_LABEL) == Some("UTF-8") && NamesUtf8(CleanLabel("UTF-8"))
    ensures QMARK !in UTF8_LABEL && !HasWhite(UTF8_LABEL)
  {
    hide FromUtf8, Utf8Text, NamesUtf8, CleanLabel;
    LabelNames();
    LabelBytes();
    Utf8RoundTrip("UTF-8");
  }

  /** What a chunk decodes to: a byte order mark in front is lost. */
  function Surviving(chunk: string): string {
    if chunk != "" && chunk[0] == BOM then chunk[1..] else chunk
  }

  lemma BomBytes()
    ensures Utf8Char(BOM) == [0xEF, 0xBB, 0xBF]
  {
  }

  predicate Marked(bytes: seq<byte>) {
    |bytes| >= 3 && bytes[..3] == [0xEF, 0xBB, 0xBF]
  }

  lemma MarkedText(chunk: string)
    ensures Marked(Utf8Text(chunk)) <==> chunk != "" && chunk[0] == BOM
    ensures Marked(Utf8Text(chunk)) ==> Utf8Text(chunk)[3..] == Utf8Text(chunk[1..])
  {
    hide Utf8Char, FrontChar;
    var bytes := Utf8Text(chunk);
    BomBytes();
    if Marked(bytes) {
      FrontOfChar(BOM, bytes[3..]);
      assert bytes == Utf8Char(BOM) + bytes[3..];
      FrontOfChar(chunk[0], Utf8Text(chunk[1..]));
    }
    if chunk != "" && chunk[0] == BOM {
      assert bytes[..3] == Utf8Char(BOM);
    }
  }

  lemma MarkInFront(chunk: string)
    ensures FromUtf8(WithoutBom(Utf8Text(chunk))) == Some(Surviving(chunk))
  {
    hide FromUtf8, Utf8Text;
    MarkedText(chunk);
    Utf8RoundTrip(chunk);
    Utf8RoundTrip(Surviving(chunk));
  }

  /** Each encoded word stands alone and says its chunk; it is short and holds whole characters. */
  lemma EncodedWordStandsAlone(t: Tables, chunk: string)
    requires |Utf8Text(chunk)| <= 45
    ensures var word := WordOf(Utf8Text(chunk));
            StandsAlone(t, word) && TextOf(t, word) == Surviving(chunk) && |word| <= 75
  {
    hide ParseWord, HasWhite, FromUtf8, Encode64, Decode64, NamesUtf8, CleanLabel, WithoutBom, Surviving, Utf8Text;
    var bytes := Utf8Text(chunk);
    var text := Encode64(bytes);
    Base64RoundTrip(bytes);
    LabelIsUtf8();
    MarkInFront(chunk);
    PlainText(text);
    WordParses(t, UTF8_LABEL, 66, text, []);
    var word := WordOf(bytes);
    assert word == [EQUALS, QMARK] + UTF8_LABEL + [QMARK, 66, QMARK] + text + SUFFIX;
    assert word + [] == word;
  }

  lemma PlainText(text: seq<byte>)
    requires forall k :: 0 <= k < |text| ==> text[k] != QMARK && !IsWhite(text[k])
    ensures !HasWhite(text) && forall k :: 0 <= k < |text| - 1 ==> !(text[k] == QMARK && text[k + 1] == EQUALS)
  {
  }

  lemma {:induction false} JoinedIsSpaced(words: seq<seq<byte>>)
    requires words != []
    ensures JoinWords(words) == Spaced(words, seq(|words| - 1, k => [SPACE]))
  {
    var blanks := seq(|words| - 1, k => [SPACE]);
    if |words| > 1 {
      JoinedIsSpaced(words[1..]);
      assert blanks[1..] == seq(|words| - 2, k => [SPACE]);
      assert words[0] + [SPACE] + JoinWords(words[1..]) == words[0] + ([SPACE] + JoinWords(words[1..]));
    }
  }

  function SurvivingAll(chunks: seq<string>): (texts: seq<string>)
    ensures |texts| == |chunks| && forall k :: 0 <= k < |chunks| ==> texts[k] == Surviving(chunks[k])
  {
    seq(|chunks|, k requires 0 <= k < |chunks| => Surviving(chunks[k]))
  }

  /** Words cut anywhere between characters are decoded to what survives of their chunks. */
  lemma WordsDecode(t: Tables, chunks: seq<string>)
    requires chunks != [] && forall k :: 0 <= k < |chunks| ==> |Utf8Text(chunks[k])| <= 45
    ensures DecodedHeader(t, JoinWords(WordsOf(chunks))) == Concat(SurvivingAll(chunks))
  {
    hide StandsAlone, TextOf, WordOf, DecodedHeader, Surviving, Utf8Text, JoinWords, Spaced, Concat;
    var words := WordsOf(chunks);
    var blanks := seq(|words| - 1, k => [SPACE]);
    forall k | 0 <= k < |chunks| ensures StandsAlone(t, words[k]) && TextOf(t, words[k]) == Surviving(chunks[k]) {
      EncodedWordStandsAlone(t, chunks[k]);
    }
    JoinedIsSpaced(words);
    SpacedWordsShow(t, words, blanks);
    assert TextsOf(t, words) == SurvivingAll(chunks);
  }

  lemma SurvivorIs(chunk: string)
    ensures if Head(chunk) == BOM then |Surviving(chunk)| < |chunk| else Surviving(chunk) == chunk
  {
  }

  /** The last chunk of each, by length. */
  lemma LastDecides(kept: string, whole: string, last: string, rest: string)
    requires |last| <= |rest| && (last != rest ==> |last| < |rest|)
    requires |kept| <= |whole| && (kept != whole ==> |kept| < |whole|)
    ensures kept + last == whole + rest <==> kept == whole && last == rest
    ensures |kept + last| <= |whole + rest| && (kept + last != whole + rest ==> |kept + last| < |whole + rest|)
  {
  }

  lemma {:induction false} NothingLostUnlessMarked(chunks: seq<string>)
    ensures |Concat(SurvivingAll(chunks))| <= |Concat(chunks)|
    ensures Concat(SurvivingAll(chunks)) == Concat(chunks) <==> forall k :: 0 <= k < |chunks| ==> Head(chunks[k]) != BOM
    ensures Concat(SurvivingAll(chunks)) != Concat(chunks) ==> |Concat(SurvivingAll(chunks))| < |Concat(chunks)|
    decreases |chunks|
  {
    hide Surviving, Head;
    if chunks != [] {
      var n := |chunks| - 1;
      NothingLostUnlessMarked(chunks[..n]);
      SurvivorIs(chunks[n]);
      assert SurvivingAll(chunks)[..n] == SurvivingAll(chunks[..n]);
      LastDecides(Concat(SurvivingAll(chunks[..n])), Concat(chunks[..n]), Surviving(chunks[n]), chunks[n]);
    }
  }

  // ----- values that hold something like an encoded word -----

  /** No tab, line feed, form feed, carriage return or space. */
  ghost predicate NoWhite(bytes: seq<byte>) {
    forall k :: 0 <= k < |bytes| ==> bytes[k] !in {9, 10, 12, 13, 32}
  }

  lemma NoWhiteIs(bytes: seq<byte>)
    ensures NoWhite(bytes) <==> !HasWhite(bytes)
  {
  }

  /** An encoded word starts at `i`, with a charset of `c` bytes and a text of `n`. */
  ghost predicate WordAt(bytes: seq<byte>, i: nat, c: nat, n: nat) {
    && i + c + n + 7 <= |bytes| && c > 0
    && bytes[i] == EQUALS && bytes[i + 1] == QMARK
    && var charset, text := bytes[i + 2..i + 2 + c], bytes[i + c + 5..i + c + 5 + n];
    && QMARK !in charset && NoWhite(charset) && FromUtf8(charset).Some?
    && bytes[i + c + 2] == QMARK && RawText(bytes[i + c + 3], text).Some? && bytes[i + c + 4] == QMARK
    && NoWhite(text) && (forall k :: 0 <= k < n - 1 ==> !(text[k] == QMARK && text[k + 1] == EQUALS))
    && bytes[i + c + n + 5] == QMARK && bytes[i + c + n + 6] == EQUALS
  }

  /** Somewhere in these bytes is an encoded word. */
  ghost predicate HoldsWord(bytes: seq<byte>) {
    exists i, c, n :: WordAt(bytes, i, c, n)
  }

  /** A word found is a word there is. */
  lemma ParsedIsWord(t: Tables, bytes: seq<byte>, i: nat)
    requires i <= |bytes| && ParseWord(t, bytes[i..]).Some?
    ensures HoldsWord(bytes)
  {
    hide HasWhite, RawText, FromUtf8, DecodeWithCharset, IndexOf, Close;
    var after := bytes[i..][2..];
    var c := IndexOf(after, QMARK);
    var rest := after[c + 3..];
    var n := Close(rest);
    assert after == bytes[i + 2..] && rest == bytes[i + c + 5..];
    assert after[..c] == bytes[i + 2..i + 2 + c] && rest[..n] == bytes[i + c + 5..i + c + 5 + n];
    NoWhiteIs(after[..c]);
    NoWhiteIs(rest[..n]);
    assert WordAt(bytes, i, c, n);
  }

  /** And the other way round. */
  lemma WordIsParsed(t: Tables, bytes: seq<byte>, i: nat, c: nat, n: nat)
    requires WordAt(bytes, i, c, n)
    ensures ParseWord(t, bytes[i..]).Some?
  {
    hide HasWhite, RawText, FromUtf8, DecodeWithCharset, ParseWord;
    var charset, encoding, text := bytes[i + 2..i + 2 + c], bytes[i + c + 3], bytes[i + c + 5..i + c + 5 + n];
    NoWhiteIs(charset);
    NoWhiteIs(text);
    WordParses(t, charset, encoding, text, bytes[i + c + n + 7..]);
    var word := [EQUALS, QMARK] + charset + [QMARK, encoding, QMARK] + text + SUFFIX;
    assert bytes[i..] == word + bytes[i + c + n + 7..];
  }

  lemma {:induction false} FirstWordMeans(t: Tables, bytes: seq<byte>)
    ensures forall k :: 0 <= k < FirstWord(t, bytes) ==> ParseWord(t, bytes[k..]).None?
    ensures FirstWord(t, bytes) < |bytes| ==> ParseWord(t, bytes[FirstWord(t, bytes)..]).Some?
    decreases |bytes|
  {
    hide ParseWord;
    assert bytes[0..] == bytes;
    if bytes != [] && ParseWord(t, bytes).None? {
      FirstWordMeans(t, bytes[1..]);
      assert forall k :: 0 < k <= |bytes| ==> bytes[1..][k - 1..] == bytes[k..];
    }
  }

  /** The first word is missing exactly when there is none. */
  lemma NoFirstWord(t: Tables, bytes: seq<byte>)
    ensures FirstWord(t, bytes) < |bytes| <==> HoldsWord(bytes)
  {
    hide ParseWord, WordAt, FirstWord;
    FirstWordMeans(t, bytes);
    if FirstWord(t, bytes) < |bytes| {
      ParsedIsWord(t, bytes, FirstWord(t, bytes));
    }
    if i, c, n :| WordAt(bytes, i, c, n) {
      WordIsParsed(t, bytes, i, c, n);
      WordInside(bytes, i, c, n);
    }
  }

  lemma WordInside(bytes: seq<byte>, i: nat, c: nat, n: nat)
    requires WordAt(bytes, i, c, n)
    ensures i < |bytes|
  {
  }

  // ----- how long what is decoded can be -----

  /** The charset tables turn no byte into more than one character. */
  ghost predicate Frugal(t: Tables) {
    && (forall bytes :: |t.windows1252(bytes)| <= |bytes|)
    && (forall bytes :: |t.lossyUtf8(bytes)| <= |bytes|)
    && (forall bytes, name :: t.labelled(bytes, name).Some? ==> |t.labelled(bytes, name).value| <= |bytes|)
  }

  lemma {:induction false} FromUtf8Short(bytes: seq<byte>)
    ensures FromUtf8(bytes).Some? ==> |FromUtf8(bytes).value| <= |bytes|
    decreases |bytes|
  {
    hide FrontChar, Width;
    if bytes != [] && FrontChar(bytes).Some? {
      FromUtf8Short(bytes[Width(bytes[0]).value..]);
    }
  }

  lemma CharsetShort(t: Tables, bytes: seq<byte>, charset: string)
    requires Frugal(t)
    ensures |DecodeWithCharset(t, bytes, charset)| <= |bytes| && |Decode8Bit(t, bytes)| <= |bytes|
  {
    hide FromUtf8, NamesUtf8, CleanLabel;
    FromUtf8Short(bytes);
    FromUtf8Short(WithoutBom(bytes));
  }

  lemma {:induction false} DecodedQShort(bytes: seq<byte>)
    ensures |DecodedQ(bytes)| <= |bytes|
    decreases |bytes|
  {
    hide HexValue;
    if bytes != [] {
      DecodedQShort(bytes[FrontQ(bytes).1..]);
    }
  }

  lemma RawTextShort(encoding: byte, text: seq<byte>)
    ensures RawText(encoding, text).Some? ==> |RawText(encoding, text).value| <= |text|
  {
    hide DecodedQ, Decode64;
    DecodedQShort(text);
    Decode64Short(text);
  }

  /** A word shows less than it takes. */
  lemma WordShrinks(t: Tables, input: seq<byte>)
    requires Frugal(t) && ParseWord(t, input).Some?
    ensures |ParseWord(t, input).value.text| < ParseWord(t, input).value.length <= |input|
  {
    hide HasWhite, RawText, FromUtf8, DecodeWithCharset, Frugal;
    var after := input[2..];
    var c := IndexOf(after, QMARK);
    var rest := after[c + 3..];
    var text := rest[..Close(rest)];
    RawTextShort(after[c + 1], text);
    CharsetShort(t, RawText(after[c + 1], text).value, FromUtf8(after[..c]).value);
  }

  /** How many characters the parts can show. */
  function Measure(parts: seq<Part>): nat {
    if parts == [] then 0
    else Measure(parts[..|parts| - 1]) +
         match parts[|parts| - 1]
         case Encoded(text) => |text|
         case Raw(bytes) => |bytes|
  }

  lemma {:induction false} MeasureConcat(a: seq<Part>, b: seq<Part>)
    ensures Measure(a + b) == Measure(a) + Measure(b)
    decreases |b|
  {
    if b == [] {
      assert a + b == a;
    } else {
      var n := |b| - 1;
      MeasureConcat(a, b[..n]);
      assert (a + b)[..|a| + n] == a + b[..n];
    }
  }

  lemma {:induction false} ShownWithin(t: Tables, parts: seq<Part>, n: nat)
    requires Frugal(t) && n <= |parts|
    ensures |ShownFirst(t, parts, n)| <= Measure(parts[..n])
    decreases n
  {
    hide Decode8Bit, IsBlankRun, BetweenWords, Frugal;
    if n > 0 {
      ShownWithin(t, parts, n - 1);
      assert parts[..n][..n - 1] == parts[..n - 1];
      if parts[n - 1].Raw? {
        CharsetShort(t, parts[n - 1].bytes, "");
      }
    }
  }

  lemma {:induction false} PartsMeasure(t: Tables, bytes: seq<byte>)
    requires Frugal(t)
    ensures Measure(PartsOf(t, bytes)) <= |bytes|
    ensures FirstWord(t, bytes) < |bytes| ==> Measure(PartsOf(t, bytes)) < |bytes|
    decreases |bytes|
  {
    hide ParseWord, FirstWord, Frugal, PartsOf, Measure;
    var i := FirstWord(t, bytes);
    FirstWordMeans(t, bytes);
    if i < |bytes| {
      PartsAt(t, bytes, i);
      WordShrinks(t, bytes[i..]);
      var word := ParseWord(t, bytes[i..]).value;
      var rest := bytes[i + word.length..];
      PartsMeasure(t, rest);
      MeasureConcat(RawPart(bytes[..i]), [Encoded(word.text)]);
      MeasureConcat(RawPart(bytes[..i]) + [Encoded(word.text)], PartsOf(t, rest));
      MeasureRaw(bytes[..i]);
      MeasureEncoded(word.text);
    } else {
      NoWordParts(t, bytes);
      MeasureRaw(bytes);
    }
  }

  lemma MeasureRaw(bytes: seq<byte>)
    ensures Measure(RawPart(bytes)) == |bytes|
  {
  }

  lemma MeasureEncoded(text: string)
    ensures Measure([Encoded(text)]) == |text|
  {
    assert [Encoded(text)][..0] == [];
  }

  lemma NoWordParts(t: Tables, bytes: seq<byte>)
    requires FirstWord(t, bytes) == |bytes|
    ensures PartsOf(t, bytes) == RawPart(bytes)
  {
    hide ParseWord;
    FirstWordMeans(t, bytes);
    ParsedWordOpens(t, bytes[|bytes|..]);
  }

  /** With a word in it, a value shows fewer characters than it has bytes. */
  lemma WordShortens(t: Tables, bytes: seq<byte>)
    requires Frugal(t) && HoldsWord(bytes)
    ensures |DecodedHeader(t, bytes)| < |bytes|
  {
    hide PartsOf, ShownFirst, Measure, FirstWord, HoldsWord, Frugal;
    NoFirstWord(t, bytes);
    PartsMeasure(t, bytes);
    var parts := PartsOf(t, bytes);
    ShownWithin(t, parts, |parts|);
    assert parts[..|parts|] == parts;
  }

  /** Without one, it shows as the text it is. */
  lemma NoWordShown(t: Tables, text: string)
    requires !HoldsWord(Utf8Text(text))
    ensures DecodedHeader(t, Utf8Text(text)) == text
  {
    hide PartsOf, FirstWord, HoldsWord, Utf8Text, FromUtf8, IsBlankRun;
    var bytes := Utf8Text(text);
    NoFirstWord(t, bytes);
    NoWordParts(t, bytes);
    Utf8RoundTrip(text);
    if bytes == [] {
      NothingDecoded();
    } else {
      assert ShownFirst(t, [Raw(bytes)], 1) == ShownFirst(t, [Raw(bytes)], 0) + Decode8Bit(t, bytes);
    }
  }

  lemma NothingDecoded()
    ensures FromUtf8([]) == Some("")
  {
  }

  // ----- a word among other text -----

  /** Text before a word and after it is shown as it is, blank or not. */
  lemma WordAmongText(t: Tables, front: seq<byte>, word: seq<byte>, rest: seq<byte>)
    requires StandsAlone(t, word) && !HoldsWord(rest)
    requires forall k :: 0 <= k < |front| ==> ParseWord(t, (front + (word + rest))[k..]).None?
    ensures DecodedHeader(t, front + (word + rest)) == Decode8Bit(t, front) + TextOf(t, word) + Decode8Bit(t, rest)
  {
    hide ParseWord, PartsOf, FirstWord, HoldsWord, Decode8Bit, IsBlankRun;
    var bytes := front + (word + rest);
    AloneThenMore(t, word, rest);
    ParsedWordOpens(t, word + rest);
    assert bytes[|front|..] == word + rest && bytes[..|front|] == front;
    PartsAt(t, bytes, |front|);
    assert bytes[|front| + |word|..] == rest;
    NoFirstWord(t, rest);
    NoWordParts(t, rest);
    ThreeShown(t, front, TextOf(t, word), rest);
  }

  lemma ThreeShown(t: Tables, front: seq<byte>, text: string, rest: seq<byte>)
    ensures var parts := RawPart(front) + [Encoded(text)] + RawPart(rest);
            ShownFirst(t, parts, |parts|) == Decode8Bit(t, front) + text + Decode8Bit(t, rest)
  {
    hide Decode8Bit, IsBlankRun;
    var parts := RawPart(front) + [Encoded(text)] + RawPart(rest);
    NothingShown(t);
    var n := |RawPart(front)|;
    assert ShownFirst(t, parts, n) == Decode8Bit(t, front) by {
      if n == 1 {
        assert ShownFirst(t, parts, 1) == ShownFirst(t, parts, 0) + Decode8Bit(t, front);
      }
    }
    assert ShownFirst(t, parts, n + 1) == Decode8Bit(t, front) + text;
    if rest != [] {
      assert ShownFirst(t, parts, n + 2) == ShownFirst(t, parts, n + 1) + Decode8Bit(t, rest);
    }
  }

  lemma NothingShown(t: Tables)
    ensures Decode8Bit(t, []) == ""
  {
  }

  // ----- what is sent is ASCII -----

  /** Whatever the value, every octet sent is below 128, as a header field has to be. */
  lemma SentIsAscii(value: string, k: nat)
    requires k < |EncodedHeader(value)|
    ensures EncodedHeader(value)[k] < 128
  {
    hide Utf8Text, Cut, WordsOf, JoinWords;
    if IsAscii(value) {
      AsciiBytes(value);
    } else {
      forall i | 0 <= i < |WordsOf(Cut(value))| ensures Low7(WordsOf(Cut(value))[i]) {
        WordAscii(Utf8Text(Cut(value)[i]));
      }
      JoinedAscii(WordsOf(Cut(value)), k);
    }
  }

  predicate Low7(bytes: seq<byte>) {
    forall k :: 0 <= k < |bytes| ==> bytes[k] < 128
  }

  lemma WordAscii(chunk: seq<byte>)
    ensures Low7(WordOf(chunk))
  {
    hide Encode64;
    Encoded64Ascii(chunk);
  }

  lemma {:induction false} Encoded64Ascii(bytes: seq<byte>)
    ensures Low7(Encode64(bytes))
  {
    if |bytes| > 2 {
      Encoded64Ascii(bytes[3..]);
    }
  }

  lemma {:induction false} JoinedAscii(words: seq<seq<byte>>, k: nat)
    requires (forall i :: 0 <= i < |words| ==> Low7(words[i])) && k < |JoinWords(words)|
    ensures JoinWords(words)[k] < 128
  {
    if |words| > 1 && k > |words[0]| {
      JoinedAscii(words[1..], k - |words[0]| - 1);
    }
  }

  // ----- the round trip -----

  /** Words decode to their value if and only if no chunk of it starts with a byte order mark. */
  lemma ChunksRoundTrip(t: Tables, value: string)
    requires value != ""
    ensures DecodedHeader(t, JoinWords(WordsOf(Cut(value)))) == value <==>
            forall k :: 0 <= k < |Cut(value)| ==> Head(Cut(value)[k]) != BOM
    ensures forall k :: 0 <= k < |Cut(value)| ==> |WordsOf(Cut(value))[k]| <= 75
  {
    hide DecodedHeader, WordOf, Utf8Text, JoinWords, Concat, Cut;
    var chunks := Cut(value);
    CutIsCut(value);
    WordsDecode(t, chunks);
    NothingLostUnlessMarked(chunks);
    forall k | 0 <= k < |chunks| ensures |WordsOf(chunks)[k]| <= 75 {
      EncodedWordStandsAlone(t, chunks[k]);
    }
  }

  /** Decoding what a value is sent as gives it back under an exact condition. A value that is not ASCII
      must have no chunk that starts with a byte order mark; one that is must hold nothing that reads as
      an encoded word, for it is sent as it is. */
  lemma HeaderRoundTrip(t: Tables, value: string)
    ensures !IsAscii(value) ==>
              (DecodedHeader(t, EncodedHeader(value)) == value <==>
                 forall k :: 0 <= k < |Cut(value)| ==> Head(Cut(value)[k]) != BOM)
    ensures IsAscii(value) && !HoldsWord(Utf8Text(value)) ==> DecodedHeader(t, EncodedHeader(value)) == value
    ensures IsAscii(value) && HoldsWord(Utf8Text(value)) && Frugal(t) ==> DecodedHeader(t, EncodedHeader(value)) != value
  {
    hide DecodedHeader, WordsOf, JoinWords, Utf8Text, Cut, HoldsWord, Frugal, Head;
    if !IsAscii(value) {
      ChunksRoundTrip(t, value);
    } else if !HoldsWord(Utf8Text(value)) {
      NoWordShown(t, value);
    } else if Frugal(t) {
      WordShortens(t, Utf8Text(value));
      AsciiBytes(value);
    }
  }

  /** In particular, a value comes back that holds no byte order mark and, if it is ASCII, nothing that
      reads as an encoded word. */
  lemma UnmarkedRoundTrip(t: Tables, value: string)
    requires BOM !in value && (IsAscii(value) ==> !HoldsWord(Utf8Text(value)))
    ensures DecodedHeader(t, EncodedHeader(value)) == value
  {
    hide DecodedHeader, EncodedHeader, Utf8Text, Cut, HoldsWord;
    HeaderRoundTrip(t, value);
    CutIsCut(value);
    forall k | 0 <= k < |Cut(value)| ensures Head(Cut(value)[k]) != BOM {
      ChunkWithin(Cut(value), k, Head(Cut(value)[k]));
    }
  }

  /** A value that does not: the mark in front of the letter is gone. */
  lemma LeadingMarkLost(t: Tables)
    ensures var value := [BOM, 'a']; DecodedHeader(t, EncodedHeader(value)) == "a"
  {
    hide DecodedHeader, WordsOf, JoinWords, Utf8Text, Cut;
    var value := [BOM, 'a'];
    ShortCut(value);
    WordsDecode(t, [value]);
    assert Surviving(value) == "a";
    assert SurvivingAll([value]) == ["a"];
    ConcatFront("a", []);
    assert ["a"] + [] == ["a"] && "a" + Concat([]) == "a";
    assert value[0] == BOM;
  }

  lemma ShortCut(value: string)
    requires value == [BOM, 'a']
    ensures Cut(value) == [value] && |Utf8Text(value)| <= 45
  {
    hide Utf8Char, Cut;
    BomBytes();
    assert value[1..] == "a" && "a"[1..] == "";
    assert Utf8Text("a") == Utf8Char('a') + Utf8Text("");
    assert Utf8Text(value) == Utf8Char(BOM) + Utf8Text("a");
    assert [value][..0] == [];
    assert Concat([value]) == "" + value == value;
    assert IsCut(value, [value]);
    OnlyCut(value, [value]);
  }

  /** And one that is ASCII and marked nowhere: it is sent as it is, and read as the word it looks like. */
  lemma LookalikeDecoded(t: Tables)
    ensures var value := "=?UTF-8?Q?x?=";
            IsAscii(value) && BOM !in value && DecodedHeader(t, EncodedHeader(value)) == "x"
  {
    hide ParseWord, HasWhite, FromUtf8, RawText, DecodeWithCharset, PartsOf, ShownFirst, Utf8Text, Spaced;
    var value := "=?UTF-8?Q?x?=";
    var word := [EQUALS, QMARK] + UTF8_LABEL + [QMARK, 81, QMARK] + [120] + SUFFIX;
    LookalikeBytes();
    LabelIsUtf8();
    LetterX(t);
    WordParses(t, UTF8_LABEL, 81, [120], []);
    assert word + [] == word;
    OneWordShows(t, word);
  }

  lemma LookalikeBytes()
    ensures var value := "=?UTF-8?Q?x?=";
            && IsAscii(value) && BOM !in value
            && Utf8Text(value) == [EQUALS, QMARK] + UTF8_LABEL + [QMARK, 81, QMARK] + [120] + SUFFIX
  {
    hide Utf8Text;
    var value := "=?UTF-8?Q?x?=";
    AsciiBytes(value);
    assert Utf8Text(value) == [61, 63, 85, 84, 70, 45, 56, 63, 81, 63, 120, 63, 61];
  }

  lemma {:induction false} AsciiBytes(text: string)
    requires IsAscii(text)
    ensures |Utf8Text(text)| == |text| && forall k :: 0 <= k < |text| ==> Utf8Text(text)[k] == text[k] as int as byte
  {
    if text != "" {
      AsciiBytes(text[1..]);
    }
  }

  lemma LetterX(t: Tables)
    ensures RawText(81, [120]) == Some([120]) && !HasWhite([120])
    ensures DecodeWithCharset(t, [120], "UTF-8") == "x"
  {
    hide NamesUtf8, FromUtf8, Utf8Text, CleanLabel;
    LabelIsUtf8();
    AsciiBytes("x");
    assert Utf8Text("x") == [120];
    Utf8RoundTrip("x");
    assert FrontQ([120]) == ([120], 1) && [120][1..] == [];
    assert DecodedQ([120]) == [120] + DecodedQ([]) == [120];
    assert RawText(81, [120]) == Some(DecodedQ([120]));
    assert WithoutBom([120]) == [120];
  }

  lemma OneWordShows(t: Tables, word: seq<byte>)
    requires StandsAlone(t, word)
    ensures DecodedHeader(t, word) == TextOf(t, word)
  {
    hide StandsAlone, TextOf, DecodedHeader;
    SpacedWordsShow(t, [word], []);
    assert TextsOf(t, [word]) == [TextOf(t, word)];
    assert [TextOf(t, word)][..0] == [];
  }

  lemma {:induction false} ChunkWithin(chunks: seq<string>, k: nat, c: char)
    requires k < |chunks| && c in chunks[k]
    ensures c in Concat(chunks)
    decreases |chunks|
  {
    var n := |chunks| - 1;
    if k < n {
      ChunkWithin(chunks[..n], k, c);
    }
  }
}
