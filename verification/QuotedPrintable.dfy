/** Decoding a quoted-printable body (section 6.7 of RFC 2045). */
module QuotedPrintable {
  import opened Options
  import opened Blocks

  const EQUALS: byte := 61
  const SPACE: byte := 32
  const TAB: byte := 9

  predicate IsBlank(b: byte) {
    b == SPACE || b == TAB
  }

  function HexValue(b: byte): (v: Option<byte>)
    ensures v.Some? ==> v.value < 16
  {
    if 48 <= b <= 57 then Some(b - 48)
    else if 97 <= b <= 102 then Some(b - 97 + 10)
    else if 65 <= b <= 70 then Some(b - 65 + 10)
    else None
  }

  /** A digit in either case has the value of its place. */
  lemma HexDigits(v: nat)
    requires v < 16
    ensures HexValue("0123456789ABCDEF"[v] as int as byte) == Some(v as byte)
    ensures HexValue("0123456789abcdef"[v] as int as byte) == Some(v as byte)
  {
  }

  /** And there are no others. */
  lemma OnlyHexDigits(b: byte)
    ensures HexValue(b).Some? <==> b as int as char in "0123456789ABCDEFabcdef"
  {
    if HexValue(b).Some? {
      var v := HexValue(b).value as int;
      assert "0123456789ABCDEF"[v] as int as byte == b || "0123456789abcdef"[v] as int as byte == b;
      var digits := "0123456789ABCDEFabcdef";
      assert v < 10 ==> digits[v] as int as byte == b;
      assert digits[v] as int as byte == b || digits[v + 6] as int as byte == b;
    }
  }

  // ----- what the input is made of -----

  /** A soft line break, an escape, a byte that stands for itself, or a hard line break. */
  datatype Piece =
    | Soft(crlf: bool)
    | SoftEnd
    | Escaped(hi: byte, lo: byte)
    | Literal(b: byte)
    | Break(crlf: bool)

  function Eol(crlf: bool): seq<byte> {
    if crlf then CRLF else [LF]
  }

  /** The pieces at the front of the input, and how many bytes they take. */
  function Front(bytes: seq<byte>): (r: (seq<Piece>, nat))
    requires bytes != []
    ensures 0 < r.1 <= |bytes|
  {
    var n := |bytes|;
    if bytes[0] == EQUALS then
      if n == 1 then ([SoftEnd], 1)
      else if n > 2 && bytes[1] == CR && bytes[2] == LF then ([Soft(true)], 3)
      else if bytes[1] == LF then ([Soft(false)], 2)
      else if n == 2 then ([Literal(EQUALS), Literal(bytes[1])], 2)
      else if HexValue(bytes[1]).Some? && HexValue(bytes[2]).Some? then ([Escaped(bytes[1], bytes[2])], 3)
      else ([Literal(EQUALS)], 1)
    else if n > 1 && bytes[0] == CR && bytes[1] == LF then ([Break(true)], 2)
    else if bytes[0] == LF then ([Break(false)], 1)
    else ([Literal(bytes[0])], 1)
  }

  function Pieces(bytes: seq<byte>): seq<Piece> {
    if bytes == [] then []
    else Front(bytes).0 + Pieces(bytes[Front(bytes).1..])
  }

  /** An equals sign that neither two digits nor a line ending follow stands for itself. */
  lemma MalformedEscape(a: byte, b: byte, rest: seq<byte>)
    requires HexValue(a).None? || HexValue(b).None?
    requires a != 10 && !(a == 13 && b == 10)
    ensures Pieces([61, a, b] + rest) == [Literal(61)] + Pieces([a, b] + rest)
    ensures Pieces([61, a]) == [Literal(61), Literal(a)]
  {
    hide HexValue;
    assert ([61, a, b] + rest)[1..] == [a, b] + rest;
    assert [61, a][2..] == [];
  }

  // ----- what the pieces mean -----

  /** A byte of the output, and whether the encoder meant it to be kept whatever follows. */
  datatype Mark = Mark(b: byte, kept: bool)

  function Bytes(marks: seq<Mark>): (bytes: seq<byte>)
    ensures |bytes| == |marks| && forall k :: 0 <= k < |marks| ==> bytes[k] == marks[k].b
  {
    seq(|marks|, k requires 0 <= k < |marks| => marks[k].b)
  }

  predicate Loose(m: Mark) {
    !m.kept && IsBlank(m.b)
  }

  /** Without the literal blanks at the end. */
  function Trimmed(marks: seq<Mark>): (r: seq<Mark>)
    ensures r <= marks && (r != [] ==> !Loose(r[|r| - 1]))
    ensures forall k :: |r| <= k < |marks| ==> Loose(marks[k])
  {
    if marks != [] && Loose(marks[|marks| - 1]) then Trimmed(marks[..|marks| - 1]) else marks
  }

  function Kept(bytes: seq<byte>): (marks: seq<Mark>)
    ensures |marks| == |bytes| && forall k :: 0 <= k < |bytes| ==> marks[k] == Mark(bytes[k], true)
  {
    seq(|bytes|, k requires 0 <= k < |bytes| => Mark(bytes[k], true))
  }

  predicate Hex(p: Piece) {
    p.Escaped? ==> HexValue(p.hi).Some? && HexValue(p.lo).Some?
  }

  /** A piece added to the output: a hard break first drops the literal blanks before it. */
  function Apply(marks: seq<Mark>, p: Piece): seq<Mark>
    requires Hex(p)
  {
    match p
    case Soft(_) => marks
    case SoftEnd => marks
    case Escaped(hi, lo) => marks + [Mark(HexValue(hi).value * 16 + HexValue(lo).value, true)]
    case Literal(b) => marks + [Mark(b, false)]
    case Break(crlf) => Trimmed(marks) + Kept(Eol(crlf))
  }

  function ApplyAll(marks: seq<Mark>, ps: seq<Piece>): seq<Mark>
    requires forall p :: p in ps ==> Hex(p)
    decreases |ps|
  {
    if ps == [] then marks else ApplyAll(Apply(marks, ps[0]), ps[1..])
  }

  lemma {:induction false} PiecesHex(bytes: seq<byte>, p: Piece)
    requires p in Pieces(bytes)
    ensures Hex(p)
    decreases |bytes|
  {
    if bytes != [] && p !in Front(bytes).0 {
      PiecesHex(bytes[Front(bytes).1..], p);
    }
  }

  function Decoded(bytes: seq<byte>): seq<byte> {
    assert forall p :: p in Pieces(bytes) ==> Hex(p) by {
      forall p | p in Pieces(bytes) ensures Hex(p) {
        PiecesHex(bytes, p);
      }
    }
    Bytes(ApplyAll([], Pieces(bytes)))
  }

  lemma {:induction false} ApplyConcat(marks: seq<Mark>, a: seq<Piece>, b: seq<Piece>)
    requires forall p :: p in a + b ==> Hex(p)
    ensures (forall p :: p in a ==> Hex(p)) && (forall p :: p in b ==> Hex(p))
    ensures ApplyAll(marks, a + b) == ApplyAll(ApplyAll(marks, a), b)
    decreases |a|
  {
    hide Apply, Hex;
    assert forall p :: p in a || p in b ==> p in a + b;
    if a == [] {
      assert a + b == b;
    } else {
      assert (a + b)[1..] == a[1..] + b;
      ApplyConcat(Apply(marks, a[0]), a[1..], b);
    }
  }

  // ----- the loop -----

  /** Drops literal blanks from the end, never reaching below `protected`. */
  method TrimTrailingBlanks(text: seq<byte>, protected: nat) returns (out: seq<byte>)
    requires protected <= |text|
    ensures text[..protected] <= out <= text
    ensures |out| > protected ==> !IsBlank(out[|out| - 1])
    ensures forall k :: |out| <= k < |text| ==> IsBlank(text[k])
  {
    out := text;
    while |out| > protected && IsBlank(out[|out| - 1])
      invariant text[..protected] <= out <= text
      invariant forall k :: |out| <= k < |text| ==> IsBlank(text[k])
      decreases |out|
    {
      out := out[..|out| - 1];
    }
  }

  /** The position up to which the output is protected: just past the last byte meant to be kept. */
  ghost predicate Protects(marks: seq<Mark>, protected: nat) {
    && protected <= |marks|
    && (protected > 0 ==> marks[protected - 1].kept)
    && forall k :: protected <= k < |marks| ==> !marks[k].kept
  }

  lemma TrimmedLength(marks: seq<Mark>, protected: nat, n: nat)
    requires Protects(marks, protected) && protected <= n <= |marks|
    requires n > protected ==> !IsBlank(marks[n - 1].b)
    requires forall k :: n <= k < |marks| ==> IsBlank(marks[k].b)
    ensures |Trimmed(marks)| == n
  {
    hide Trimmed, IsBlank;
    assert forall k :: |Trimmed(marks)| <= k < |marks| ==> Loose(marks[k]);
  }

  lemma BytesTake(marks: seq<Mark>, front: seq<Mark>, out: seq<byte>)
    requires front <= marks && out <= Bytes(marks) && |front| == |out|
    ensures Bytes(front) == out
  {
  }

  /** The one position does for all the marks: trimming down to it is trimming literal blanks. */
  lemma ProtectedTrim(marks: seq<Mark>, protected: nat, out: seq<byte>)
    requires Protects(marks, protected)
    requires protected <= |out| && out <= Bytes(marks)
    requires |out| > protected ==> !IsBlank(out[|out| - 1])
    requires forall k :: |out| <= k < |marks| ==> IsBlank(marks[k].b)
    ensures Bytes(Trimmed(marks)) == out
  {
    hide *;
    TrimmedLength(marks, protected, |out|);
    BytesTake(marks, Trimmed(marks), out);
  }

  method DecodeQuotedPrintable(bytes: seq<byte>) returns (out: seq<byte>)
    ensures out == Decoded(bytes)
  {
    hide Front, Apply, ApplyAll, Trimmed, Hex, Pieces, IsBlank, HexValue;
    out := [];
    var index: nat, protected: nat := 0, 0;
    ghost var marks: seq<Mark> := [];
    AllHex(bytes);
    assert bytes[0..] == bytes;
    while index < |bytes|
      invariant index <= |bytes|
      invariant Bytes(marks) == out && Protects(marks, protected)
      invariant forall p :: p in Pieces(bytes[index..]) ==> Hex(p)
      invariant ApplyAll(marks, Pieces(bytes[index..])) == ApplyAll([], Pieces(bytes))
    {
      ghost var after := Advance(marks, bytes, index);
      ghost var front := Front(bytes[index..]);
      FrontIs(marks, bytes, index);
      var byte := bytes[index];
      var next := if index + 1 < |bytes| then Some(bytes[index + 1]) else None;
      var third := if index + 2 < |bytes| then Some(bytes[index + 2]) else None;
      if byte == EQUALS {
        if next == Some(CR) && third == Some(LF) {
          index := index + 3;
        } else if next == Some(LF) {
          index := index + 2;
        } else if next.None? {
          index := index + 1;
        } else if third.Some? {
          var hi, lo := HexValue(next.value), HexValue(third.value);
          if hi.Some? && lo.Some? {
            out := out + [hi.value * 16 + lo.value];
            protected := |out|;
            index := index + 3;
          } else {
            out := out + [EQUALS];
            index := index + 1;
          }
        } else {
          out := out + [EQUALS];
          out := out + [next.value];
          index := index + 2;
        }
      } else if byte == CR && next == Some(LF) {
        var trimmed := TrimTrailingBlanks(out, protected);
        ProtectedTrim(marks, protected, trimmed);
        out := trimmed + CRLF;
        protected := |out|;
        index := index + 2;
      } else if byte == LF {
        var trimmed := TrimTrailingBlanks(out, protected);
        ProtectedTrim(marks, protected, trimmed);
        out := trimmed + [LF];
        protected := |out|;
        index := index + 1;
      } else {
        out := out + [byte];
        index := index + 1;
      }
      marks := after;
    }
    Finished(marks, bytes[index..]);
  }

  lemma AllHex(bytes: seq<byte>)
    ensures forall p :: p in Pieces(bytes) ==> Hex(p)
  {
  }

  lemma Finished(marks: seq<Mark>, rest: seq<byte>)
    requires rest == []
    ensures Pieces(rest) == [] && ApplyAll(marks, []) == marks
  {
  }

  /** The output once the front of the input has been taken. */
  ghost function Advance(marks: seq<Mark>, bytes: seq<byte>, index: nat): (after: seq<Mark>)
    requires index < |bytes| && forall p :: p in Pieces(bytes[index..]) ==> Hex(p)
    ensures var front := Front(bytes[index..]);
            && (forall p :: p in front.0 ==> Hex(p))
            && after == ApplyAll(marks, front.0)
            && (forall p :: p in Pieces(bytes[index + front.1..]) ==> Hex(p))
            && ApplyAll(marks, Pieces(bytes[index..])) == ApplyAll(after, Pieces(bytes[index + front.1..]))
  {
    var rest := bytes[index..];
    var front := Front(rest);
    assert rest[front.1..] == bytes[index + front.1..];
    ApplyConcat(marks, front.0, Pieces(bytes[index + front.1..]));
    ApplyAll(marks, front.0)
  }

  lemma FrontIs(marks: seq<Mark>, bytes: seq<byte>, index: nat)
    requires index < |bytes| && forall p :: p in Front(bytes[index..]).0 ==> Hex(p)
    ensures var front := Front(bytes[index..]);
            var after := ApplyAll(marks, front.0);
            var n := |bytes| - index;
            if bytes[index] == EQUALS then
              if n > 2 && bytes[index + 1] == CR && bytes[index + 2] == LF then front.1 == 3 && after == marks
              else if n > 1 && bytes[index + 1] == LF then front.1 == 2 && after == marks
              else if n == 1 then front.1 == 1 && after == marks
              else if n > 2 then
                var hi, lo := HexValue(bytes[index + 1]), HexValue(bytes[index + 2]);
                if hi.Some? && lo.Some? then front.1 == 3 && after == marks + [Mark(hi.value * 16 + lo.value, true)]
                else front.1 == 1 && after == marks + [Mark(EQUALS, false)]
              else front.1 == 2 && after == marks + [Mark(EQUALS, false), Mark(bytes[index + 1], false)]
            else if n > 1 && bytes[index] == CR && bytes[index + 1] == LF then
              front.1 == 2 && after == Trimmed(marks) + [Mark(CR, true), Mark(LF, true)]
            else if bytes[index] == LF then front.1 == 1 && after == Trimmed(marks) + [Mark(LF, true)]
            else front.1 == 1 && after == marks + [Mark(bytes[index], false)]
  {
    hide Trimmed;
    var rest := bytes[index..];
    var front := Front(rest);
    ApplyOne(marks, front.0);
    assert Kept(CRLF) == [Mark(CR, true), Mark(LF, true)] && Kept([LF]) == [Mark(LF, true)];
  }

  lemma ApplyOne(marks: seq<Mark>, ps: seq<Piece>)
    requires forall p :: p in ps ==> Hex(p)
    ensures |ps| == 1 ==> ApplyAll(marks, ps) == Apply(marks, ps[0])
    ensures |ps| == 2 ==> ApplyAll(marks, ps) == Apply(Apply(marks, ps[0]), ps[1])
  {
    hide Apply;
    if |ps| == 2 {
      var m, rest := Apply(marks, ps[0]), ps[1..];
      assert rest[1..] == [];
      assert ApplyAll(m, rest) == ApplyAll(Apply(m, rest[0]), rest[1..]);
    } else if |ps| == 1 {
      assert ps[1..] == [];
    }
  }

  // ----- undoing an encoding -----

  function WireOf(p: Piece): (wire: seq<byte>)
    ensures wire != []
  {
    match p
    case Soft(crlf) => [EQUALS] + Eol(crlf)
    case SoftEnd => [EQUALS]
    case Escaped(hi, lo) => [EQUALS, hi, lo]
    case Literal(b) => [b]
    case Break(crlf) => Eol(crlf)
  }

  function Wire(ps: seq<Piece>): seq<byte> {
    if ps == [] then [] else WireOf(ps[0]) + Wire(ps[1..])
  }

  /** What a piece stands for. */
  function DataOf(p: Piece): seq<byte>
    requires Hex(p)
  {
    match p
    case Soft(_) => []
    case SoftEnd => []
    case Escaped(hi, lo) => [HexValue(hi).value * 16 + HexValue(lo).value]
    case Literal(b) => [b]
    case Break(crlf) => Eol(crlf)
  }

  function Data(ps: seq<Piece>): seq<byte>
    requires forall p :: p in ps ==> Hex(p)
  {
    if ps == [] then [] else Data(ps[..|ps| - 1]) + DataOf(ps[|ps| - 1])
  }

  /** What an encoder may write: `=` and the bytes of line endings are escaped, soft breaks are put
      anywhere, and one without a line ending only at the very end. */
  predicate Encoding(ps: seq<Piece>) {
    && (forall k :: 0 <= k < |ps| ==> Hex(ps[k]) && (ps[k].Literal? ==> ps[k].b !in {EQUALS, CR, LF}))
    && forall k :: 0 <= k < |ps| - 1 ==> !ps[k].SoftEnd?
  }

  /** The output so far ends in a blank that stands for itself. */
  predicate EndsLoose(ps: seq<Piece>) {
    ps != [] &&
    var last := ps[|ps| - 1];
    if last.Soft? || last.SoftEnd? then EndsLoose(ps[..|ps| - 1])
    else last.Literal? && last.b in {32, 9}
  }

  /** No hard line break comes after such a blank. */
  predicate BlanksEscaped(ps: seq<Piece>) {
    forall k :: 0 <= k < |ps| && ps[k].Break? ==> !EndsLoose(ps[..k])
  }

  lemma FrontOfWire(p: Piece, rest: seq<byte>)
    requires Hex(p) && (p.Literal? ==> p.b !in {EQUALS, CR, LF}) && (p.SoftEnd? ==> rest == [])
    ensures Front(WireOf(p) + rest) == ([p], |WireOf(p)|)
  {
  }

  /** An encoding is read back piece by piece. */
  lemma {:induction false} PiecesOfWire(ps: seq<Piece>)
    requires Encoding(ps)
    ensures Pieces(Wire(ps)) == ps
  {
    if ps != [] {
      hide Front, WireOf, Hex;
      var rest := Wire(ps[1..]);
      FrontOfWire(ps[0], rest);
      PiecesOfWire(ps[1..]);
      assert (WireOf(ps[0]) + rest)[|WireOf(ps[0])|..] == rest;
    }
  }

  lemma ApplyLast(ps: seq<Piece>)
    requires ps != [] && forall p :: p in ps ==> Hex(p)
    ensures ApplyAll([], ps) == Apply(ApplyAll([], ps[..|ps| - 1]), ps[|ps| - 1])
  {
    hide Hex, Apply;
    var init, last := ps[..|ps| - 1], [ps[|ps| - 1]];
    assert ps == init + last;
    ApplyConcat([], init, last);
    ApplyOne(ApplyAll([], init), last);
  }

  predicate LastLoose(marks: seq<Mark>) {
    marks != [] && Loose(marks[|marks| - 1])
  }

  lemma ApplyLoose(marks: seq<Mark>, p: Piece)
    requires Hex(p)
    ensures LastLoose(Apply(marks, p)) <==>
              if p.Soft? || p.SoftEnd? then LastLoose(marks) else p.Literal? && IsBlank(p.b)
  {
  }

  lemma {:induction false} LooseEnd(ps: seq<Piece>)
    requires forall p :: p in ps ==> Hex(p)
    ensures LastLoose(ApplyAll([], ps)) <==> EndsLoose(ps)
    decreases |ps|
  {
    hide Apply, LastLoose, Hex;
    if ps == [] {
      NothingLoose();
    } else {
      ApplyLast(ps);
      LooseEnd(ps[..|ps| - 1]);
      ApplyLoose(ApplyAll([], ps[..|ps| - 1]), ps[|ps| - 1]);
    }
  }

  lemma NothingLoose()
    ensures ApplyAll([], []) == [] && !LastLoose([])
  {
  }

  /** Nothing is added; nothing is lost but literal blanks before a hard line break. */
  lemma {:induction false} NothingElseLost(ps: seq<Piece>)
    requires forall p :: p in ps ==> Hex(p)
    ensures |ApplyAll([], ps)| <= |Data(ps)|
    ensures BlanksEscaped(ps) ==> Bytes(ApplyAll([], ps)) == Data(ps)
    ensures !BlanksEscaped(ps) ==> |ApplyAll([], ps)| < |Data(ps)|
    decreases |ps|
  {
    hide ApplyAll, EndsLoose, LastLoose, Hex, Apply;
    if ps == [] {
      NothingLoose();
    } else {
      var init := ps[..|ps| - 1];
      ApplyLast(ps);
      LooseEnd(init);
      NothingElseLost(init);
      EscapedStep(ps);
      OneMore(ApplyAll([], init), ps[|ps| - 1]);
    }
  }

  lemma EscapedStep(ps: seq<Piece>)
    requires ps != []
    ensures var init := ps[..|ps| - 1];
            BlanksEscaped(ps) <==> BlanksEscaped(init) && !(ps[|ps| - 1].Break? && EndsLoose(init))
  {
    hide EndsLoose;
    var init := ps[..|ps| - 1];
    assert forall k :: 0 <= k < |init| ==> ps[..k] == init[..k] && ps[k] == init[k];
    assert ps[..|ps| - 1] == init;
  }

  lemma OneMore(marks: seq<Mark>, p: Piece)
    requires Hex(p)
    ensures var after := Apply(marks, p);
            if p.Break? && LastLoose(marks) then |after| < |marks| + |DataOf(p)|
            else Bytes(after) == Bytes(marks) + DataOf(p)
  {
  }

  /** Decoding recovers what was encoded if and only if the encoder escaped every blank that ends a
      line, wherever it put soft line breaks. */
  lemma DecodeInverts(ps: seq<Piece>)
    requires Encoding(ps)
    ensures (forall p :: p in ps ==> Hex(p)) && (Decoded(Wire(ps)) == Data(ps) <==> BlanksEscaped(ps))
  {
    hide Hex, ApplyAll, BlanksEscaped, Wire;
    PiecesOfWire(ps);
    NothingElseLost(ps);
  }

  /** The pieces are the whole input, whatever it is: nothing in it is skipped. */
  lemma {:induction false} WireOfPieces(bytes: seq<byte>)
    ensures Wire(Pieces(bytes)) == bytes
    decreases |bytes|
  {
    hide Front, Wire;
    if bytes == [] {
      NoWire();
    } else {
      var front := Front(bytes);
      WireOfPieces(bytes[front.1..]);
      WireConcat(front.0, Pieces(bytes[front.1..]));
      WireOfFront(bytes);
    }
  }

  lemma NoWire()
    ensures Wire([]) == []
  {
  }

  lemma {:induction false} WireConcat(a: seq<Piece>, b: seq<Piece>)
    ensures Wire(a + b) == Wire(a) + Wire(b)
  {
    hide WireOf;
    if a == [] {
      assert a + b == b;
    } else {
      assert (a + b)[1..] == a[1..] + b;
      WireConcat(a[1..], b);
    }
  }

  lemma WireOfFront(bytes: seq<byte>)
    requires bytes != []
    ensures Wire(Front(bytes).0) == bytes[..Front(bytes).1]
  {
    var ps := Front(bytes).0;
    if |ps| == 2 {
      assert Wire(ps) == WireOf(ps[0]) + (WireOf(ps[1]) + Wire(ps[1..][1..]));
    } else {
      assert Wire(ps) == WireOf(ps[0]) + Wire([]);
    }
  }
}
