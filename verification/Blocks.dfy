/** Multi-line data blocks (RFC 3977 section 3.1.1): the two dot-stuffing encoders, the decoders
    that work on a whole buffer, and what a block means as a byte string. */
module Blocks {
  import opened Sequences

  newtype byte = b: int | 0 <= b < 256

  const CR: byte := 13
  const LF: byte := 10
  const DOT: byte := 46
  const CRLF: seq<byte> := [CR, LF]

  type Line = seq<byte>

  // ----- stuffing -----

  predicate IsTerminator(line: Line) {
    line == [DOT]
  }

  function Unstuff(line: Line): Line {
    if line != [] && line[0] == DOT then line[1..] else line
  }

  function Stuff(line: Line): Line {
    if line != [] && line[0] == DOT then [DOT] + line else line
  }

  /** A stuffed line is undone, and is never taken for the terminator. */
  lemma StuffedComesBack(line: Line)
    ensures Unstuff(Stuff(line)) == line && !IsTerminator(Stuff(line))
  {
  }

  /** Only a line that starts with a dot is changed, by one dot in front. */
  lemma StuffedOnly(line: Line)
    ensures Stuff(line) != line <==> line != [] && line[0] == 46
    ensures Stuff(line) != line ==> Stuff(line) == [46] + line
  {
  }

  /** What is sent for a block: each line stuffed, then the terminator. */
  function Encode(lines: seq<Line>, eol: seq<byte>): seq<byte> {
    if lines == [] then [DOT] + eol
    else Stuff(lines[0]) + eol + Encode(lines[1..], eol)
  }

  /** Two lines on the wire, octet by octet: ".a" and "b". */
  lemma TwoLinesSent()
    ensures Encode([[46, 97], [98]], CRLF) == [46, 46, 97, 13, 10, 98, 13, 10, 46, 13, 10]
  {
    var lines: seq<Line> := [[46, 97], [98]];
    assert lines[1..] == [[98]] && lines[1..][1..] == [];
    assert Encode([], CRLF) == [46, 13, 10];
    assert Encode(lines[1..], CRLF) == [98] + CRLF + [46, 13, 10];
  }

  lemma EncodeStep(before: seq<byte>, lines: seq<Line>, k: nat, eol: seq<byte>)
    requires k < |lines|
    ensures before + Encode(lines[k..], eol) == (before + Stuff(lines[k]) + eol) + Encode(lines[k + 1..], eol)
  {
  }

  /** Writes a data block as the server does: stuffing each line on the way out. */
  method WriteBlock(lines: seq<Line>, terminator: seq<byte>) returns (output: seq<byte>)
    ensures output == Encode(lines, terminator)
  {
    hide Encode;
    output := [];
    for k := 0 to |lines|
      invariant output + Encode(lines[k..], terminator) == Encode(lines, terminator)
    {
      ghost var before := output;
      EncodeStep(before, lines, k, terminator);
      if lines[k] != [] && lines[k][0] == DOT {
        output := output + [DOT];
        assert before + [DOT] + lines[k] == before + Stuff(lines[k]);
      }
      output := output + lines[k];
      output := output + terminator;
    }
    EncodeEnd(output, lines, terminator);
    output := output + [DOT];
    output := output + terminator;
  }

  lemma EncodeEnd(before: seq<byte>, lines: seq<Line>, eol: seq<byte>)
    ensures before + Encode(lines[|lines|..], eol) == before + [DOT] + eol
  {
  }

  // ----- lines -----

  function StripCR(line: Line): Line {
    if line != [] && line[|line| - 1] == CR then line[..|line| - 1] else line
  }

  /** What a buffer says as lines: split at line feeds, one carriage return before each dropped;
      an unfinished last line counts unless it is empty. */
  function Lines(bytes: seq<byte>): (lines: seq<Line>)
    decreases |bytes|
  {
    var i := IndexOf(bytes, LF);
    if i < |bytes| then [StripCR(bytes[..i])] + Lines(bytes[i + 1..])
    else if bytes == [] then []
    else [StripCR(bytes)]
  }

  lemma LinesFront(bytes: seq<byte>)
    ensures var end := IndexOf(bytes, LF);
            Lines(bytes) ==
            if end < |bytes| then [StripCR(bytes[..end])] + Lines(bytes[end + 1..])
            else if bytes != [] then [StripCR(bytes)]
            else []
  {
    hide IndexOf, StripCR;
  }

  lemma LinesStep(block: seq<byte>, start: nat)
    requires start <= |block|
    ensures var end := start + IndexOf(block[start..], LF);
            Lines(block[start..]) ==
            if end < |block| then [StripCR(block[start..end])] + Lines(block[end + 1..])
            else if start < |block| then [StripCR(block[start..])]
            else []
  {
    hide IndexOf, StripCR, Lines;
    var rest := block[start..];
    LinesFront(rest);
    var offset := IndexOf(rest, LF);
    if offset < |rest| {
      assert rest[..offset] == block[start..start + offset];
      assert rest[offset + 1..] == block[start + offset + 1..];
    }
  }

  lemma OneLineMore(lines: seq<Line>, line: Line, rest: seq<Line>)
    ensures lines + ([line] + rest) == (lines + [line]) + rest
  {
  }

  method SplitLines(block: seq<byte>) returns (lines: seq<Line>)
    ensures lines == Lines(block)
  {
    hide Lines, StripCR, IndexOf;
    lines := [];
    var start := 0;
    assert block[0..] == block;
    while start + IndexOf(block[start..], LF) < |block|
      invariant start <= |block|
      invariant Lines(block) == lines + Lines(block[start..])
      decreases |block| - start
    {
      LinesStep(block, start);
      var end := start + IndexOf(block[start..], LF);
      OneLineMore(lines, StripCR(block[start..end]), Lines(block[end + 1..]));
      lines := lines + [StripCR(block[start..end])];
      start := end + 1;
    }
    LinesStep(block, start);
    var tail := block[start..];
    if tail != [] {
      lines := lines + [StripCR(tail)];
    }
  }

  /** A line that no line feed ends counts as it is, unless it is empty. */
  lemma UnfinishedLine(line: Line)
    requires NoLF(line)
    ensures Lines(line) == if line == [] then [] else [StripCR(line)]
  {
    hide StripCR;
    IndexOfIs(line, LF, |line|);
  }

  // ----- decoding a whole buffer -----

  /** The unstuffed lines before the first terminator, or all of them if there is none. */
  function Content(lines: seq<Line>): seq<Line> {
    if lines == [] || IsTerminator(lines[0]) then []
    else [Unstuff(lines[0])] + Content(lines[1..])
  }

  /** Without a terminator every line is content. */
  lemma {:induction false} UnterminatedContent(lines: seq<Line>)
    requires forall k :: 0 <= k < |lines| ==> lines[k] != [46]
    ensures |Content(lines)| == |lines|
    ensures forall k :: 0 <= k < |lines| ==> Content(lines)[k] == Unstuff(lines[k])
  {
    hide Unstuff;
    if lines != [] {
      UnterminatedContent(lines[1..]);
      assert forall k :: 0 < k < |lines| ==> lines[1..][k - 1] == lines[k];
    }
  }

  /** With one, what comes before it is. */
  lemma {:induction false} TerminatedContent(lines: seq<Line>, n: nat)
    requires n < |lines| && lines[n] == [46] && forall k :: 0 <= k < n ==> lines[k] != [46]
    ensures Content(lines) == Content(lines[..n])
  {
    hide Unstuff;
    if n > 0 {
      TerminatedContent(lines[1..], n - 1);
      assert lines[..n][1..] == lines[1..][..n - 1];
    }
  }

  /** Parses a block from a buffer, stopping at the terminator. */
  method ParseBlock(block: seq<byte>) returns (content: seq<Line>)
    ensures content == Content(Lines(block))
  {
    hide Lines, Unstuff, IsTerminator;
    var lines := SplitLines(block);
    content := [];
    for k := 0 to |lines|
      invariant Content(lines) == content + Content(lines[k..])
    {
      assert lines[k..][1..] == lines[k + 1..];
      if IsTerminator(lines[k]) {
        break;
      }
      content := content + [Unstuff(lines[k])];
    }
  }

  /** What `read_until` a line feed takes: up to and including it, or everything. */
  function Taken(bytes: seq<byte>): (n: nat)
    ensures n <= |bytes| && (bytes != [] ==> n > 0)
  {
    var i := IndexOf(bytes, LF);
    if i < |bytes| then i + 1 else |bytes|
  }

  function TrimEol(line: seq<byte>): Line {
    StripCR(if line != [] && line[|line| - 1] == LF then line[..|line| - 1] else line)
  }

  /** What is left after the first terminator line, nothing if there is none. */
  function AfterBlock(bytes: seq<byte>): (rest: seq<byte>)
    decreases |bytes|
  {
    if bytes == [] then []
    else if IsTerminator(TrimEol(bytes[..Taken(bytes)])) then bytes[Taken(bytes)..]
    else AfterBlock(bytes[Taken(bytes)..])
  }

  lemma TakenLine(bytes: seq<byte>)
    requires bytes != []
    ensures Lines(bytes) == [TrimEol(bytes[..Taken(bytes)])] + Lines(bytes[Taken(bytes)..])
  {
    hide IndexOf, StripCR, Lines;
    LinesFront(bytes);
    var i := IndexOf(bytes, LF);
    if i < |bytes| {
      assert bytes[..i + 1][..i] == bytes[..i];
    } else {
      assert bytes[..|bytes|] == bytes && bytes[|bytes|..] == [];
      assert bytes[|bytes| - 1] != LF;
      LinesFront(bytes[|bytes|..]);
    }
  }

  /** Reads a block a client is sending, from a stream holding `input`; `rest` is left unread. An
      unterminated block ends with the input. */
  method ReadArticle(input: seq<byte>) returns (lines: seq<Line>, rest: seq<byte>)
    ensures lines == Content(Lines(input)) && rest == AfterBlock(input)
  {
    hide Content, Lines, AfterBlock, TrimEol, Taken;
    lines := [];
    rest := input;
    while rest != []
      invariant Content(Lines(input)) == lines + Content(Lines(rest))
      invariant AfterBlock(input) == AfterBlock(rest)
      decreases |rest|
    {
      TakesSome(rest);
      var n := Taken(rest);
      var content := TrimEol(rest[..n]);
      if IsTerminator(content) {
        ReadsEnd(rest);
        return lines, rest[n..];
      }
      ReadsOne(rest);
      lines := lines + [if content != [] && content[0] == DOT then content[1..] else content];
      rest := rest[n..];
    }
    NothingLeft();
  }

  lemma TakesSome(bytes: seq<byte>)
    requires bytes != []
    ensures 0 < Taken(bytes) <= |bytes|
  {
  }

  lemma NothingLeft()
    ensures Content(Lines([])) == [] && AfterBlock([]) == []
  {
  }

  /** Reading the line that ends the block. */
  lemma ReadsEnd(bytes: seq<byte>)
    requires bytes != [] && IsTerminator(TrimEol(bytes[..Taken(bytes)]))
    ensures Content(Lines(bytes)) == [] && AfterBlock(bytes) == bytes[Taken(bytes)..]
  {
  }

  /** Reading one line that does not end the block. */
  lemma ReadsOne(bytes: seq<byte>)
    requires bytes != [] && !IsTerminator(TrimEol(bytes[..Taken(bytes)]))
    ensures Content(Lines(bytes)) ==
            [Unstuff(TrimEol(bytes[..Taken(bytes)]))] + Content(Lines(bytes[Taken(bytes)..]))
    ensures AfterBlock(bytes) == AfterBlock(bytes[Taken(bytes)..])
  {
    TakenLine(bytes);
    assert Lines(bytes)[1..] == Lines(bytes[Taken(bytes)..]);
  }

  // ----- round trips -----

  ghost predicate NoLF(line: Line) {
    forall k :: 0 <= k < |line| ==> line[k] != LF
  }

  ghost predicate EndsInCR(line: Line) {
    line != [] && line[|line| - 1] == CR
  }

  ghost predicate IsEol(eol: seq<byte>) {
    eol == CRLF || eol == [LF]
  }

  /** A line that survives being written with this line ending. */
  ghost predicate Survives(line: Line, eol: seq<byte>) {
    NoLF(line) && (eol == [LF] ==> !EndsInCR(line))
  }

  /** The first line of `line + eol + more`, for a line without line feeds. */
  lemma FirstLine(line: Line, eol: seq<byte>, more: seq<byte>)
    requires NoLF(line) && IsEol(eol)
    ensures var bytes := line + eol + more;
            && Taken(bytes) == |line| + |eol|
            && bytes[Taken(bytes)..] == more
            && TrimEol(bytes[..Taken(bytes)]) == (if eol == [LF] then StripCR(line) else line)
            && IndexOf(bytes, LF) == |line| + |eol| - 1 < |bytes|
            && bytes[..IndexOf(bytes, LF)] == line + eol[..|eol| - 1]
  {
    var bytes := line + eol + more;
    var i := |line| + |eol| - 1;
    assert bytes[i] == LF;
    forall k | 0 <= k < i ensures bytes[k] != LF {
      if k < |line| { assert bytes[k] == line[k]; }
    }
    IndexOfIs(bytes, LF, i);
    assert bytes[..i + 1] == line + eol;
    assert (line + eol)[..|line| + |eol| - 1] == line + eol[..|eol| - 1];
    if eol == CRLF {
      assert (line + [CR])[..|line|] == line;
    } else {
      assert line + [] == line;
    }
  }

  /** How a line reads once written with this ending. */
  function Received(line: Line, eol: seq<byte>): Line {
    if eol == [LF] then StripCR(line) else line
  }

  /** The first line of an encoded block reads on its own, and never ends the block. */
  lemma EncodedFirst(lines: seq<Line>, eol: seq<byte>, more: seq<byte>)
    requires lines != [] && NoLF(lines[0]) && IsEol(eol)
    ensures var bytes, next := Encode(lines, eol) + more, Encode(lines[1..], eol) + more;
            && Content(Lines(bytes)) == [Unstuff(Received(Stuff(lines[0]), eol))] + Content(Lines(next))
            && AfterBlock(bytes) == AfterBlock(next)
  {
    var line := Stuff(lines[0]);
    var bytes, next := Encode(lines, eol) + more, Encode(lines[1..], eol) + more;
    StuffSurvives(lines[0], CRLF);
    NeverTerminator(lines[0], eol);
    hide Encode, Stuff, NoLF, IsTerminator, Content, AfterBlock;
    assert bytes == line + eol + next by { EncodeSplits(lines, eol, more); }
    FirstLine(line, eol, next);
    TakenLine(bytes);
    ReadsOne(bytes);
  }

  lemma EncodeSplits(lines: seq<Line>, eol: seq<byte>, more: seq<byte>)
    requires lines != []
    ensures Encode(lines, eol) + more == Stuff(lines[0]) + eol + (Encode(lines[1..], eol) + more)
  {
  }

  lemma NeverTerminator(line: Line, eol: seq<byte>)
    ensures !IsTerminator(Received(Stuff(line), eol))
  {
  }

  /** The terminator ends the block, whatever follows it. */
  lemma EncodedEnd(eol: seq<byte>, more: seq<byte>)
    requires IsEol(eol)
    ensures Content(Lines(Encode([], eol) + more)) == [] && AfterBlock(Encode([], eol) + more) == more
  {
    FirstLine([DOT], eol, more);
    TakenLine([DOT] + eol + more);
  }

  /** Blocks whose lines survive come back, whatever follows them, and exactly what follows is left. */
  lemma {:induction false} EncodedBlockReads(lines: seq<Line>, eol: seq<byte>, more: seq<byte>)
    requires IsEol(eol) && forall k :: 0 <= k < |lines| ==> Survives(lines[k], eol)
    ensures Content(Lines(Encode(lines, eol) + more)) == lines
    ensures AfterBlock(Encode(lines, eol) + more) == more
  {
    hide Encode, Content, AfterBlock, Lines, Stuff, Unstuff;
    if lines == [] {
      EncodedEnd(eol, more);
    } else {
      assert Survives(lines[0], eol);
      EncodedBlockReads(lines[1..], eol, more);
      EncodedFirst(lines, eol, more);
      StuffSurvives(lines[0], eol);
      StuffedComesBack(lines[0]);
    }
  }

  lemma StuffSurvives(line: Line, eol: seq<byte>)
    ensures Survives(line, eol) <==> Survives(Stuff(line), eol)
  {
    if line != [] && line[0] == DOT {
      assert forall k :: 0 <= k < |line| ==> Stuff(line)[k + 1] == line[k];
    }
  }

  lemma {:induction false} LinesHaveNoLF(bytes: seq<byte>)
    ensures forall k :: 0 <= k < |Lines(bytes)| ==> NoLF(Lines(bytes)[k])
    decreases |bytes|
  {
    var i := IndexOf(bytes, LF);
    if i < |bytes| {
      LinesHaveNoLF(bytes[i + 1..]);
    }
  }

  lemma {:induction false} ContentHasNoLF(lines: seq<Line>)
    requires forall k :: 0 <= k < |lines| ==> NoLF(lines[k])
    ensures forall k :: 0 <= k < |Content(lines)| ==> NoLF(Content(lines)[k])
  {
    if lines != [] && !IsTerminator(lines[0]) {
      ContentHasNoLF(lines[1..]);
    }
  }

  /** Whatever reads back equal to what was written was free of line feeds. */
  lemma {:induction false} OnlySurvivorsReadBack(lines: seq<Line>, eol: seq<byte>, more: seq<byte>)
    requires IsEol(eol) && forall k :: 0 <= k < |lines| ==> NoLF(lines[k])
    requires Content(Lines(Encode(lines, eol) + more)) == lines
    ensures forall k :: 0 <= k < |lines| ==> Survives(lines[k], eol)
  {
    if lines != [] {
      hide Encode, Content, AfterBlock, Lines, Stuff;
      EncodedFirst(lines, eol, more);
      assert Content(Lines(Encode(lines, eol) + more))[1..] == Content(Lines(Encode(lines[1..], eol) + more));
      OnlySurvivorsReadBack(lines[1..], eol, more);
      var line := lines[0];
      assert Unstuff(Received(Stuff(line), eol)) == line;
      ReceivedShorter(line, eol);
    }
  }

  lemma ReceivedShorter(line: Line, eol: seq<byte>)
    ensures eol == [LF] && EndsInCR(line) ==> Unstuff(Received(Stuff(line), eol)) != line
  {
  }

  /** A block reads back as written exactly when no line holds a line feed and, for a bare
      line-feed ending, none ends in a carriage return. */
  lemma ReadsBackIff(lines: seq<Line>, eol: seq<byte>, more: seq<byte>)
    requires IsEol(eol)
    ensures Content(Lines(Encode(lines, eol) + more)) == lines <==>
            forall k :: 0 <= k < |lines| ==> Survives(lines[k], eol)
  {
    if forall k :: 0 <= k < |lines| ==> Survives(lines[k], eol) {
      EncodedBlockReads(lines, eol, more);
    }
    if Content(Lines(Encode(lines, eol) + more)) == lines {
      LinesHaveNoLF(Encode(lines, eol) + more);
      ContentHasNoLF(Lines(Encode(lines, eol) + more));
      OnlySurvivorsReadBack(lines, eol, more);
    }
  }
}
