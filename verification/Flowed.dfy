/** Rejoining the soft line breaks of a `format=flowed` body (section 4 of RFC 3676). */
module Flowed {
  import opened Options
  import opened Strings

  // ----- one line -----

  /** A line without its quote prefix and without one stuffed space. */
  datatype FlowLine = FlowLine(depth: nat, content: string)

  function QuoteDepth(line: string): (depth: nat)
    ensures depth <= |line|
  {
    if line != "" && line[0] == '>' then 1 + QuoteDepth(line[1..]) else 0
  }

  function Unstuffed(rest: string): string {
    if rest != "" && rest[0] == ' ' then rest[1..] else rest
  }

  function ReadLine(line: string): FlowLine {
    var depth := QuoteDepth(line);
    FlowLine(depth, Unstuffed(line[depth..]))
  }

  predicate EndsInSpace(text: string) {
    text != "" && text[|text| - 1] == ' '
  }

  /** The line goes on; a signature separator never does. */
  predicate IsFlowed(content: string) {
    EndsInSpace(content) && content != "-- "
  }

  // ----- paragraphs -----

  /** The contents of consecutive lines, each flowed into the next at one quote depth. */
  datatype Paragraph = Paragraph(depth: nat, contents: seq<string>)

  predicate Open(p: Paragraph) {
    p.contents != [] && IsFlowed(p.contents[|p.contents| - 1])
  }

  function Paragraphs(lines: seq<FlowLine>): (ps: seq<Paragraph>)
    ensures forall k :: 0 <= k < |ps| ==> ps[k].contents != []
    ensures lines != [] ==> ps != []
  {
    if lines == [] then [] else Continue(Paragraphs(lines[..|lines| - 1]), lines[|lines| - 1])
  }

  /** The line goes on with the last paragraph only if that one is open at the same depth. */
  function Continue(ps: seq<Paragraph>, line: FlowLine): seq<Paragraph> {
    var n := |ps| - 1;
    if ps != [] && Open(ps[n]) && ps[n].depth == line.depth then
      ps[..n] + [Paragraph(line.depth, ps[n].contents + [line.content])]
    else ps + [Paragraph(line.depth, [line.content])]
  }

  // ----- what is shown -----

  function Quotes(depth: nat): (text: string)
    ensures |text| == depth && forall k :: 0 <= k < depth ==> text[k] == '>'
  {
    if depth == 0 then "" else Quotes(depth - 1) + ">"
  }

  function Prefix(depth: nat, content: string): string {
    Quotes(depth) + if depth > 0 && content != "" then " " else ""
  }

  /** A flowed line keeps its last space unless that space is only a marker. */
  function Kept(content: string, deleteSpace: bool): string {
    if IsFlowed(content) && deleteSpace then content[..|content| - 1] else content
  }

  function Joined(contents: seq<string>, deleteSpace: bool): string {
    if contents == [] then ""
    else Joined(contents[..|contents| - 1], deleteSpace) + Kept(contents[|contents| - 1], deleteSpace)
  }

  function Raw(p: Paragraph, deleteSpace: bool): string
    requires p.contents != []
  {
    Prefix(p.depth, p.contents[0]) + Joined(p.contents, deleteSpace)
  }

  function TrimSpaces(text: string): (r: string)
    ensures r <= text && !EndsInSpace(r)
  {
    if EndsInSpace(text) then TrimSpaces(text[..|text| - 1]) else text
  }

  /** A paragraph that is left open loses the spaces that nothing was joined to. */
  function Shown(p: Paragraph, deleteSpace: bool): string
    requires p.contents != []
  {
    if Open(p) then TrimSpaces(Raw(p, deleteSpace)) else Raw(p, deleteSpace)
  }

  function ShownAll(ps: seq<Paragraph>, deleteSpace: bool): (texts: seq<string>)
    requires forall k :: 0 <= k < |ps| ==> ps[k].contents != []
    ensures |texts| == |ps| && forall k :: 0 <= k < |ps| ==> texts[k] == Shown(ps[k], deleteSpace)
  {
    seq(|ps|, k requires 0 <= k < |ps| => Shown(ps[k], deleteSpace))
  }

  /** One line a paragraph; a last paragraph that is left open and shows nothing is dropped. */
  function Display(ps: seq<Paragraph>, deleteSpace: bool): string
    requires ps != [] && forall k :: 0 <= k < |ps| ==> ps[k].contents != []
  {
    var n := |ps| - 1;
    var texts := ShownAll(ps, deleteSpace);
    if n > 0 && Open(ps[n]) && texts[n] == "" then Join(texts[..n], '\n') else Join(texts, '\n')
  }

  function ReadLines(lines: seq<string>): (r: seq<FlowLine>)
    ensures |r| == |lines| && forall k :: 0 <= k < |lines| ==> r[k] == ReadLine(lines[k])
  {
    seq(|lines|, k requires 0 <= k < |lines| => ReadLine(lines[k]))
  }

  /** The lines of a body: one final line feed ends the last line. */
  function BodyLines(text: string): (lines: seq<string>)
    ensures lines != []
  {
    Split(if text != "" && text[|text| - 1] == '\n' then text[..|text| - 1] else text, '\n')
  }

  function Unflowed(text: string, deleteSpace: bool): string {
    Display(Paragraphs(ReadLines(BodyLines(text))), deleteSpace)
  }

  // ----- the loop -----

  method TrimTrailingSpaces(text: string) returns (out: string)
    ensures out == TrimSpaces(text)
  {
    out := text;
    while EndsInSpace(out)
      invariant TrimSpaces(out) == TrimSpaces(text)
      decreases |out|
    {
      out := out[..|out| - 1];
    }
  }

  method SplitQuotePrefix(line: string) returns (depth: nat, rest: string)
    ensures depth == QuoteDepth(line) && rest == line[depth..]
  {
    depth, rest := 0, line;
    while rest != "" && rest[0] == '>'
      invariant depth <= |line| && rest == line[depth..]
      invariant depth + QuoteDepth(rest) == QuoteDepth(line)
      decreases |rest|
    {
      depth, rest := depth + 1, rest[1..];
    }
  }

  method PushQuotePrefix(text: string, depth: nat, content: string) returns (out: string)
    ensures out == text + Prefix(depth, content)
  {
    out := text;
    for k := 0 to depth
      invariant out == text + Quotes(k)
    {
      out := out + ">";
    }
    if depth > 0 && content != "" {
      out := out + " ";
    }
  }

  /** What has been written so far: every paragraph but the last as it is shown, and the last one
      ended only if it is closed. */
  function Pending(ps: seq<Paragraph>, deleteSpace: bool): string
    requires forall k :: 0 <= k < |ps| ==> ps[k].contents != []
  {
    if ps == [] then ""
    else
      var n := |ps| - 1;
      Ended(ps[..n], deleteSpace) + Raw(ps[n], deleteSpace) + if Open(ps[n]) then "" else "\n"
  }

  function Ended(ps: seq<Paragraph>, deleteSpace: bool): string
    requires forall k :: 0 <= k < |ps| ==> ps[k].contents != []
  {
    if ps == [] then ""
    else Ended(ps[..|ps| - 1], deleteSpace) + (Shown(ps[|ps| - 1], deleteSpace) + "\n")
  }

  method Unflow(text: string, deleteSpace: bool) returns (out: string)
    ensures out == Unflowed(text, deleteSpace)
  {
    hide IsFlowed, TrimSpaces, Prefix, Pending, Ended, Display, Unstuffed, Paragraphs, Continue, Open, ReadLines, BodyLines,
      QuoteDepth, Kept;
    out := "";
    NothingPending(deleteSpace);
    var openDepth: Option<nat> := None;
    var lines := BodyLines(text);
    ghost var ps: seq<Paragraph> := [];
    BodyPlain(text);
    assert Paragraphs(ReadLines(lines[..0])) == [] by { NoParagraphs(); }
    for k := 0 to |lines|
      invariant ps == Paragraphs(ReadLines(lines[..k]))
      invariant out == Pending(ps, deleteSpace)
      invariant openDepth == if ps != [] && Open(ps[|ps| - 1]) then Some(ps[|ps| - 1].depth) else None
    {
      var depth, rest := SplitQuotePrefix(lines[k]);
      var content := Unstuffed(rest);
      var flowed := IsFlowed(content);
      ghost var line := FlowLine(depth, content);
      ParagraphsStep(lines, k);
      ContinueEnds(ps, line);
      KeptIs(content, deleteSpace);
      if Joins(ps, line) {
        LineContinues(ps, line, deleteSpace);
      } else {
        LineStarts(ps, line, deleteSpace);
        EndLast(ps, deleteSpace);
      }
      match openDepth {
        case Some(open) =>
          if open != depth {
            out := TrimTrailingSpaces(out);
            out := out + "\n";
            out := PushQuotePrefix(out, depth, content);
          }
        case None =>
          out := PushQuotePrefix(out, depth, content);
      }
      if flowed {
        var body := if deleteSpace && EndsInSpace(content) then content[..|content| - 1] else content;
        out := out + body;
        openDepth := Some(depth);
      } else {
        out := out + content;
        out := out + "\n";
        openDepth := None;
      }
      ps := Continue(ps, line);
    }
    assert lines[..|lines|] == lines;
    Finished(ps, deleteSpace);
    if openDepth.Some? {
      out := TrimTrailingSpaces(out);
    }
    if out != "" && out[|out| - 1] == '\n' {
      out := out[..|out| - 1];
    }
  }

  /** Trimming stops at a line feed. */
  lemma {:induction false} TrimStopsAt(a: string, b: string)
    requires a == "" || a[|a| - 1] == '\n'
    ensures TrimSpaces(a + b) == a + TrimSpaces(b)
    decreases |b|
  {
    if EndsInSpace(b) {
      TrimStopsAt(a, b[..|b| - 1]);
      assert (a + b)[..|a + b| - 1] == a + b[..|b| - 1];
    } else if b == "" {
      assert a + b == a;
    }
  }

  lemma EndedEnds(ps: seq<Paragraph>, deleteSpace: bool)
    requires forall k :: 0 <= k < |ps| ==> ps[k].contents != []
    ensures var text := Ended(ps, deleteSpace);
            if ps == [] then text == "" else text != "" && text[|text| - 1] == '\n'
  {
  }

  lemma ParagraphsStep(lines: seq<string>, k: nat)
    requires k < |lines|
    ensures Paragraphs(ReadLines(lines[..k + 1])) == Continue(Paragraphs(ReadLines(lines[..k])), ReadLine(lines[k]))
  {
    hide ReadLine, Continue;
    var read := ReadLines(lines[..k + 1]);
    assert read[..k] == ReadLines(lines[..k]);
  }

  lemma ContinueEnds(ps: seq<Paragraph>, line: FlowLine)
    ensures var after := Continue(ps, line);
            && after != [] && after[|after| - 1].depth == line.depth
            && (Open(after[|after| - 1]) <==> IsFlowed(line.content))
    ensures (forall k :: 0 <= k < |ps| ==> ps[k].contents != []) ==>
              forall k :: 0 <= k < |Continue(ps, line)| ==> Continue(ps, line)[k].contents != []
  {
  }

  lemma NoParagraphs()
    ensures Paragraphs(ReadLines([])) == []
  {
  }

  lemma NothingPending(deleteSpace: bool)
    ensures Pending([], deleteSpace) == ""
  {
  }

  lemma JoinedMore(contents: seq<string>, content: string, deleteSpace: bool)
    ensures Joined(contents + [content], deleteSpace) == Joined(contents, deleteSpace) + Kept(content, deleteSpace)
    ensures Joined([content], deleteSpace) == Kept(content, deleteSpace)
  {
  }

  /** Adding a line's text, ended unless the line goes on. */
  function Add(text: string, content: string, deleteSpace: bool): string {
    if IsFlowed(content) then text + Kept(content, deleteSpace) else text + content + "\n"
  }

  lemma KeptIs(content: string, deleteSpace: bool)
    ensures !IsFlowed(content) ==> Kept(content, deleteSpace) == content
    ensures IsFlowed(content) ==> EndsInSpace(content)
                                  && Kept(content, deleteSpace) == if deleteSpace then content[..|content| - 1] else content
  {
  }

  predicate Joins(ps: seq<Paragraph>, line: FlowLine) {
    ps != [] && Open(ps[|ps| - 1]) && ps[|ps| - 1].depth == line.depth
  }

  /** A line that goes on with the open paragraph adds its text. */
  lemma LineContinues(ps: seq<Paragraph>, line: FlowLine, deleteSpace: bool)
    requires forall k :: 0 <= k < |ps| ==> ps[k].contents != []
    requires Joins(ps, line)
    ensures Pending(Continue(ps, line), deleteSpace) == Add(Pending(ps, deleteSpace), line.content, deleteSpace)
  {
    hide IsFlowed, Prefix, Kept, Joined, Ended;
    var n := |ps| - 1;
    var last := Paragraph(line.depth, ps[n].contents + [line.content]);
    assert Continue(ps, line)[..n] == ps[..n];
    JoinedMore(ps[n].contents, line.content, deleteSpace);
    KeptIs(line.content, deleteSpace);
    Associate(Ended(ps[..n], deleteSpace), Prefix(line.depth, ps[n].contents[0]), Joined(ps[n].contents, deleteSpace),
           Kept(line.content, deleteSpace));
  }

  lemma Associate(a: string, b: string, c: string, d: string)
    ensures a + (b + (c + d)) + "" == a + (b + c) + "" + d
    ensures a + (b + (c + d)) + "\n" == a + (b + c) + "" + d + "\n"
    ensures a + (b + d) + "" == a + b + d && a + (b + d) == a + b + d
  {
  }

  /** Any other line starts a paragraph of its own. */
  lemma LineStarts(ps: seq<Paragraph>, line: FlowLine, deleteSpace: bool)
    requires forall k :: 0 <= k < |ps| ==> ps[k].contents != []
    requires !Joins(ps, line)
    ensures Pending(Continue(ps, line), deleteSpace) ==
            Add(Ended(ps, deleteSpace) + Prefix(line.depth, line.content), line.content, deleteSpace)
  {
    hide IsFlowed, Prefix, Kept, Joined, Ended;
    assert Continue(ps, line)[..|ps|] == ps;
    JoinedMore([], line.content, deleteSpace);
    KeptIs(line.content, deleteSpace);
    Associate(Ended(ps, deleteSpace), Prefix(line.depth, line.content), "", Kept(line.content, deleteSpace));
  }

  /** Ending the last paragraph. */
  lemma EndLast(ps: seq<Paragraph>, deleteSpace: bool)
    requires forall k :: 0 <= k < |ps| ==> ps[k].contents != []
    ensures var before := Pending(ps, deleteSpace);
            Ended(ps, deleteSpace) == if ps != [] && Open(ps[|ps| - 1]) then TrimSpaces(before) + "\n" else before
  {
    hide TrimSpaces, IsFlowed, Raw, Ended, Shown, Open;
    if ps == [] {
      EndedEnds(ps, deleteSpace);
    } else {
      var n := |ps| - 1;
      var before := Ended(ps[..n], deleteSpace);
      EndedMore(ps, deleteSpace);
      EndedEnds(ps[..n], deleteSpace);
      TrimStopsAt(before, Raw(ps[n], deleteSpace));
      ShownIs(ps[n], deleteSpace);
      EndText(before, Raw(ps[n], deleteSpace), Shown(ps[n], deleteSpace));
    }
  }

  lemma ShownIs(p: Paragraph, deleteSpace: bool)
    requires p.contents != []
    ensures Shown(p, deleteSpace) == if Open(p) then TrimSpaces(Raw(p, deleteSpace)) else Raw(p, deleteSpace)
  {
  }

  lemma EndText(before: string, raw: string, shown: string)
    ensures before + raw + "" == before + raw
    ensures before + (shown + "\n") == before + shown + "\n"
  {
  }

  lemma EndedMore(ps: seq<Paragraph>, deleteSpace: bool)
    requires ps != [] && forall k :: 0 <= k < |ps| ==> ps[k].contents != []
    ensures Ended(ps, deleteSpace) ==
            Ended(ps[..|ps| - 1], deleteSpace) + (Shown(ps[|ps| - 1], deleteSpace) + "\n")
  {
  }

  lemma {:induction false} EndedIsJoin(ps: seq<Paragraph>, deleteSpace: bool)
    requires ps != [] && forall k :: 0 <= k < |ps| ==> ps[k].contents != []
    ensures Ended(ps, deleteSpace) == Join(ShownAll(ps, deleteSpace), '\n') + "\n"
    decreases |ps|
  {
    hide Shown, Join;
    var n := |ps| - 1;
    var texts := ShownAll(ps, deleteSpace);
    if n > 0 {
      EndedIsJoin(ps[..n], deleteSpace);
      JoinOneMore(texts[..n], texts[n], '\n');
      assert ShownAll(ps[..n], deleteSpace) == texts[..n];
      assert texts == texts[..n] + [texts[n]];
    } else {
      JoinOne(texts);
      assert ps[..0] == [];
    }
  }

  lemma JoinOne(texts: seq<string>)
    requires |texts| == 1
    ensures Join(texts, '\n') == texts[0]
  {
  }

  /** The contents hold no line feed. */
  predicate Plain(ps: seq<Paragraph>) {
    forall p :: p in ps ==> p.contents != [] && forall content :: content in p.contents ==> '\n' !in content
  }

  lemma {:induction false} ParagraphsPlain(lines: seq<FlowLine>)
    requires forall line :: line in lines ==> '\n' !in line.content
    ensures Plain(Paragraphs(lines))
    decreases |lines|
  {
    if lines != [] {
      hide Open;
      ParagraphsPlain(lines[..|lines| - 1]);
    }
  }

  lemma BodyPlain(text: string)
    ensures Plain(Paragraphs(ReadLines(BodyLines(text))))
  {
    hide Split, Paragraphs;
    var body := if text != "" && text[|text| - 1] == '\n' then text[..|text| - 1] else text;
    forall k | 0 <= k < |BodyLines(text)| ensures '\n' !in ReadLine(BodyLines(text)[k]).content {
      SplitPieces(body, '\n', k);
    }
    ParagraphsPlain(ReadLines(BodyLines(text)));
  }

  lemma {:induction false} JoinedPlain(contents: seq<string>, deleteSpace: bool)
    requires forall content :: content in contents ==> '\n' !in content
    ensures '\n' !in Joined(contents, deleteSpace)
    decreases |contents|
  {
    if contents != [] {
      JoinedPlain(contents[..|contents| - 1], deleteSpace);
      assert contents[|contents| - 1] in contents;
      assert '\n' !in Kept(contents[|contents| - 1], deleteSpace);
    }
  }

  lemma ShownPlain(p: Paragraph, deleteSpace: bool)
    requires p.contents != [] && forall content :: content in p.contents ==> '\n' !in content
    ensures '\n' !in Shown(p, deleteSpace)
  {
    JoinedPlain(p.contents, deleteSpace);
    var raw := Raw(p, deleteSpace);
    assert '\n' !in raw by {
      assert '\n' !in Prefix(p.depth, p.contents[0]);
    }
    assert forall k :: 0 <= k < |Shown(p, deleteSpace)| ==> Shown(p, deleteSpace)[k] == raw[k];
  }

  /** The last steps: an open paragraph is trimmed, and one final line feed dropped. */
  lemma Finished(ps: seq<Paragraph>, deleteSpace: bool)
    requires ps != [] && Plain(ps)
    ensures var out := if Open(ps[|ps| - 1]) then TrimSpaces(Pending(ps, deleteSpace)) else Pending(ps, deleteSpace);
            (if out != "" && out[|out| - 1] == '\n' then out[..|out| - 1] else out) == Display(ps, deleteSpace)
  {
    hide TrimSpaces, IsFlowed, Shown, Join, Pending, Ended;
    var n := |ps| - 1;
    var texts := ShownAll(ps, deleteSpace);
    EndedIsJoin(ps, deleteSpace);
    EndLast(ps, deleteSpace);
    if Open(ps[n]) {
      ShownPlain(ps[n], deleteSpace);
      EndedEnds(ps[..n], deleteSpace);
      EndedMore(ps, deleteSpace);
      var out, closed := TrimSpaces(Pending(ps, deleteSpace)), Ended(ps[..n], deleteSpace);
      SameBefore(out, closed + Shown(ps[n], deleteSpace));
      SameBefore(out, Join(texts, '\n'));
      DropFeed(closed, Shown(ps[n], deleteSpace));
      if n > 0 {
        EndedIsJoin(ps[..n], deleteSpace);
        assert ShownAll(ps[..n], deleteSpace) == texts[..n];
      }
    }
  }

  lemma DropFeed(closed: string, shown: string)
    requires (closed == "" || closed[|closed| - 1] == '\n') && '\n' !in shown
    ensures var out := closed + shown;
            (if out != "" && out[|out| - 1] == '\n' then out[..|out| - 1] else out) ==
            if shown == "" && closed != "" then closed[..|closed| - 1] else out
  {
  }

  lemma SameBefore(a: string, b: string)
    requires a + "\n" == b + "\n"
    ensures a == b
  {
    assert (a + "\n")[..|a|] == a && (b + "\n")[..|b|] == b;
  }

  predicate OnlySpaces(text: string) {
    forall k :: 0 <= k < |text| ==> text[k] == ' '
  }

  /** The paragraph is not quoted and holds only spaces. */
  predicate Blank(p: Paragraph) {
    p.depth == 0 && AllBlank(p.contents)
  }

  predicate AllBlank(contents: seq<string>) {
    forall k :: 0 <= k < |contents| ==> OnlySpaces(contents[k])
  }

  /** The last paragraph is not the only one, is left open and is blank. */
  predicate BlankEnd(ps: seq<Paragraph>) {
    |ps| > 1 && Open(ps[|ps| - 1]) && Blank(ps[|ps| - 1])
  }

  lemma {:induction false} TrimmedAway(text: string)
    ensures TrimSpaces(text) == "" <==> OnlySpaces(text)
    decreases |text|
  {
    if EndsInSpace(text) {
      TrimmedAway(text[..|text| - 1]);
    }
  }

  lemma {:induction false} JoinedBlank(contents: seq<string>, deleteSpace: bool)
    ensures OnlySpaces(Joined(contents, deleteSpace)) <==> AllBlank(contents)
    decreases |contents|
  {
    hide OnlySpaces, AllBlank, Kept;
    BlankButLast(contents);
    if contents != [] {
      var n := |contents| - 1;
      JoinedBlank(contents[..n], deleteSpace);
      KeptBlank(contents[n], deleteSpace);
      BlankConcat(Joined(contents[..n], deleteSpace), Kept(contents[n], deleteSpace));
    } else {
      BlankNothing();
    }
  }

  lemma BlankNothing()
    ensures OnlySpaces("")
  {
  }

  lemma BlankButLast(contents: seq<string>)
    ensures AllBlank(contents) <==>
              contents == [] || (AllBlank(contents[..|contents| - 1]) && OnlySpaces(contents[|contents| - 1]))
  {
    hide OnlySpaces;
    if contents != [] {
      var n := |contents| - 1;
      assert forall k :: 0 <= k < n ==> contents[..n][k] == contents[k];
    }
  }

  lemma KeptBlank(content: string, deleteSpace: bool)
    ensures OnlySpaces(Kept(content, deleteSpace)) <==> OnlySpaces(content)
  {
  }

  lemma BlankConcat(a: string, b: string)
    ensures OnlySpaces(a + b) <==> OnlySpaces(a) && OnlySpaces(b)
  {
    assert forall k :: 0 <= k < |a| ==> (a + b)[k] == a[k];
    assert forall k :: 0 <= k < |b| ==> (a + b)[|a| + k] == b[k];
  }

  lemma QuotedIsNotBlank(depth: nat, content: string)
    ensures OnlySpaces(Prefix(depth, content)) <==> depth == 0
  {
    BlankConcat(Quotes(depth), if depth > 0 && content != "" then " " else "");
    assert depth > 0 ==> Quotes(depth)[0] == '>';
  }

  /** An open paragraph shows nothing exactly when it is not quoted and holds only spaces. */
  lemma ShowsNothing(p: Paragraph, deleteSpace: bool)
    requires Open(p)
    ensures Shown(p, deleteSpace) == "" <==> Blank(p)
  {
    hide TrimSpaces, Joined, Prefix, OnlySpaces, AllBlank;
    TrimmedAway(Raw(p, deleteSpace));
    BlankConcat(Prefix(p.depth, p.contents[0]), Joined(p.contents, deleteSpace));
    QuotedIsNotBlank(p.depth, p.contents[0]);
    JoinedBlank(p.contents, deleteSpace);
  }

  /** Every paragraph is shown on a line of its own if and only if the body does not end in an open,
      unquoted one that holds only spaces: that one loses the line feed before it. */
  lemma DisplayIff(ps: seq<Paragraph>, deleteSpace: bool)
    requires ps != [] && forall k :: 0 <= k < |ps| ==> ps[k].contents != []
    ensures Display(ps, deleteSpace) == Join(ShownAll(ps, deleteSpace), '\n') <==> !BlankEnd(ps)
  {
    hide Shown, Open, Join, Blank;
    var n := |ps| - 1;
    var texts := ShownAll(ps, deleteSpace);
    if Open(ps[n]) {
      ShowsNothing(ps[n], deleteSpace);
    }
    if BlankEnd(ps) {
      JoinOneMore(texts[..n], texts[n], '\n');
      assert texts == texts[..n] + [texts[n]];
    }
  }

  /** So for a whole text. */
  lemma UnflowedIff(text: string, deleteSpace: bool)
    ensures var ps := Paragraphs(ReadLines(BodyLines(text)));
            Unflowed(text, deleteSpace) == Join(ShownAll(ps, deleteSpace), '\n') <==> !BlankEnd(ps)
  {
    hide Paragraphs, ReadLines, BodyLines, Shown, BlankEnd, Join;
    DisplayIff(Paragraphs(ReadLines(BodyLines(text))), deleteSpace);
  }

  lemma BlankEndLines()
    ensures ReadLines(BodyLines("a\n  ")) == [FlowLine(0, "a"), FlowLine(0, " ")]
  {
    var text := "a\n  ";
    SplitConcat("a", "  ", '\n');
    assert "a" + ['\n'] + "  " == text;
    assert '\n' !in "a" && '\n' !in "  ";
    assert BodyLines(text) == ["a", "  "];
    assert ReadLine("a") == FlowLine(0, "a") && ReadLine("  ") == FlowLine(0, " ");
  }

  lemma BlankEndParagraphs()
    ensures Paragraphs([FlowLine(0, "a"), FlowLine(0, " ")]) == [Paragraph(0, ["a"]), Paragraph(0, [" "])]
  {
    hide Paragraphs;
    NoParagraphs();
    assert ReadLines([]) == [];
    ParagraphsMore([], FlowLine(0, "a"));
    ParagraphsMore([FlowLine(0, "a")], FlowLine(0, " "));
    assert [] + [FlowLine(0, "a")] == [FlowLine(0, "a")];
    assert [FlowLine(0, "a")] + [FlowLine(0, " ")] == [FlowLine(0, "a"), FlowLine(0, " ")];
  }

  lemma RawOfOne(line: string, deleteSpace: bool)
    requires Kept(line, deleteSpace) == line
    ensures Raw(Paragraph(0, [line]), deleteSpace) == line
  {
    hide Joined;
    JoinedMore([], line, deleteSpace);
    assert Quotes(0) + "" == "" && "" + line == line;
  }

  /** It happens: the second line is blank and flowed, and the line feed after the first goes with it. */
  lemma BlankEndLost()
    ensures var ps := Paragraphs(ReadLines(BodyLines("a\n  ")));
            BlankEnd(ps) && Unflowed("a\n  ", false) == "a" && Join(ShownAll(ps, false), '\n') == "a\n"
  {
    hide Paragraphs, ReadLines, BodyLines, Raw, Join;
    BlankEndLines();
    BlankEndParagraphs();
    KeptIs("a", false);
    KeptIs(" ", false);
    RawOfOne("a", false);
    RawOfOne(" ", false);
    var ps := [Paragraph(0, ["a"]), Paragraph(0, [" "])];
    assert TrimSpaces(" ") == TrimSpaces("") == "";
    assert ShownAll(ps, false) == ["a", ""];
    JoinOne(["a"]);
    JoinOneMore(["a"], "", '\n');
    assert ["a"] + [""] == ["a", ""] && ["a", ""][..1] == ["a"];
    assert "a" + ['\n'] + "" == "a\n";
  }

  // ----- where lines are joined, and where they are not -----

  /** The line ends in a space and is no signature separator, and the next is at the same depth. */
  predicate GoesOn(line: FlowLine, next: FlowLine) {
    && line.content != "" && line.content[|line.content| - 1] == ' ' && line.content != "-- "
    && line.depth == next.depth
  }

  lemma ContinueJoined(ps: seq<Paragraph>, line: FlowLine)
    requires ps != [] && forall k :: 0 <= k < |ps| ==> ps[k].contents != []
    ensures var p := ps[|ps| - 1];
            |Continue(ps, line)| == |ps| + if GoesOn(FlowLine(p.depth, p.contents[|p.contents| - 1]), line) then 0 else 1
  {
  }

  lemma {:induction false} LastRead(lines: seq<FlowLine>)
    requires lines != []
    ensures var ps := Paragraphs(lines);
            var p := ps[|ps| - 1];
            FlowLine(p.depth, p.contents[|p.contents| - 1]) == lines[|lines| - 1]
  {
    ContinueEnds(Paragraphs(lines[..|lines| - 1]), lines[|lines| - 1]);
  }

  /** Two runs of lines read together: one paragraph fewer if the first run goes on into the second, and
      otherwise just the paragraphs of both. */
  lemma {:induction false} TwoRuns(a: seq<FlowLine>, b: seq<FlowLine>)
    requires a != [] && b != []
    ensures if GoesOn(a[|a| - 1], b[0]) then |Paragraphs(a + b)| == |Paragraphs(a)| + |Paragraphs(b)| - 1
            else Paragraphs(a + b) == Paragraphs(a) + Paragraphs(b)
    decreases |b|
  {
    hide Paragraphs, Continue, GoesOn;
    var n := |b| - 1;
    var line := b[n];
    assert a + b == (a + b[..n]) + [line];
    ParagraphsMore(a + b[..n], line);
    LastRead(a + b[..n]);
    ContinueJoined(Paragraphs(a + b[..n]), line);
    assert b == b[..n] + [line];
    ParagraphsMore(b[..n], line);
    if n == 0 {
      assert a + b[..0] == a;
      FirstLine(Paragraphs(a), line);
    } else {
      TwoRuns(a, b[..n]);
      LastRead(b[..n]);
      ContinueJoined(Paragraphs(b[..n]), line);
      assert (a + b[..n])[|a + b[..n]| - 1] == b[..n][n - 1];
      if !GoesOn(a[|a| - 1], b[0]) {
        ContinueLater(Paragraphs(a), Paragraphs(b[..n]), line);
      }
    }
  }

  lemma FirstLine(ps: seq<Paragraph>, line: FlowLine)
    requires ps != [] && forall k :: 0 <= k < |ps| ==> ps[k].contents != []
    ensures Paragraphs([]) == [] && Continue([], line) == [Paragraph(line.depth, [line.content])]
    ensures |Continue(ps, line)| == |ps| + 1 ==> Continue(ps, line) == ps + Continue([], line)
  {
  }

  lemma ContinueLater(ps: seq<Paragraph>, qs: seq<Paragraph>, line: FlowLine)
    requires qs != []
    ensures Continue(ps + qs, line) == ps + Continue(qs, line)
  {
    var n := |qs| - 1;
    assert (ps + qs)[..|ps| + n] == ps + qs[..n] && (ps + qs)[|ps| + n] == qs[n];
  }

  /** A line is joined to the next exactly when it ends in a space, is not `-- `, and the next is at the
      same quote depth. */
  lemma JoinedIff(lines: seq<FlowLine>, k: nat)
    requires k + 1 < |lines|
    ensures Paragraphs(lines) == Paragraphs(lines[..k + 1]) + Paragraphs(lines[k + 1..]) <==>
            !GoesOn(lines[k], lines[k + 1])
  {
    hide Paragraphs, GoesOn;
    var a, b := lines[..k + 1], lines[k + 1..];
    assert lines == a + b && a[|a| - 1] == lines[k] && b[0] == lines[k + 1];
    TwoRuns(a, b);
    if Paragraphs(lines) == Paragraphs(a) + Paragraphs(b) {
      assert |Paragraphs(lines)| == |Paragraphs(a)| + |Paragraphs(b)|;
    }
  }

  lemma {:induction false} JoinConcat(a: seq<string>, b: seq<string>, separator: char)
    requires a != [] && b != []
    ensures Join(a + b, separator) == Join(a, separator) + [separator] + Join(b, separator)
  {
    if |a| == 1 {
      assert (a + b)[1..] == b;
    } else {
      JoinConcat(a[1..], b, separator);
      assert (a + b)[1..] == a[1..] + b;
    }
  }

  /** Where a line is not joined to the next, what is shown of a body falls into what is shown of its two
      parts, with a line feed between: a signature stays below its separator. */
  lemma ShownApart(ls: seq<string>, k: nat, deleteSpace: bool)
    requires k + 1 < |ls| && !GoesOn(ReadLine(ls[k]), ReadLine(ls[k + 1]))
    ensures var first, rest := Paragraphs(ReadLines(ls[..k + 1])), Paragraphs(ReadLines(ls[k + 1..]));
            && first != [] && rest != []
            && Join(ShownAll(Paragraphs(ReadLines(ls)), deleteSpace), '\n') ==
               Join(ShownAll(first, deleteSpace), '\n') + ['\n'] + Join(ShownAll(rest, deleteSpace), '\n')
  {
    hide Paragraphs, GoesOn, Shown, Join, ReadLine;
    var lines := ReadLines(ls);
    assert lines[..k + 1] == ReadLines(ls[..k + 1]) && lines[k + 1..] == ReadLines(ls[k + 1..]);
    JoinedIff(lines, k);
    var first, rest := Paragraphs(lines[..k + 1]), Paragraphs(lines[k + 1..]);
    assert ShownAll(first + rest, deleteSpace) == ShownAll(first, deleteSpace) + ShownAll(rest, deleteSpace);
    JoinConcat(ShownAll(first, deleteSpace), ShownAll(rest, deleteSpace), '\n');
  }

  lemma SignatureRead()
    ensures BodyLines("-- \nBob") == ["-- ", "Bob"] && !IsFlowed("-- ") && !IsFlowed("Bob")
    ensures ReadLine("-- ") == FlowLine(0, "-- ") && ReadLine("Bob") == FlowLine(0, "Bob")
    ensures !GoesOn(FlowLine(0, "-- "), FlowLine(0, "Bob"))
  {
    hide Split;
    assert "-- " + ['\n'] + "Bob" == "-- \nBob" && '\n' !in "-- " && '\n' !in "Bob";
    BodyTwo("-- \nBob", "-- ", "Bob");
  }

  /** The separator keeps its space and its line. */
  lemma SignatureStands(deleteSpace: bool)
    ensures Unflowed("-- \nBob", deleteSpace) == "-- \nBob"
  {
    hide Paragraphs, ReadLines, BodyLines, Join, Shown, BlankEnd, ReadLine, GoesOn, IsFlowed, Unflowed;
    var ls := ["-- ", "Bob"];
    SignatureRead();
    ShownApart(ls, 0, deleteSpace);
    assert ls[..1] == ["-- "] && ls[1..] == ["Bob"];
    OneLineShown("-- ", deleteSpace);
    OneLineShown("Bob", deleteSpace);
    NoBlankEnd(ls);
    UnflowedIff("-- \nBob", deleteSpace);
    assert "-- " + ['\n'] + "Bob" == "-- \nBob";
  }

  lemma BodyTwo(text: string, a: string, b: string)
    requires text == a + ['\n'] + b && '\n' !in a && '\n' !in b && b != ""
    ensures BodyLines(text) == [a, b]
  {
    SplitConcat(a, b, '\n');
  }

  /** A line on its own that does not go on is shown as it is. */
  lemma OneLineShown(line: string, deleteSpace: bool)
    requires ReadLine(line) == FlowLine(0, line) && !IsFlowed(line)
    ensures var ps := Paragraphs(ReadLines([line]));
            ps != [] && Join(ShownAll(ps, deleteSpace), '\n') == line
  {
    hide ReadLine, Raw;
    NoParagraphs();
    ParagraphsMore([], FlowLine(0, line));
    assert ReadLines([line]) == [FlowLine(0, line)] == [] + [FlowLine(0, line)];
    KeptIs(line, deleteSpace);
    RawOfOne(line, deleteSpace);
    var ps := Paragraphs(ReadLines([line]));
    assert ps == [Paragraph(0, [line])];
    assert ShownAll(ps, deleteSpace) == [line];
    JoinOne([line]);
  }

  lemma NoBlankEnd(ls: seq<string>)
    requires ls != [] && !IsFlowed(ReadLine(ls[|ls| - 1]).content)
    ensures !BlankEnd(Paragraphs(ReadLines(ls)))
  {
    hide IsFlowed, ReadLine, Paragraphs;
    LastRead(ReadLines(ls));
  }

  /** A paragraph that is left open ends in no space, and has lost nothing but spaces. */
  lemma OpenTrimmed(p: Paragraph, deleteSpace: bool)
    requires Open(p)
    ensures var raw, shown := Raw(p, deleteSpace), Shown(p, deleteSpace);
            && shown <= raw && (shown != "" ==> shown[|shown| - 1] != ' ')
            && forall k :: |shown| <= k < |raw| ==> raw[k] == ' '
  {
    hide Raw;
    TrimmedRest(Raw(p, deleteSpace));
  }

  lemma {:induction false} TrimmedRest(text: string)
    ensures forall k :: |TrimSpaces(text)| <= k < |text| ==> text[k] == ' '
    decreases |text|
  {
    if EndsInSpace(text) {
      TrimmedRest(text[..|text| - 1]);
    }
  }

  /** One final line feed says nothing. */
  lemma FinalFeed(text: string, deleteSpace: bool)
    requires text == "" || text[|text| - 1] != '\n'
    ensures Unflowed(text + "\n", deleteSpace) == Unflowed(text, deleteSpace)
  {
    hide Paragraphs, ReadLines, Display, Split;
    assert (text + "\n")[..|text|] == text;
  }

  // ----- undoing an encoding -----

  /** A stretch of a paragraph's text put on a line of its own, with a stuffed space or without. */
  datatype Fragment = Fragment(text: string, stuffed: bool)

  /** A paragraph and where its lines are broken. */
  datatype Broken = Broken(depth: nat, fragments: seq<Fragment>)

  /** What follows the quote prefix and the stuffed space: with deleted spaces, a break is marked by
      a space of its own. */
  function Wire(p: Broken, k: nat, deleteSpace: bool): string
    requires k < |p.fragments|
  {
    p.fragments[k].text + if deleteSpace && k < |p.fragments| - 1 then " " else ""
  }

  /** Every line but the last is marked as going on, no line breaks off at a signature separator, and
      a line that would be misread is stuffed. */
  predicate Encodable(p: Broken, deleteSpace: bool) {
    && p.fragments != []
    && (forall k: nat :: k < |p.fragments| ==>
          && '\n' !in p.fragments[k].text
          && (IsFlowed(Wire(p, k, deleteSpace)) <==> k < |p.fragments| - 1)
          && (var wire := Wire(p, k, deleteSpace);
              p.fragments[k].stuffed || wire == "" || wire[0] !in {' ', '>'}))
  }

  function WireLine(p: Broken, k: nat, deleteSpace: bool): string
    requires k < |p.fragments|
  {
    Quotes(p.depth) + (if p.fragments[k].stuffed then " " else "") + Wire(p, k, deleteSpace)
  }

  function WireLines(p: Broken, deleteSpace: bool): (lines: seq<string>)
    ensures |lines| == |p.fragments| && forall k :: 0 <= k < |lines| ==> lines[k] == WireLine(p, k, deleteSpace)
  {
    seq(|p.fragments|, k requires 0 <= k < |p.fragments| => WireLine(p, k, deleteSpace))
  }

  function AllLines(doc: seq<Broken>, deleteSpace: bool): (lines: seq<string>)
  {
    if doc == [] then []
    else AllLines(doc[..|doc| - 1], deleteSpace) + WireLines(doc[|doc| - 1], deleteSpace)
  }

  /** The text of the paragraph itself. */
  function Text(fragments: seq<Fragment>): string {
    if fragments == [] then "" else Text(fragments[..|fragments| - 1]) + fragments[|fragments| - 1].text
  }

  /** The paragraph as it is shown: on one line, after its quote marks and a space unless it was sent
      as one empty line. */
  function Meaning(p: Broken): string {
    Quotes(p.depth) +
    (if p.depth > 0 && !(|p.fragments| == 1 && p.fragments[0].text == "") then " " else "") + Text(p.fragments)
  }

  function Meanings(doc: seq<Broken>): (texts: seq<string>)
    ensures |texts| == |doc| && forall k :: 0 <= k < |doc| ==> texts[k] == Meaning(doc[k])
  {
    seq(|doc|, k requires 0 <= k < |doc| => Meaning(doc[k]))
  }

  ghost predicate EncodableAll(doc: seq<Broken>, deleteSpace: bool) {
    forall p :: p in doc ==> Encodable(p, deleteSpace)
  }

  lemma {:induction false} QuotedDepth(depth: nat, rest: string)
    requires rest == "" || rest[0] != '>'
    ensures QuoteDepth(Quotes(depth) + rest) == depth
    ensures (Quotes(depth) + rest)[depth..] == rest
  {
    if depth > 0 {
      QuotedDepth(depth - 1, rest);
      var line := Quotes(depth) + rest;
      assert line[1..] == Quotes(depth - 1) + rest;
    } else {
      assert Quotes(0) + rest == rest;
    }
  }

  lemma StuffedReads(depth: nat, stuffed: bool, wire: string)
    requires stuffed || wire == "" || wire[0] !in {' ', '>'}
    ensures ReadLine(Quotes(depth) + (if stuffed then " " else "") + wire) == FlowLine(depth, wire)
  {
    hide Quotes, QuoteDepth;
    var rest := (if stuffed then " " else "") + wire;
    QuotedDepth(depth, rest);
    assert Quotes(depth) + (if stuffed then " " else "") + wire == Quotes(depth) + rest;
    assert stuffed ==> rest[1..] == wire;
  }

  /** A line is read back as the depth and the text that were written on it. */
  lemma WireLineReads(p: Broken, k: nat, deleteSpace: bool)
    requires Encodable(p, deleteSpace) && k < |p.fragments|
    ensures ReadLine(WireLine(p, k, deleteSpace)) == FlowLine(p.depth, Wire(p, k, deleteSpace))
    ensures '\n' !in WireLine(p, k, deleteSpace)
  {
    hide IsFlowed, ReadLine;
    StuffedReads(p.depth, p.fragments[k].stuffed, Wire(p, k, deleteSpace));
  }

  function Wires(p: Broken, deleteSpace: bool): (contents: seq<string>)
    ensures |contents| == |p.fragments|
    ensures forall k :: 0 <= k < |contents| ==> contents[k] == Wire(p, k, deleteSpace)
  {
    seq(|p.fragments|, k requires 0 <= k < |p.fragments| => Wire(p, k, deleteSpace))
  }

  function Run(depth: nat, contents: seq<string>): (lines: seq<FlowLine>)
    ensures |lines| == |contents| && forall k :: 0 <= k < |lines| ==> lines[k] == FlowLine(depth, contents[k])
  {
    seq(|contents|, k requires 0 <= k < |contents| => FlowLine(depth, contents[k]))
  }

  lemma ParagraphsMore(lines: seq<FlowLine>, line: FlowLine)
    ensures Paragraphs(lines + [line]) == Continue(Paragraphs(lines), line)
  {
  }

  /** After a closed paragraph, lines flowed into each other are read as one paragraph. */
  lemma {:induction false} RunRead(before: seq<FlowLine>, depth: nat, contents: seq<string>)
    requires contents != [] && forall k :: 0 <= k < |contents| - 1 ==> IsFlowed(contents[k])
    requires var ps := Paragraphs(before); ps == [] || !Open(ps[|ps| - 1])
    ensures Paragraphs(before + Run(depth, contents)) == Paragraphs(before) + [Paragraph(depth, contents)]
    decreases |contents|
  {
    hide IsFlowed, Paragraphs;
    var n := |contents| - 1;
    var line := FlowLine(depth, contents[n]);
    if n == 0 {
      ParagraphsMore(before, line);
      assert Run(depth, contents) == [line];
      assert contents == [contents[0]];
    } else {
      RunRead(before, depth, contents[..n]);
      ParagraphsMore(before + Run(depth, contents[..n]), line);
      assert before + Run(depth, contents) == before + Run(depth, contents[..n]) + [line];
      assert contents == contents[..n] + [contents[n]];
    }
  }

  lemma WireRun(p: Broken, deleteSpace: bool)
    requires Encodable(p, deleteSpace)
    ensures ReadLines(WireLines(p, deleteSpace)) == Run(p.depth, Wires(p, deleteSpace))
  {
    hide ReadLine, Wire, WireLine;
    forall k: nat | k < |p.fragments|
      ensures ReadLine(WireLine(p, k, deleteSpace)) == FlowLine(p.depth, Wire(p, k, deleteSpace))
    {
      WireLineReads(p, k, deleteSpace);
    }
  }

  function Plainly(doc: seq<Broken>, deleteSpace: bool): (ps: seq<Paragraph>)
    ensures |ps| == |doc|
    ensures forall k :: 0 <= k < |doc| ==> ps[k] == Paragraph(doc[k].depth, Wires(doc[k], deleteSpace))
  {
    seq(|doc|, k requires 0 <= k < |doc| => Paragraph(doc[k].depth, Wires(doc[k], deleteSpace)))
  }

  /** The lines of a document are read as its paragraphs. */
  lemma {:induction false} DocumentRead(doc: seq<Broken>, deleteSpace: bool)
    requires EncodableAll(doc, deleteSpace)
    ensures Paragraphs(ReadLines(AllLines(doc, deleteSpace))) == Plainly(doc, deleteSpace)
    decreases |doc|
  {
    hide Open, Encodable, ReadLines, Wires, WireLines, Paragraphs, Plainly;
    if doc == [] {
      NoParagraphs();
      PlainlyMore(doc, deleteSpace);
    } else {
      var n := |doc| - 1;
      DocumentRead(doc[..n], deleteSpace);
      ReadLinesConcat(AllLines(doc[..n], deleteSpace), WireLines(doc[n], deleteSpace));
      ClosedLast(doc[..n], deleteSpace);
      OneMoreRead(ReadLines(AllLines(doc[..n], deleteSpace)), doc[n], deleteSpace);
      PlainlyMore(doc, deleteSpace);
    }
  }

  lemma PlainlyMore(doc: seq<Broken>, deleteSpace: bool)
    ensures Plainly(doc, deleteSpace) ==
            if doc == [] then []
            else Plainly(doc[..|doc| - 1], deleteSpace) +
                 [Paragraph(doc[|doc| - 1].depth, Wires(doc[|doc| - 1], deleteSpace))]
  {
  }

  lemma OneMoreRead(before: seq<FlowLine>, p: Broken, deleteSpace: bool)
    requires Encodable(p, deleteSpace)
    requires var ps := Paragraphs(before); ps == [] || !Open(ps[|ps| - 1])
    ensures Paragraphs(before + ReadLines(WireLines(p, deleteSpace))) ==
            Paragraphs(before) + [Paragraph(p.depth, Wires(p, deleteSpace))]
  {
    hide Encodable, ReadLines, Wires, WireLines, Paragraphs, Open, IsFlowed;
    WireRun(p, deleteSpace);
    WiresFlow(p, deleteSpace);
    RunRead(before, p.depth, Wires(p, deleteSpace));
  }

  lemma ReadLinesConcat(a: seq<string>, b: seq<string>)
    ensures ReadLines(a + b) == ReadLines(a) + ReadLines(b)
  {
  }

  lemma WiresFlow(p: Broken, deleteSpace: bool)
    requires Encodable(p, deleteSpace)
    ensures var contents := Wires(p, deleteSpace);
            && contents != [] && (forall k :: 0 <= k < |contents| - 1 ==> IsFlowed(contents[k]))
            && !IsFlowed(contents[|contents| - 1])
  {
  }

  lemma ClosedLast(doc: seq<Broken>, deleteSpace: bool)
    requires EncodableAll(doc, deleteSpace)
    ensures forall k :: 0 <= k < |doc| ==> !Open(Plainly(doc, deleteSpace)[k])
  {
    hide IsFlowed, Wire, Encodable;
    forall k | 0 <= k < |doc| ensures !Open(Plainly(doc, deleteSpace)[k]) {
      WiresFlow(doc[k], deleteSpace);
    }
  }

  lemma {:induction false} JoinedText(p: Broken, k: nat, deleteSpace: bool)
    requires Encodable(p, deleteSpace) && k <= |p.fragments|
    ensures Joined(Wires(p, deleteSpace)[..k], deleteSpace) == Text(p.fragments[..k])
    decreases k
  {
    if k > 0 {
      JoinedText(p, k - 1, deleteSpace);
      assert Wires(p, deleteSpace)[..k][..k - 1] == Wires(p, deleteSpace)[..k - 1];
      assert p.fragments[..k][..k - 1] == p.fragments[..k - 1];
      var wire := Wire(p, k - 1, deleteSpace);
      assert Kept(wire, deleteSpace) == p.fragments[k - 1].text;
    }
  }

  /** Each paragraph is shown as it was meant. */
  lemma ShownAsMeant(p: Broken, deleteSpace: bool)
    requires Encodable(p, deleteSpace)
    ensures Shown(Paragraph(p.depth, Wires(p, deleteSpace)), deleteSpace) == Meaning(p)
  {
    hide IsFlowed, Joined, Text, TrimSpaces;
    WiresFlow(p, deleteSpace);
    JoinedText(p, |p.fragments|, deleteSpace);
    assert Wires(p, deleteSpace)[..|p.fragments|] == Wires(p, deleteSpace);
    assert p.fragments[..|p.fragments|] == p.fragments;
    FirstWireEmpty(p, deleteSpace);
  }

  lemma FirstWireEmpty(p: Broken, deleteSpace: bool)
    requires Encodable(p, deleteSpace)
    ensures Wire(p, 0, deleteSpace) == "" <==> |p.fragments| == 1 && p.fragments[0].text == ""
  {
  }

  /** The text that carries a document. */
  function Encode(doc: seq<Broken>, deleteSpace: bool): string
    requires AllLines(doc, deleteSpace) != []
  {
    Join(AllLines(doc, deleteSpace), '\n') + "\n"
  }

  lemma {:induction false} LinesPlain(doc: seq<Broken>, deleteSpace: bool)
    requires EncodableAll(doc, deleteSpace)
    ensures forall line :: line in AllLines(doc, deleteSpace) ==> '\n' !in line
    ensures doc != [] ==> AllLines(doc, deleteSpace) != []
    decreases |doc|
  {
    if doc != [] {
      hide WireLine, Wire, IsFlowed;
      var n := |doc| - 1;
      LinesPlain(doc[..n], deleteSpace);
      assert Encodable(doc[n], deleteSpace);
      forall k: nat | k < |doc[n].fragments| ensures '\n' !in WireLine(doc[n], k, deleteSpace) {
        WireLineReads(doc[n], k, deleteSpace);
      }
    }
  }

  /** Rejoining undoes every `format=flowed` encoding: however the paragraphs of a document were broken
      and stuffed, each comes back on one line, at its quote depth. */
  lemma UnflowInverts(doc: seq<Broken>, deleteSpace: bool)
    requires doc != [] && EncodableAll(doc, deleteSpace)
    ensures AllLines(doc, deleteSpace) != []
    ensures Unflowed(Encode(doc, deleteSpace), deleteSpace) == Join(Meanings(doc), '\n')
  {
    hide Encodable, Shown, Meaning, Open, Wires, Paragraphs, ReadLines, AllLines, Join, Split;
    var lines := AllLines(doc, deleteSpace);
    LinesPlain(doc, deleteSpace);
    SplitJoin(lines, '\n');
    SplitAllPlain(lines, '\n');
    var text := Encode(doc, deleteSpace);
    assert text[..|text| - 1] == Join(lines, '\n');
    DocumentRead(doc, deleteSpace);
    ClosedLast(doc, deleteSpace);
    var ps := Plainly(doc, deleteSpace);
    forall k | 0 <= k < |doc| ensures ps[k].contents != [] && Shown(ps[k], deleteSpace) == Meaning(doc[k]) {
      WiresFlow(doc[k], deleteSpace);
      ShownAsMeant(doc[k], deleteSpace);
    }
    assert ShownAll(ps, deleteSpace) == Meanings(doc);
  }

  /** In particular, unquoted lines come back unchanged wherever they were broken. */
  lemma PlainTextSurvives(lines: seq<string>, doc: seq<Broken>, deleteSpace: bool)
    requires lines != [] && |doc| == |lines| && EncodableAll(doc, deleteSpace)
    requires forall k :: 0 <= k < |doc| ==> doc[k].depth == 0 && Text(doc[k].fragments) == lines[k]
    ensures AllLines(doc, deleteSpace) != []
    ensures Unflowed(Encode(doc, deleteSpace), deleteSpace) == Join(lines, '\n')
  {
    hide Text, Unflowed, Encode, Join, EncodableAll, Meaning, AllLines;
    UnflowInverts(doc, deleteSpace);
    forall k | 0 <= k < |doc| ensures Meaning(doc[k]) == lines[k] {
      MeansItself(doc[k]);
    }
    assert Meanings(doc) == lines;
  }

  lemma MeansItself(p: Broken)
    requires p.depth == 0
    ensures Meaning(p) == Text(p.fragments)
  {
    hide Text;
    assert Quotes(0) + "" + Text(p.fragments) == Text(p.fragments);
  }
}
