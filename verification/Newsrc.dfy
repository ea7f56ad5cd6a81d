/** The `.newsrc` text of read sets: printing and parsing range lists. */
module Newsrc {
  import opened Options
  import opened Sequences
  import opened Strings
  import opened ReadSets
  import opened Decimals

  // ----- printing -----

  function PrintSpan(r: Span): string {
    if r.low == r.high then Decimal(r.low as nat)
    else Decimal(r.low as nat) + "-" + Decimal(r.high as nat)
  }

  function PrintSpans(ranges: Ranges): (texts: seq<string>)
    ensures |texts| == |ranges|
    ensures forall k :: 0 <= k < |ranges| ==> texts[k] == PrintSpan(ranges[k])
  {
    seq(|ranges|, k requires 0 <= k < |ranges| => PrintSpan(ranges[k]))
  }

  /** `1-4237,4240,4242-4250`. */
  function Print(ranges: Ranges): string {
    if ranges == [] then "" else Join(PrintSpans(ranges), ',')
  }

  /** Prints the ranges one by one, with a comma before every one but the first. */
  method Display(ranges: Ranges) returns (out: string)
    ensures out == Print(ranges)
  {
    out := "";
    for index := 0 to |ranges|
      invariant out == Print(ranges[..index])
    {
      PrintOneMore(ranges[..index], ranges[index]);
      assert ranges[..index + 1] == ranges[..index] + [ranges[index]];
      if index > 0 {
        out := out + ",";
      }
      if ranges[index].low == ranges[index].high {
        out := out + Decimal(ranges[index].low as nat);
      } else {
        out := out + (Decimal(ranges[index].low as nat) + "-" + Decimal(ranges[index].high as nat));
      }
    }
    assert ranges[..|ranges|] == ranges;
  }

  lemma PrintOneMore(ranges: Ranges, r: Span)
    ensures Print(ranges + [r]) == (if ranges == [] then "" else Print(ranges) + ",") + PrintSpan(r)
  {
    if ranges != [] {
      JoinOneMore(PrintSpans(ranges), PrintSpan(r), ',');
      assert PrintSpans(ranges + [r]) == PrintSpans(ranges) + [PrintSpan(r)];
    }
  }

  // ----- parsing -----

  /** Parses `4240` or `4242-4250`; a missing upper bound is an error. */
  function ParsePiece(piece: string): Option<(u64, u64)> {
    var i := IndexOf(piece, '-');
    if i == |piece| then
      match ParseNumber(Trim(piece))
      case None => None
      case Some(number) => Some((number, number))
    else
      match ParseNumber(Trim(piece[..i]))
      case None => None
      case Some(low) =>
        if Trim(piece[i + 1..]) == "" then None
        else
          match ParseNumber(Trim(piece[i + 1..]))
          case None => None
          case Some(high) => Some((low, high))
  }

  /** A piece with a dash is read if and only if both sides are numbers: with either missing it is not. */
  lemma DashedPiece(low: string, high: string)
    requires '-' !in low
    ensures ParsePiece(low + "-" + high) ==
            if ParseNumber(Trim(low)).Some? && ParseNumber(Trim(high)).Some?
            then Some((ParseNumber(Trim(low)).value, ParseNumber(Trim(high)).value)) else None
  {
    hide Trim, IndexOf;
    var piece := low + "-" + high;
    IndexOfIs(piece, '-', |low|);
    assert piece[..|low|] == low && piece[|low| + 1..] == high;
  }

  /** A piece without one is a number alone. */
  lemma PlainPiece(piece: string)
    requires '-' !in piece
    ensures ParsePiece(piece) ==
            match ParseNumber(Trim(piece))
            case Some(number) => Some((number, number))
            case None => None
  {
    hide Trim, ParseNumber, IndexOf;
    IndexOfIs(piece, '-', |piece|);
  }

  /** `100-` is no range. */
  lemma MissingBound(low: string, blank: string)
    requires '-' !in low && forall k :: 0 <= k < |blank| ==> IsSpace(blank[k])
    ensures ParsePiece(low + "-" + blank) == None
  {
    hide Trim, IsSpace;
    TrimBlank(blank);
    DashedPiece(low, blank);
  }

  /** A range of one number is printed as that number. */
  lemma SingleAlone(n: u64)
    ensures PrintSpan(Span(n, n)) == Decimal(n as nat) && '-' !in PrintSpan(Span(n, n))
  {
    assert forall c :: IsDigit(c) ==> c != '-';
  }

  /** Some piece of the list names this number. */
  ghost predicate Lists(pieces: seq<string>, n: int) {
    exists k :: 0 <= k < |pieces| && PieceNames(Trim(pieces[k]), n)
  }

  ghost predicate PieceNames(piece: string, n: int) {
    piece != "" && ParsePiece(piece).Some? && Named(ParsePiece(piece).value.0, ParsePiece(piece).value.1, n)
  }

  /** The pieces that cannot be read, in order. */
  function Unreadable(pieces: seq<string>): seq<string> {
    if pieces == [] then []
    else
      var piece := Trim(pieces[|pieces| - 1]);
      Unreadable(pieces[..|pieces| - 1]) + if piece != "" && ParsePiece(piece).None? then [piece] else []
  }

  lemma {:induction false} UnreadableIff(pieces: seq<string>, piece: string)
    ensures piece in Unreadable(pieces) <==>
              exists k :: 0 <= k < |pieces| && Trim(pieces[k]) == piece && piece != "" && ParsePiece(piece).None?
    decreases |pieces|
  {
    hide Trim, ParsePiece;
    if pieces != [] {
      var n := |pieces| - 1;
      UnreadableIff(pieces[..n], piece);
      assert forall k :: 0 <= k < n ==> pieces[..n][k] == pieces[k];
    }
  }

  /** What parsing a range list must give. */
  ghost predicate ParsedFrom(text: string, ranges: Ranges, malformed: seq<string>) {
    && Canonical(ranges)
    && (forall n :: Has(ranges, n) <==> Lists(Split(text, ','), n))
    && malformed == Unreadable(Split(text, ','))
  }

  /** Parses a range list: pieces that can be read are kept, the others are returned. */
  method Parse(text: string) returns (ranges: Ranges, malformed: seq<string>)
    ensures ParsedFrom(text, ranges, malformed)
  {
    hide Has, Lists, ParsePiece, Trim, Unreadable, Canonical, Named;
    var readSet := new ReadSet();
    malformed := [];
    NothingListed();
    var pieces := Split(text, ',');
    for k := 0 to |pieces|
      invariant fresh(readSet) && readSet.Valid()
      invariant forall n :: Has(readSet.ranges, n) <==> Lists(pieces[..k], n)
      invariant malformed == Unreadable(pieces[..k])
    {
      var piece := Trim(pieces[k]);
      UnreadableStep(pieces, k);
      ghost var before := readSet.ranges;
      if piece == "" {
        OnePieceMore(pieces, k, before, before);
        continue;
      }
      match ParsePiece(piece) {
        case Some(bounds) =>
          readSet.InsertRange(bounds.0, bounds.1);
          assert forall n :: readSet.Includes(n) <==> Has(readSet.ranges, n);
        case None => malformed := malformed + [piece];
      }
      OnePieceMore(pieces, k, before, readSet.ranges);
    }
    assert pieces[..|pieces|] == pieces;
    ranges := readSet.ranges;
  }

  lemma NothingListed()
    ensures Unreadable([]) == [] && forall n :: !Lists([], n) && !Has([], n)
  {
  }

  /** Adding what one more piece names. */
  lemma OnePieceMore(pieces: seq<string>, k: nat, before: Ranges, after: Ranges)
    requires k < |pieces| && forall n :: Has(before, n) <==> Lists(pieces[..k], n)
    requires var piece := Trim(pieces[k]);
             forall n :: Has(after, n) <==> Has(before, n) || PieceNames(piece, n)
    ensures forall n :: Has(after, n) <==> Lists(pieces[..k + 1], n)
  {
    hide Has, Lists, PieceNames, Trim;
    forall n ensures Has(after, n) <==> Lists(pieces[..k + 1], n) {
      ListsStep(pieces, k, n);
    }
  }

  lemma UnreadableStep(pieces: seq<string>, k: nat)
    requires k < |pieces|
    ensures Unreadable(pieces[..k + 1]) ==
            Unreadable(pieces[..k]) +
            (if Trim(pieces[k]) != "" && ParsePiece(Trim(pieces[k])).None? then [Trim(pieces[k])] else [])
  {
    assert pieces[..k + 1][..k] == pieces[..k];
  }

  lemma ListsStep(pieces: seq<string>, k: nat, n: int)
    requires k < |pieces|
    ensures Lists(pieces[..k + 1], n) <==> Lists(pieces[..k], n) || PieceNames(Trim(pieces[k]), n)
  {
    hide PieceNames, Trim;
    var before, after := pieces[..k], pieces[..k + 1];
    assert forall i :: 0 <= i < k ==> after[i] == before[i];
    assert after[k] == pieces[k];
  }

  // ----- printing, then parsing -----

  lemma DigitsTight(n: nat)
    ensures Tight(Decimal(n)) && Trim(Decimal(n)) == Decimal(n)
    ensures '-' !in Decimal(n) && ',' !in Decimal(n)
  {
  }

  /** A printed range parses back to its bounds. */
  lemma PrintedSpanParses(r: Span)
    ensures Trim(PrintSpan(r)) == PrintSpan(r) != ""
    ensures ParsePiece(PrintSpan(r)) == Some((r.low, r.high))
    ensures ',' !in PrintSpan(r)
  {
    hide Decimal, ParseNumber, Trim, IsDigit;
    DigitsTight(r.low as nat);
    DigitsTight(r.high as nat);
    PrintedNumberParses(r.low);
    PrintedNumberParses(r.high);
    if r.low == r.high {
      IndexOfIs(Decimal(r.low as nat), '-', |Decimal(r.low as nat)|);
    } else {
      PairParses(Decimal(r.low as nat), Decimal(r.high as nat));
    }
  }

  lemma PairParses(low: string, high: string)
    requires low != "" && high != "" && Tight(low) && Tight(high) && '-' !in low && ',' !in low && ',' !in high
    ensures var text := low + "-" + high;
            && Trim(text) == text != "" && ',' !in text
            && IndexOf(text, '-') == |low| < |text| && text[..|low|] == low && text[|low| + 1..] == high
  {
    var text := low + "-" + high;
    IndexOfIs(text, '-', |low|);
    assert text[0] == low[0] && text[|text| - 1] == high[|high| - 1];
    TrimTight(text);
  }

  lemma {:induction false} AllReadable(ranges: Ranges)
    ensures Unreadable(PrintSpans(ranges)) == []
    decreases |ranges|
  {
    if ranges != [] {
      var n := |ranges| - 1;
      AllReadable(ranges[..n]);
      assert PrintSpans(ranges)[..n] == PrintSpans(ranges[..n]);
      PrintedSpanParses(ranges[n]);
    }
  }

  lemma PrintedLists(ranges: Ranges, n: int)
    requires Canonical(ranges)
    ensures Lists(PrintSpans(ranges), n) <==> Has(ranges, n)
  {
    forall k | 0 <= k < |ranges|
      ensures PieceNames(Trim(PrintSpans(ranges)[k]), n) <==> ranges[k].low as int <= n <= ranges[k].high as int
    {
      PrintedSpanParses(ranges[k]);
    }
    assert forall k :: 0 <= k < |ranges| ==> PrintSpans(ranges)[k] == PrintSpan(ranges[k]);
  }

  lemma PrintedPieces(ranges: Ranges)
    requires ranges != []
    ensures Split(Print(ranges), ',') == PrintSpans(ranges)
  {
    forall k | 0 <= k < |ranges| ensures ',' !in PrintSpans(ranges)[k] {
      PrintedSpanParses(ranges[k]);
    }
    SplitJoin(PrintSpans(ranges), ',');
    SplitAllPlain(PrintSpans(ranges), ',');
  }

  /** The printed list names exactly the members, and all of it can be read. */
  lemma PrintedReads(ranges: Ranges)
    requires Canonical(ranges)
    ensures Unreadable(Split(Print(ranges), ',')) == []
    ensures forall n :: Lists(Split(Print(ranges), ','), n) <==> Has(ranges, n)
  {
    if ranges == [] {
      assert Split("", ',') == [""];
      BlankListsNothing();
    } else {
      PrintedPieces(ranges);
      AllReadable(ranges);
      forall n ensures Lists(Split(Print(ranges), ','), n) <==> Has(ranges, n) {
        PrintedLists(ranges, n);
      }
    }
  }

  /** What a set prints parses back to the same ranges, with nothing unreadable. */
  lemma PrintThenParse(ranges: Ranges, parsed: Ranges, malformed: seq<string>)
    requires Canonical(ranges) && ParsedFrom(Print(ranges), parsed, malformed)
    ensures parsed == ranges && malformed == []
  {
    PrintedReads(ranges);
    RangesUnique(parsed, ranges);
  }

  lemma BlankListsNothing()
    ensures Unreadable([""]) == [] && forall n :: !Lists([""], n)
  {
  }

  /** A list is read by its trimmed pieces. */
  lemma {:induction false} SameTrims(a: seq<string>, b: seq<string>)
    requires |a| == |b| && forall k :: 0 <= k < |a| ==> Trim(a[k]) == Trim(b[k])
    ensures Unreadable(a) == Unreadable(b)
    ensures forall n :: Lists(a, n) <==> Lists(b, n)
    decreases |a|
  {
    hide ParsePiece, Trim, PieceNames;
    if a != [] {
      SameTrims(a[..|a| - 1], b[..|b| - 1]);
    }
  }

  /** A blank in front of the list changes nothing. */
  lemma LeadingBlank(pieces: seq<string>)
    requires pieces != []
    ensures Unreadable(Prepend(' ', pieces)) == Unreadable(pieces)
    ensures forall n :: Lists(Prepend(' ', pieces), n) <==> Lists(pieces, n)
  {
    hide Unreadable, Lists;
    var spaced := Prepend(' ', pieces);
    assert spaced[0][1..] == pieces[0];
    SameTrims(spaced, pieces);
  }

  /** Printed text is digits, hyphens and commas, and ends in a digit. */
  lemma PrintedCharacters(ranges: Ranges)
    ensures forall c :: c in Print(ranges) ==> IsDigit(c) || c == '-' || c == ','
    ensures Print(ranges) != "" <==> ranges != []
    ensures Print(ranges) != "" ==> IsDigit(Print(ranges)[|Print(ranges)| - 1])
  {
    hide IsDigit, Print, PrintSpan;
    NothingPrinted();
    if ranges != [] {
      var n := |ranges| - 1;
      PrintedCharacters(ranges[..n]);
      PrintOneMore(ranges[..n], ranges[n]);
      SpanCharacters(ranges[n]);
      assert ranges[..n] + [ranges[n]] == ranges;
    }
  }

  lemma NothingPrinted()
    ensures Print([]) == ""
  {
  }

  lemma SpanCharacters(r: Span)
    ensures PrintSpan(r) != "" && IsDigit(PrintSpan(r)[|PrintSpan(r)| - 1])
    ensures forall c :: c in PrintSpan(r) ==> IsDigit(c) || c == '-'
  {
    hide IsDigit;
  }
}
