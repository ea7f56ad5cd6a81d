/** Framing a byte stream: status lines and data blocks read under limits, blocks written, and a
    connection that refuses everything once it has lost its place. The transport delivers its
    bytes in arbitrary segments; another thread may raise a cancel flag at any time. */
module Connections {
  import opened Options
  import opened Blocks
  import opened Sequences

  datatype Limits = Limits(maxLineLen: nat, maxBlockBytes: nat, maxBlockLines: nat)

  datatype Failure = ConnectionClosed | OutOfStep | LineTooLong | TooManyLines | TooManyBytes | Cancelled

  // ----- what a byte string says, whatever its segments -----

  datatype LineRead = GotLine(line: Line, rest: seq<byte>) | NoLine(failure: Failure)

  /** The next line and what follows it. The limit counts a carriage return before the line feed. */
  function NextLine(bytes: seq<byte>, maxLineLen: nat): LineRead {
    var i := IndexOf(bytes, LF);
    if i > maxLineLen then NoLine(LineTooLong)
    else if i == |bytes| then NoLine(ConnectionClosed)
    else GotLine(StripCR(bytes[..i]), bytes[i + 1..])
  }

  /** The rest of a block, what follows it, and the cancel flag's remaining patience. */
  datatype BlockRead = GotBlock(lines: seq<Line>, rest: seq<byte>, patience: Option<nat>)
                     | NoBlock(failure: Failure, patience: Option<nat>)

  /** A cancel flag that will be found raised after so many more looks, or never. */
  function Looked(patience: Option<nat>): Option<nat> {
    if patience.Some? && patience.value > 0 then Some(patience.value - 1) else patience
  }

  /** Puts lines read before in front of the rest of a block. */
  function Prefixed(content: seq<Line>, read: BlockRead): BlockRead {
    match read
    case NoBlock(_, _) => read
    case GotBlock(lines, rest, left) => GotBlock(content + lines, rest, left)
  }

  /** The rest of a block of which `lines` lines and `octets` octets have been read. */
  function NextBlock(bytes: seq<byte>, limits: Limits, lines: nat, octets: nat, patience: Option<nat>): BlockRead
    decreases |bytes|
  {
    if patience == Some(0) then NoBlock(Cancelled, patience)
    else
      match NextLine(bytes, limits.maxLineLen)
      case NoLine(failure) => NoBlock(failure, Looked(patience))
      case GotLine(line, rest) =>
        if IsTerminator(line) then GotBlock([], rest, Looked(patience))
        else if lines + 1 > limits.maxBlockLines then NoBlock(TooManyLines, Looked(patience))
        else if octets + |line| > limits.maxBlockBytes then NoBlock(TooManyBytes, Looked(patience))
        else Prefixed([Unstuff(line)], NextBlock(rest, limits, lines + 1, octets + |line|, Looked(patience)))
  }

  // ----- what a connection answers -----

  datatype Op = ReadALine | ReadABlock | SendABlock(lines: seq<Line>)

  datatype Outcome = Read(line: Line) | ReadBlock(lines: seq<Line>) | Sent | Failed(failure: Failure)

  /** Where a connection stands: lost, or in front of some bytes; with the cancel flag's patience
      and what has been written. */
  datatype Place = Lost(patience: Option<nat>, written: seq<byte>)
                 | At(patience: Option<nat>, written: seq<byte>, rest: seq<byte>)

  function Step(place: Place, op: Op, limits: Limits): (Outcome, Place) {
    match op
    case ReadALine =>
      if place.Lost? then (Failed(OutOfStep), place)
      else
        (match NextLine(place.rest, limits.maxLineLen)
         case GotLine(line, after) => (Read(line), place.(rest := after))
         case NoLine(failure) => (Failed(failure), Lost(place.patience, place.written)))
    case ReadABlock =>
      if place.patience == Some(0) then (Failed(Cancelled), Lost(place.patience, place.written))
      else if place.Lost? then (Failed(OutOfStep), Lost(Looked(place.patience), place.written))
      else
        (match NextBlock(place.rest, limits, 0, 0, place.patience)
         case GotBlock(lines, after, left) => (ReadBlock(lines), At(left, place.written, after))
         case NoBlock(failure, left) => (Failed(failure), Lost(left, place.written)))
    case SendABlock(lines) =>
      if place.Lost? then (Failed(OutOfStep), place)
      else (Sent, place.(written := place.written + Encode(lines, CRLF)))
  }

  function Play(place: Place, ops: seq<Op>, limits: Limits): (result: (seq<Outcome>, Place))
    ensures |result.0| == |ops|
    decreases |ops|
  {
    if ops == [] then ([], place)
    else
      var n := |ops| - 1;
      var (before, reached) := Play(place, ops[..n], limits);
      var (outcome, after) := Step(reached, ops[n], limits);
      (before + [outcome], after)
  }

  /** Once the place is lost it stays lost: every later operation fails, and nothing more is
      written. */
  lemma {:induction false} LostStaysLost(place: Place, ops: seq<Op>, limits: Limits)
    requires place.Lost?
    ensures Play(place, ops, limits).1.Lost? && Play(place, ops, limits).1.written == place.written
    ensures forall k :: 0 <= k < |ops| ==> Play(place, ops, limits).0[k] in {Failed(OutOfStep), Failed(Cancelled)}
    decreases |ops|
  {
    if ops != [] {
      LostStaysLost(place, ops[..|ops| - 1], limits);
    }
  }

  /** An operation that fails loses the place. */
  lemma FailureLoses(place: Place, op: Op, limits: Limits)
    ensures var (outcome, after) := Step(place, op, limits);
            outcome.Failed? <==> after.Lost?
    ensures var (outcome, after) := Step(place, op, limits);
            outcome.Failed? ==> after.written == place.written
  {
  }

  /** After the first failure in a run every operation fails and nothing more is written: no byte that comes
      later is taken for an answer. */
  lemma {:induction false} FailureLasts(place: Place, ops: seq<Op>, limits: Limits, k: nat)
    requires k < |ops| && Play(place, ops, limits).0[k].Failed?
    ensures var (outcomes, after) := Play(place, ops, limits);
            && after.Lost? && after.written == Play(place, ops[..k], limits).1.written
            && forall j :: k < j < |ops| ==> outcomes[j] in {Failed(OutOfStep), Failed(Cancelled)}
    decreases |ops|
  {
    var n := |ops| - 1;
    var reached := Play(place, ops[..n], limits).1;
    FailureLoses(reached, ops[n], limits);
    if k < n {
      FailureLasts(place, ops[..n], limits, k);
      assert ops[..n][..k] == ops[..k];
    }
  }

  // ----- the connection -----

  function Flat(segments: seq<seq<byte>>): seq<byte> {
    if segments == [] then [] else segments[0] + Flat(segments[1..])
  }

  class Connection {
    var buffer: seq<byte>
    var incoming: seq<seq<byte>>
    var written: seq<byte>
    const limits: Limits
    var desynchronised: bool
    var patience: Option<nat>

    /** Segments still to come are never empty: an empty read is the end of the stream. */
    ghost predicate Valid()
      reads this
    {
      forall k :: 0 <= k < |incoming| ==> incoming[k] != []
    }

    ghost function Remaining(): seq<byte>
      reads this
    {
      buffer + Flat(incoming)
    }

    ghost function Where(): Place
      reads this
    {
      if desynchronised then Lost(patience, written) else At(patience, written, Remaining())
    }

    constructor (segments: seq<seq<byte>>, limits: Limits, patience: Option<nat>)
      requires forall k :: 0 <= k < |segments| ==> segments[k] != []
      ensures Valid() && Where() == At(patience, [], Flat(segments)) && this.limits == limits
    {
      this.buffer := [];
      this.incoming := segments;
      this.written := [];
      this.limits := limits;
      this.desynchronised := false;
      this.patience := patience;
      new;
      assert [] + Flat(segments) == Flat(segments);
    }

    method FillBuf() returns (available: seq<byte>)
      requires Valid()
      modifies this`buffer, this`incoming
      ensures Valid() && Remaining() == old(Remaining())
      ensures available == buffer && (available == [] <==> Remaining() == [])
      ensures available == [] ==> incoming == []
    {
      if buffer == [] && incoming != [] {
        assert Remaining() == incoming[0] + Flat(incoming[1..]);
        buffer := incoming[0];
        incoming := incoming[1..];
      }
      available := buffer;
    }

    method Consume(n: nat)
      requires Valid() && n <= |buffer|
      modifies this`buffer
      ensures Valid() && buffer == old(buffer)[n..]
      ensures Remaining() == old(Remaining())[n..]
    {
      buffer := buffer[n..];
    }

    /** Reads one line, stripping its terminator and enforcing the length limit. */
    method ReadLine() returns (r: Result<Line, Failure>)
      requires Valid()
      modifies this`buffer, this`incoming, this`desynchronised
      ensures Valid()
      ensures old(desynchronised) ==> r == Err(OutOfStep) && unchanged(this)
      ensures !old(desynchronised) ==>
                match NextLine(old(Remaining()), limits.maxLineLen)
                case GotLine(line, rest) => r == Ok(line) && !desynchronised && Remaining() == rest
                case NoLine(failure) => r == Err(failure) && desynchronised
    {
      hide StripCR, NextLine, Partial, IndexOf;
      if desynchronised {
        return Err(OutOfStep);
      }
      ghost var bytes := Remaining();
      var line: seq<byte> := [];
      PartialStart(bytes, limits.maxLineLen);
      while true
        invariant Valid() && !desynchronised
        invariant Partial(bytes, line, Remaining(), limits.maxLineLen)
        decreases |Remaining()|
      {
        var available := FillBuf();
        PartialNext(bytes, line, available, Flat(incoming), limits.maxLineLen);
        if available == [] {
          desynchronised := true;
          return Err(ConnectionClosed);
        }
        var index := IndexOf(available, LF);
        if index < |available| {
          line := line + available[..index];
          Consume(index + 1);
          break;
        }
        line := line + available;
        Consume(|available|);
        if |line| > limits.maxLineLen {
          desynchronised := true;
          return Err(LineTooLong);
        }
      }
      if |line| > limits.maxLineLen {
        desynchronised := true;
        return Err(LineTooLong);
      }
      r := Ok(StripCR(line));
    }

    /** Reads a data block: unstuffed lines up to the terminator, within the limits, unless the
        cancel flag is found raised between two lines. */
    method ReadDataBlock() returns (r: Result<seq<Line>, Failure>)
      requires Valid()
      modifies this`buffer, this`incoming, this`desynchronised, this`patience
      ensures Valid()
      ensures old(desynchronised) ==> buffer == old(buffer) && incoming == old(incoming)
      ensures (OfBlock(r), Where()) == Step(old(Where()), ReadABlock, limits)
    {
      hide Unstuff, NextLine, Flat;
      var content: seq<Line> := [];
      var lines: nat, octets: nat := 0, 0;
      ghost var whole := NextBlock(Remaining(), limits, 0, 0, patience);
      while true
        invariant Valid() && desynchronised == old(desynchronised) && written == old(written)
        invariant desynchronised ==>
            content == [] && patience == old(patience) && buffer == old(buffer) && incoming == old(incoming)
        invariant !desynchronised ==>
            whole == Prefixed(content, NextBlock(Remaining(), limits, lines, octets, patience))
        decreases |Remaining()|
      {
        if patience == Some(0) {
          desynchronised := true;
          return Err(Cancelled);
        }
        ghost var bytes := Remaining();
        patience := Looked(patience);
        LineShorter(bytes, limits.maxLineLen);
        var read := ReadLine();
        if read.Err? {
          return Err(read.error);
        }
        var line := read.value;
        if IsTerminator(line) {
          assert content + [] == content;
          return Ok(content);
        }
        lines := lines + 1;
        octets := octets + |line|;
        if lines > limits.maxBlockLines {
          desynchronised := true;
          return Err(TooManyLines);
        }
        if octets > limits.maxBlockBytes {
          desynchronised := true;
          return Err(TooManyBytes);
        }
        PrefixedTwice(content, [Unstuff(line)], NextBlock(Remaining(), limits, lines, octets, patience));
        content := content + [Unstuff(line)];
      }
    }

    /** Sends a data block: the lines, dot-stuffed, then the terminator. */
    method SendBlock(lines: seq<Line>) returns (r: Result<(), Failure>)
      requires Valid()
      modifies this`written
      ensures Valid()
      ensures ((if r.Ok? then Sent else Failed(r.error)), Where()) == Step(old(Where()), SendABlock(lines), limits)
    {
      if desynchronised {
        return Err(OutOfStep);
      }
      hide Encode;
      var out: seq<byte> := [];
      for k := 0 to |lines|
        invariant written == old(written)
        invariant out + Encode(lines[k..], CRLF) == Encode(lines, CRLF)
      {
        EncodeStep(out, lines, k, CRLF);
        out := out + Stuff(lines[k]);
        out := out + CRLF;
      }
      EncodeEnd(out, lines, CRLF);
      out := out + [DOT] + CRLF;
      written := written + out;
      r := Ok(());
    }

    /** Carries out any sequence of operations. The outcomes depend on the bytes to come, not on
        how they are cut into segments. */
    method Perform(ops: seq<Op>) returns (outcomes: seq<Outcome>)
      requires Valid()
      modifies this
      ensures Valid()
      ensures (outcomes, Where()) == Play(old(Where()), ops, limits)
    {
      outcomes := [];
      ghost var place := Where();
      for k := 0 to |ops|
        invariant Valid()
        invariant (outcomes, Where()) == Play(place, ops[..k], limits)
      {
        assert ops[..k + 1][..k] == ops[..k];
        match ops[k] {
          case ReadALine =>
            var r := ReadLine();
            outcomes := outcomes + [if r.Ok? then Read(r.value) else Failed(r.error)];
          case ReadABlock =>
            var r := ReadDataBlock();
            outcomes := outcomes + [OfBlock(r)];
          case SendABlock(lines) =>
            var r := SendBlock(lines);
            outcomes := outcomes + [if r.Ok? then Sent else Failed(r.error)];
        }
      }
      assert ops[..|ops|] == ops;
    }
  }

  function OfBlock(r: Result<seq<Line>, Failure>): Outcome {
    if r.Ok? then ReadBlock(r.value) else Failed(r.error)
  }

  lemma PrefixedTwice(a: seq<Line>, b: seq<Line>, read: BlockRead)
    ensures Prefixed(a, Prefixed(b, read)) == Prefixed(a + b, read)
  {
    if read.GotBlock? {
      assert a + (b + read.lines) == (a + b) + read.lines;
    }
  }

  lemma LineShorter(bytes: seq<byte>, maxLineLen: nat)
    ensures NextLine(bytes, maxLineLen).GotLine? ==> |NextLine(bytes, maxLineLen).rest| < |bytes|
  {
  }

  /** Part of a line has been read: no line feed in it, and it is within the limit. */
  ghost predicate Partial(bytes: seq<byte>, line: seq<byte>, remaining: seq<byte>, maxLineLen: nat) {
    bytes == line + remaining && |line| <= maxLineLen && forall k :: 0 <= k < |line| ==> line[k] != LF
  }

  lemma PartialStart(bytes: seq<byte>, maxLineLen: nat)
    ensures Partial(bytes, [], bytes, maxLineLen)
  {
  }

  /** No line feed in the next segment either. */
  lemma NoFeedYet(line: seq<byte>, available: seq<byte>, more: seq<byte>)
    requires forall k :: 0 <= k < |line| ==> line[k] != LF
    requires IndexOf(available, LF) == |available|
    ensures forall k :: 0 <= k < |line + available| ==> (line + available)[k] != LF
    ensures IndexOf(line + (available + more), LF) >= |line + available|
    ensures (available + more)[|available|..] == more
  {
    hide IndexOf;
    var bytes := line + (available + more);
    assert forall k :: 0 <= k < |line + available| ==> bytes[k] == (line + available)[k];
  }

  /** The line feed comes in the next segment. */
  lemma FeedFound(line: seq<byte>, available: seq<byte>, more: seq<byte>)
    requires forall k :: 0 <= k < |line| ==> line[k] != LF
    requires IndexOf(available, LF) < |available|
    ensures var bytes, index := line + (available + more), IndexOf(available, LF);
            && IndexOf(bytes, LF) == |line| + index < |bytes|
            && bytes[..|line| + index] == line + available[..index]
            && bytes[|line| + index + 1..] == (available + more)[index + 1..]
  {
    hide IndexOf;
    var bytes, index := line + (available + more), IndexOf(available, LF);
    assert forall k :: 0 <= k < |line| ==> bytes[k] == line[k];
    assert forall k :: |line| <= k < |line| + |available| ==> bytes[k] == available[k - |line|];
    IndexOfIs(bytes, LF, |line| + index);
  }

  /** What the next segment decides. */
  lemma PartialNext(bytes: seq<byte>, line: seq<byte>, available: seq<byte>, more: seq<byte>, maxLineLen: nat)
    requires Partial(bytes, line, available + more, maxLineLen)
    requires available == [] ==> more == []
    ensures available == [] ==> NextLine(bytes, maxLineLen) == NoLine(ConnectionClosed)
    ensures var index := IndexOf(available, LF);
            && index <= |available|
            && (available != [] && index == |available| ==>
                  if |line + available| > maxLineLen then NextLine(bytes, maxLineLen) == NoLine(LineTooLong)
                  else Partial(bytes, line + available, (available + more)[|available|..], maxLineLen))
            && (index < |available| ==>
                  NextLine(bytes, maxLineLen) ==
                  if |line + available[..index]| > maxLineLen then NoLine(LineTooLong)
                  else GotLine(StripCR(line + available[..index]), (available + more)[index + 1..]))
  {
    hide IndexOf, StripCR;
    if IndexOf(available, LF) < |available| {
      FeedFound(line, available, more);
    } else {
      NoFeedYet(line, available, more);
      assert line + (available + more) == (line + available) + more;
    }
  }

  // ----- what the writers send, this connection reads back -----

  /** A line fits when what arrives before its line feed is within the limit. */
  ghost predicate LineFits(line: Line, eol: seq<byte>, limits: Limits)
    requires IsEol(eol)
  {
    |Stuff(line)| + |eol| - 1 <= limits.maxLineLen
  }

  function Octets(lines: seq<Line>): nat {
    if lines == [] then 0 else |Stuff(lines[0])| + Octets(lines[1..])
  }

  lemma NextEncodedLine(line: Line, eol: seq<byte>, more: seq<byte>, maxLineLen: nat)
    requires IsEol(eol) && NoLF(line) && |line| + |eol| - 1 <= maxLineLen
    ensures NextLine(line + eol + more, maxLineLen) == GotLine(Received(line, eol), more)
  {
    FirstLine(line, eol, more);
    var bytes := line + eol + more;
    assert eol == CRLF ==> line + eol[..|eol| - 1] == line + [CR] && (line + [CR])[..|line|] == line;
    assert eol == [LF] ==> line + eol[..|eol| - 1] == line;
  }

  /** A line can be read if and only if what comes before its line feed is within the limit: a carriage
      return counts, though it is then dropped. */
  lemma LineReadIff(line: Line, eol: seq<byte>, more: seq<byte>, maxLineLen: nat)
    requires IsEol(eol) && NoLF(line)
    ensures NextLine(line + eol + more, maxLineLen) ==
            if |line| + |eol| - 1 <= maxLineLen then GotLine(Received(line, eol), more) else NoLine(LineTooLong)
  {
    hide IndexOf;
    if |line| + |eol| - 1 <= maxLineLen {
      NextEncodedLine(line, eol, more, maxLineLen);
    } else {
      FirstLine(line, eol, more);
    }
  }

  /** A line of exactly the limit is refused when it is ended by a carriage return and a line feed, and
      read when it is ended by a line feed alone. */
  lemma FullLineRefused(more: seq<byte>)
    ensures NextLine([65, 66] + CRLF + more, 2) == NoLine(LineTooLong)
    ensures NextLine([65, 66] + [LF] + more, 2) == GotLine([65, 66], more)
  {
    LineReadIff([65, 66], CRLF, more, 2);
    LineReadIff([65, 66], [LF], more, 2);
  }

  /** The terminator and every line fit, and so do the number of lines and of octets: with no lines there
      is nothing to count. */
  ghost predicate BlockFits(blockLines: seq<Line>, eol: seq<byte>, limits: Limits, lines: nat, octets: nat)
    requires IsEol(eol)
  {
    && |eol| <= limits.maxLineLen
    && (forall k :: 0 <= k < |blockLines| ==> LineFits(blockLines[k], eol, limits))
    && (blockLines != [] ==>
          lines + |blockLines| <= limits.maxBlockLines && octets + Octets(blockLines) <= limits.maxBlockBytes)
  }

  lemma BlockFitsStep(blockLines: seq<Line>, eol: seq<byte>, limits: Limits, lines: nat, octets: nat)
    requires IsEol(eol) && blockLines != []
    ensures var size := |Stuff(blockLines[0])|;
            BlockFits(blockLines, eol, limits, lines, octets) <==>
              && LineFits(blockLines[0], eol, limits)
              && lines + 1 <= limits.maxBlockLines && octets + size <= limits.maxBlockBytes
              && BlockFits(blockLines[1..], eol, limits, lines + 1, octets + size)
  {
    hide Stuff, LineFits;
    var rest := blockLines[1..];
    assert forall k :: 0 < k < |blockLines| ==> blockLines[k] == rest[k - 1];
    assert rest == [] ==> Octets(rest) == 0;
    if LineFits(blockLines[0], eol, limits) && (forall k :: 0 <= k < |rest| ==> LineFits(rest[k], eol, limits)) {
      forall k | 0 <= k < |blockLines| ensures LineFits(blockLines[k], eol, limits) {
        assert k > 0 ==> blockLines[k] == rest[k - 1];
      }
    }
    if BlockFits(blockLines, eol, limits, lines, octets) {
      forall k | 0 <= k < |rest| ensures LineFits(rest[k], eol, limits) {
        assert rest[k] == blockLines[k + 1];
      }
    }
  }

  /** A block of surviving lines is read if and only if it is within the limits; what is read then is the
      block, and what is left is exactly what follows it: back-to-back responses are read one by one. */
  lemma {:induction false} EncodedBlockArrives(blockLines: seq<Line>, eol: seq<byte>, more: seq<byte>, limits: Limits,
                                               lines: nat, octets: nat)
    requires IsEol(eol) && forall k :: 0 <= k < |blockLines| ==> Survives(blockLines[k], eol)
    ensures NextBlock(Encode(blockLines, eol) + more, limits, lines, octets, None).GotBlock? <==>
              BlockFits(blockLines, eol, limits, lines, octets)
    ensures BlockFits(blockLines, eol, limits, lines, octets) ==>
              NextBlock(Encode(blockLines, eol) + more, limits, lines, octets, None) == GotBlock(blockLines, more, None)
    decreases |blockLines|
  {
    hide Encode, Stuff, NextLine, Received, BlockFits, Survives;
    if blockLines == [] {
      NothingFits(eol, limits, lines, octets);
      EmptyBlockArrives(eol, more, limits, lines, octets);
    } else {
      var line, rest := Stuff(blockLines[0]), Encode(blockLines[1..], eol) + more;
      assert Survives(blockLines[0], eol);
      EncodeSplits(blockLines, eol, more);
      BlockFitsStep(blockLines, eol, limits, lines, octets);
      StuffSurvives(blockLines[0], eol);
      StuffedComesBack(blockLines[0]);
      SurvivorNoLF(line, eol);
      LineReadIff(line, eol, rest, limits.maxLineLen);
      SurvivorReceived(line, eol);
      EncodedBlockArrives(blockLines[1..], eol, more, limits, lines + 1, octets + |line|);
      assert [blockLines[0]] + blockLines[1..] == blockLines;
    }
  }

  lemma NothingFits(eol: seq<byte>, limits: Limits, lines: nat, octets: nat)
    requires IsEol(eol)
    ensures BlockFits([], eol, limits, lines, octets) <==> |eol| <= limits.maxLineLen
  {
  }

  lemma SurvivorNoLF(line: Line, eol: seq<byte>)
    requires Survives(line, eol)
    ensures NoLF(line)
  {
  }

  /** A terminator right away is read whatever the counts, if it fits itself. */
  lemma EmptyBlockArrives(eol: seq<byte>, more: seq<byte>, limits: Limits, lines: nat, octets: nat)
    requires IsEol(eol)
    ensures var read := NextBlock(Encode([], eol) + more, limits, lines, octets, None);
            if |eol| <= limits.maxLineLen then read == GotBlock([], more, None) else read.NoBlock?
  {
    hide Encode, NextLine, Received;
    EncodeNothing(eol, more);
    LineReadIff([DOT], eol, more, limits.maxLineLen);
    DotReceived(eol);
  }

  lemma EncodeNothing(eol: seq<byte>, more: seq<byte>)
    ensures Encode([], eol) + more == [DOT] + eol + more
  {
  }

  lemma DotReceived(eol: seq<byte>)
    requires IsEol(eol)
    ensures Received([DOT], eol) == [DOT]
  {
  }

  lemma SurvivorReceived(line: Line, eol: seq<byte>)
    requires IsEol(eol) && Survives(line, eol)
    ensures Received(line, eol) == line
  {
  }

  /** Whatever bytes arrive: if this connection reads a block, the buffer parser and the server's
      reader read the same lines from them, and the server's reader leaves the same rest. */
  lemma {:induction false} DecodersAgree(bytes: seq<byte>, limits: Limits, lines: nat, octets: nat, patience: Option<nat>)
    requires NextBlock(bytes, limits, lines, octets, patience).GotBlock?
    ensures var read := NextBlock(bytes, limits, lines, octets, patience);
            Content(Lines(bytes)) == read.lines && AfterBlock(bytes) == read.rest
    decreases |bytes|
  {
    hide Content, Lines, AfterBlock, Unstuff, StripCR;
    LineTaken(bytes, limits.maxLineLen);
    var next := NextLine(bytes, limits.maxLineLen);
    if IsTerminator(next.line) {
      ReadsEnd(bytes);
    } else {
      ReadsOne(bytes);
      DecodersAgree(next.rest, limits, lines + 1, octets + |next.line|, Looked(patience));
    }
  }

  // ----- when a block is read at all -----

  /** What stands before each line feed, carriage returns included. */
  function Arriving(bytes: seq<byte>): seq<seq<byte>>
    decreases |bytes|
  {
    var i := IndexOf(bytes, LF);
    if i < |bytes| then [bytes[..i]] + Arriving(bytes[i + 1..]) else []
  }

  /** The octets of the first `n` lines, without their endings. */
  function Size(raw: seq<seq<byte>>, n: nat): nat
    requires n <= |raw|
  {
    if n == 0 then 0 else |StripCR(raw[0])| + Size(raw[1..], n - 1)
  }

  /** Line `n` is the first terminator, every line up to it is within the limit, those before it are within
      the two counts, and the cancel flag is not found raised by then. */
  ghost predicate BlockAhead(raw: seq<seq<byte>>, n: nat, limits: Limits, lines: nat, octets: nat, patience: Option<nat>) {
    && n < |raw| && IsTerminator(StripCR(raw[n]))
    && (forall k :: 0 <= k < n ==> !IsTerminator(StripCR(raw[k])))
    && (forall k :: 0 <= k <= n ==> |raw[k]| <= limits.maxLineLen)
    && (n > 0 ==> lines + n <= limits.maxBlockLines && octets + Size(raw, n) <= limits.maxBlockBytes)
    && (patience.Some? ==> n < patience.value)
  }

  lemma AheadNow(raw: seq<seq<byte>>, limits: Limits, lines: nat, octets: nat, patience: Option<nat>)
    requires raw != []
    ensures BlockAhead(raw, 0, limits, lines, octets, patience) <==>
              IsTerminator(StripCR(raw[0])) && |raw[0]| <= limits.maxLineLen && patience != Some(0)
  {
    hide StripCR, IsTerminator;
  }

  lemma AheadLater(raw: seq<seq<byte>>, n: nat, limits: Limits, lines: nat, octets: nat, patience: Option<nat>)
    requires raw != []
    ensures var size := |StripCR(raw[0])|;
            BlockAhead(raw, n + 1, limits, lines, octets, patience) <==>
              && !IsTerminator(StripCR(raw[0])) && |raw[0]| <= limits.maxLineLen && patience != Some(0)
              && lines + 1 <= limits.maxBlockLines && octets + size <= limits.maxBlockBytes
              && BlockAhead(raw[1..], n, limits, lines + 1, octets + size, Looked(patience))
  {
    hide StripCR, IsTerminator;
    var rest := raw[1..];
    assert forall k :: 0 <= k < |rest| ==> rest[k] == raw[k + 1];
    if BlockAhead(raw, n + 1, limits, lines, octets, patience) {
      assert IsTerminator(StripCR(rest[n]));
      assert !IsTerminator(StripCR(raw[0])) && |raw[0]| <= limits.maxLineLen;
    }
    if !IsTerminator(StripCR(raw[0])) && |raw[0]| <= limits.maxLineLen && n < |rest|
       && BlockAhead(rest, n, limits, lines + 1, octets + |StripCR(raw[0])|, Looked(patience)) {
      forall k | 0 <= k <= n ensures !IsTerminator(StripCR(raw[k])) {
        assert k > 0 ==> raw[k] == rest[k - 1];
      }
      forall k | 0 <= k <= n + 1 ensures |raw[k]| <= limits.maxLineLen {
        assert k > 0 ==> raw[k] == rest[k - 1];
      }
    }
  }

  ghost predicate SomeBlockAhead(raw: seq<seq<byte>>, limits: Limits, lines: nat, octets: nat, patience: Option<nat>) {
    exists n: nat :: BlockAhead(raw, n, limits, lines, octets, patience)
  }

  lemma SomeAheadStep(raw: seq<seq<byte>>, limits: Limits, lines: nat, octets: nat, patience: Option<nat>)
    ensures SomeBlockAhead(raw, limits, lines, octets, patience) <==>
              && raw != [] && |raw[0]| <= limits.maxLineLen && patience != Some(0)
              && (IsTerminator(StripCR(raw[0])) ||
                  (var size := |StripCR(raw[0])|;
                   && lines + 1 <= limits.maxBlockLines && octets + size <= limits.maxBlockBytes
                   && SomeBlockAhead(raw[1..], limits, lines + 1, octets + size, Looked(patience))))
  {
    hide StripCR, IsTerminator, BlockAhead;
    if raw == [] {
      NothingAhead(limits, lines, octets, patience);
    } else {
      AheadNow(raw, limits, lines, octets, patience);
      var rest, left := raw[1..], Looked(patience);
      var moreLines, moreOctets := lines + 1, octets + |StripCR(raw[0])|;
      if n: nat :| BlockAhead(raw, n, limits, lines, octets, patience) {
        if n > 0 {
          AheadLater(raw, n - 1, limits, lines, octets, patience);
        }
      }
      if n: nat :| BlockAhead(rest, n, limits, moreLines, moreOctets, left) {
        AheadLater(raw, n, limits, lines, octets, patience);
      }
    }
  }

  lemma NextBlockStep(bytes: seq<byte>, limits: Limits, lines: nat, octets: nat, patience: Option<nat>)
    ensures var raw := Arriving(bytes);
            NextBlock(bytes, limits, lines, octets, patience).GotBlock? <==>
              && raw != [] && |raw[0]| <= limits.maxLineLen && patience != Some(0)
              && (IsTerminator(StripCR(raw[0])) ||
                  (var size := |StripCR(raw[0])|;
                   && lines + 1 <= limits.maxBlockLines && octets + size <= limits.maxBlockBytes
                   && NextBlock(bytes[IndexOf(bytes, LF) + 1..], limits, lines + 1, octets + size, Looked(patience)).GotBlock?))
  {
    hide IndexOf, StripCR, IsTerminator, Unstuff, Looked;
    var i := IndexOf(bytes, LF);
    if i < |bytes| {
      assert Arriving(bytes)[0] == bytes[..i];
    } else {
      assert NextLine(bytes, limits.maxLineLen).NoLine?;
    }
  }

  /** Whatever bytes arrive, a block is read from them if and only if there is one ahead within the
      limits. */
  lemma {:induction false} BlockReadIff(bytes: seq<byte>, limits: Limits, lines: nat, octets: nat, patience: Option<nat>)
    ensures NextBlock(bytes, limits, lines, octets, patience).GotBlock? <==>
            SomeBlockAhead(Arriving(bytes), limits, lines, octets, patience)
    decreases |bytes|
  {
    hide IndexOf, StripCR, IsTerminator, SomeBlockAhead, NextBlock;
    var raw := Arriving(bytes);
    NextBlockStep(bytes, limits, lines, octets, patience);
    SomeAheadStep(raw, limits, lines, octets, patience);
    if raw != [] {
      BlockReadIff(bytes[IndexOf(bytes, LF) + 1..], limits, lines + 1, octets + |StripCR(raw[0])|, Looked(patience));
    }
  }

  lemma NothingAhead(limits: Limits, lines: nat, octets: nat, patience: Option<nat>)
    ensures forall n: nat :: !BlockAhead([], n, limits, lines, octets, patience)
  {
  }

  // ----- and how it fails when it is not -----

  /** Every kind of failure to read a line, told from the bytes to come. */
  lemma LineFailure(bytes: seq<byte>, maxLineLen: nat)
    ensures NextLine(bytes, maxLineLen) == NoLine(LineTooLong) <==>
              |bytes| > maxLineLen && forall k :: 0 <= k <= maxLineLen ==> bytes[k] != 10
    ensures NextLine(bytes, maxLineLen) == NoLine(ConnectionClosed) <==>
              |bytes| <= maxLineLen && forall k :: 0 <= k < |bytes| ==> bytes[k] != 10
    ensures NextLine(bytes, maxLineLen).NoLine? ==>
              NextLine(bytes, maxLineLen).failure in {LineTooLong, ConnectionClosed}
  {
  }

  /** The first `n` lines arrive and are read, and the block goes on. */
  ghost predicate Reached(raw: seq<seq<byte>>, n: nat, limits: Limits, lines: nat, octets: nat, patience: Option<nat>) {
    && n <= |raw|
    && (forall k :: 0 <= k < n ==> !IsTerminator(StripCR(raw[k])) && |raw[k]| <= limits.maxLineLen)
    && (n > 0 ==> lines + n <= limits.maxBlockLines && octets + Size(raw, n) <= limits.maxBlockBytes)
    && (patience.Some? ==> n <= patience.value)
  }

  /** What follows the first `n` line feeds. */
  ghost function AfterFeeds(bytes: seq<byte>, n: nat): seq<byte>
    requires n <= |Arriving(bytes)|
    decreases n
  {
    if n == 0 then bytes else AfterFeeds(bytes[IndexOf(bytes, LF) + 1..], n - 1)
  }

  /** The failure of a block, told at the line where it comes: a raised flag first, then the line, then the
      number of lines, then the octets. */
  ghost predicate FailsAt(bytes: seq<byte>, raw: seq<seq<byte>>, n: nat, limits: Limits, lines: nat, octets: nat,
                          patience: Option<nat>, failure: Failure)
    requires raw == Arriving(bytes) && n <= |raw|
  {
    if patience == Some(n) then failure == Cancelled
    else if n == |raw| then failure == if |AfterFeeds(bytes, n)| > limits.maxLineLen then LineTooLong else ConnectionClosed
    else if |raw[n]| > limits.maxLineLen then failure == LineTooLong
    else
      && !IsTerminator(StripCR(raw[n]))
      && if lines + n + 1 > limits.maxBlockLines then failure == TooManyLines
         else octets + Size(raw, n + 1) > limits.maxBlockBytes && failure == TooManyBytes
  }

  lemma FailsNow(bytes: seq<byte>, limits: Limits, lines: nat, octets: nat, patience: Option<nat>, failure: Failure)
    requires FailsAt(bytes, Arriving(bytes), 0, limits, lines, octets, patience, failure)
    ensures NextBlock(bytes, limits, lines, octets, patience).NoBlock?
    ensures NextBlock(bytes, limits, lines, octets, patience).failure == failure
  {
    hide StripCR, IsTerminator;
    var raw, i := Arriving(bytes), IndexOf(bytes, LF);
    if raw != [] {
      assert raw[0] == bytes[..i];
      assert Size(raw, 1) == |StripCR(raw[0])| + Size(raw[1..], 0);
    }
  }

  lemma {:induction false} SizeMore(raw: seq<seq<byte>>, n: nat)
    requires 0 < n <= |raw|
    ensures Size(raw, n) == |StripCR(raw[0])| + Size(raw[1..], n - 1)
    ensures n > 1 ==> Size(raw, n) >= |StripCR(raw[0])|
  {
  }

  lemma ReachedStep(raw: seq<seq<byte>>, n: nat, limits: Limits, lines: nat, octets: nat, patience: Option<nat>)
    requires 0 < n && Reached(raw, n, limits, lines, octets, patience)
    ensures var size := |StripCR(raw[0])|;
            && patience != Some(0) && |raw[0]| <= limits.maxLineLen && !IsTerminator(StripCR(raw[0]))
            && lines + 1 <= limits.maxBlockLines && octets + size <= limits.maxBlockBytes
            && Reached(raw[1..], n - 1, limits, lines + 1, octets + size, Looked(patience))
  {
    hide StripCR, IsTerminator;
    SizeMore(raw, n);
    assert forall k :: 0 <= k < n - 1 ==> raw[1..][k] == raw[k + 1];
  }

  lemma FailsStep(bytes: seq<byte>, n: nat, limits: Limits, lines: nat, octets: nat, patience: Option<nat>, failure: Failure)
    requires 0 < n <= |Arriving(bytes)| && patience != Some(0)
    requires FailsAt(bytes, Arriving(bytes), n, limits, lines, octets, patience, failure)
    ensures var raw, rest := Arriving(bytes), bytes[IndexOf(bytes, LF) + 1..];
            && raw[1..] == Arriving(rest)
            && FailsAt(rest, raw[1..], n - 1, limits, lines + 1, octets + |StripCR(raw[0])|, Looked(patience), failure)
  {
    hide StripCR, IsTerminator, IndexOf;
    var raw, rest := Arriving(bytes), bytes[IndexOf(bytes, LF) + 1..];
    assert raw[1..] == Arriving(rest);
    assert AfterFeeds(bytes, n) == AfterFeeds(rest, n - 1);
    if n < |raw| {
      SizeMore(raw, n + 1);
      assert raw[1..][n - 1] == raw[n];
    }
  }

  /** A block fails with the failure told at the line where it comes. */
  lemma {:induction false} BlockFailure(bytes: seq<byte>, n: nat, limits: Limits, lines: nat, octets: nat,
                                        patience: Option<nat>, failure: Failure)
    requires Reached(Arriving(bytes), n, limits, lines, octets, patience)
    requires FailsAt(bytes, Arriving(bytes), n, limits, lines, octets, patience, failure)
    ensures NextBlock(bytes, limits, lines, octets, patience).NoBlock?
    ensures NextBlock(bytes, limits, lines, octets, patience).failure == failure
    decreases n
  {
    hide StripCR, IsTerminator, IndexOf, Unstuff, NextBlock, Arriving, FailsAt;
    ReachedSome(Arriving(bytes), n, limits, lines, octets, patience);
    if n == 0 {
      FailsNow(bytes, limits, lines, octets, patience, failure);
    } else {
      var size := |StripCR(Arriving(bytes)[0])|;
      ReachedStep(Arriving(bytes), n, limits, lines, octets, patience);
      FailsStep(bytes, n, limits, lines, octets, patience, failure);
      ArrivingSome(bytes);
      BlockFailure(bytes[IndexOf(bytes, LF) + 1..], n - 1, limits, lines + 1, octets + size, Looked(patience), failure);
      NextBlockOn(bytes, limits, lines, octets, patience);
    }
  }

  lemma ReachedSome(raw: seq<seq<byte>>, n: nat, limits: Limits, lines: nat, octets: nat, patience: Option<nat>)
    requires Reached(raw, n, limits, lines, octets, patience)
    ensures n <= |raw|
  {
  }

  lemma ArrivingSome(bytes: seq<byte>)
    ensures Arriving(bytes) != [] ==> IndexOf(bytes, LF) < |bytes|
  {
  }

  lemma NextBlockOn(bytes: seq<byte>, limits: Limits, lines: nat, octets: nat, patience: Option<nat>)
    requires Arriving(bytes) != [] && patience != Some(0)
    requires var raw := Arriving(bytes);
             && |raw[0]| <= limits.maxLineLen && !IsTerminator(StripCR(raw[0]))
             && lines + 1 <= limits.maxBlockLines && octets + |StripCR(raw[0])| <= limits.maxBlockBytes
    ensures var raw, rest := Arriving(bytes), bytes[IndexOf(bytes, LF) + 1..];
            NextBlock(bytes, limits, lines, octets, patience) ==
            Prefixed([Unstuff(StripCR(raw[0]))],
                     NextBlock(rest, limits, lines + 1, octets + |StripCR(raw[0])|, Looked(patience)))
  {
    hide StripCR, IsTerminator, Unstuff, Looked, Prefixed;
    assert Arriving(bytes)[0] == bytes[..IndexOf(bytes, LF)];
  }

  lemma LineTaken(bytes: seq<byte>, maxLineLen: nat)
    requires NextLine(bytes, maxLineLen).GotLine?
    ensures bytes != []
    ensures NextLine(bytes, maxLineLen) == GotLine(TrimEol(bytes[..Taken(bytes)]), bytes[Taken(bytes)..])
  {
    var i := IndexOf(bytes, LF);
    assert bytes[..i + 1][..i] == bytes[..i];
  }
}
