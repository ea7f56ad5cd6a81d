/** The network worker: it takes requests one at a time, talks to the server, and reports to the
    interface. Everything it says, to either, goes into one transcript. */
module Workers {
  import opened Options
  import opened Sequences
  import opened ReadSets
  import opened Wildmats
  import opened Batching
  import opened GroupLists
  import C = Connections
  import R = Ranges

  // ----- what is said -----

  type Token = nat

  datatype Spec = ById(id: string) | ByNumber(number: u64) | Current

  datatype Request =
    | LoadGroups(patterns: seq<Wildmat>)
    | OpenGroup(group: string, count: u64, token: Token)
    | LoadOverview(group: string, range: R.Range, token: Token)
    | LoadArticle(inGroup: Option<string>, spec: Spec)
    | Post(draft: string)
    | Shutdown

  datatype Command =
    | Connect
    | ListActive(pattern: Option<Wildmat>)
    | ListNewsgroups(pattern: Option<Wildmat>)
    | Group(name: string)
    | OverviewFormat
    | Over(range: R.Range)
    | Article(spec: Spec)
    | PostArticle(draft: string)
    | Quit

  datatype Summary = Summary(name: string, estimated: u64, low: u64, high: u64)

  datatype NumberedRecord = NumberedRecord(number: u64, text: string)

  datatype Row = Row(entry: Entry, description: Option<string>)

  datatype Event =
    | Connected
    | Progress
    | Groups(rows: seq<Row>, scope: seq<Wildmat>, filteredLocally: bool)
    | GroupOpened(summary: Summary)
    | OverviewChunk(group: string, token: Token, records: seq<NumberedRecord>, skipped: nat)
    | OverviewComplete(group: string, token: Token)
    | GotArticle(text: string)
    | Posted(text: string)
    | Failed(about: Request, error: Error)
    | Cancelled(about: Request)
    | Disconnected
    | Stopped

  datatype Step = Says(command: Command) | Tells(event: Event)

  /** What can go wrong, other than by the user's own doing. */
  datatype Fault =
    | Io | ConnectionClosed | Timeout | Proto | LineTooLong | BlockTooLarge | Tls
    | UnexpectedResponse | AuthenticationRequired | AuthenticationRejected | PlaintextAuthenticationRefused
    | NoSuchGroup | NoGroupSelected | NoSuchArticle | CommandNotSupported | ServerError
    | PostingNotAllowed | PostingRejected | FeatureNotCompiled

  datatype Error = Abandoned | Fault(fault: Fault)

  /** The connection has lost its place in the stream and cannot be used again. */
  predicate IsConnectionFatal(e: Error) {
    match e
    case Abandoned => true
    case Fault(f) => f in {Io, ConnectionClosed, Timeout, Proto, LineTooLong, BlockTooLarge, Tls}
  }

  /** What the server answers and what the user does, at each point of the transcript. */
  datatype World = World(
    connect: nat -> bool,
    list: (nat, Option<Wildmat>) -> Result<seq<Entry>, Fault>,
    describe: (nat, Option<Wildmat>) -> Result<map<string, string>, Fault>,
    select: (nat, string) -> Result<Summary, Fault>,
    format: nat -> Option<Fault>,
    over: (nat, R.Range) -> Result<seq<Option<NumberedRecord>>, Fault>,
    article: (nat, Spec) -> Result<string, Fault>,
    post: (nat, string) -> Result<string, Fault>,
    raised: nat -> bool,
    noticed: nat -> bool)

  /** The faults that leave the connection where it was: the server has answered, and said no. */
  lemma RefusalsAreNotFatal(f: Fault)
    ensures !IsConnectionFatal(Fault(f)) <==>
              f in {UnexpectedResponse, AuthenticationRequired, AuthenticationRejected, PlaintextAuthenticationRefused,
                    NoSuchGroup, NoGroupSelected, NoSuchArticle, CommandNotSupported, ServerError, PostingNotAllowed,
                    PostingRejected, FeatureNotCompiled}
  {
  }

  /** How a failure of the connection is reported. */
  function ErrorOf(failure: C.Failure): Error {
    match failure
    case ConnectionClosed => Fault(ConnectionClosed)
    case OutOfStep => Fault(ConnectionClosed)
    case LineTooLong => Fault(LineTooLong)
    case TooManyLines => Fault(BlockTooLarge)
    case TooManyBytes => Fault(BlockTooLarge)
    case Cancelled => Abandoned
  }

  /** Whenever the connection has lost its place in the stream, what it reports is fatal to it: no lost
      connection is used again. */
  lemma LostIsFatal(place: C.Place, op: C.Op, limits: C.Limits)
    ensures var (outcome, after) := C.Step(place, op, limits);
            after.Lost? ==> outcome.Failed? && IsConnectionFatal(ErrorOf(outcome.failure))
  {
    C.FailureLoses(place, op, limits);
  }

  // ----- reading a transcript -----

  /** The events that end a request. */
  predicate Terminal(e: Event) {
    e.Groups? || e.OverviewComplete? || e.GotArticle? || e.Posted? || e.Failed? || e.Cancelled?
  }

  /** The events that ended requests, in order. */
  function Terminals(steps: seq<Step>): seq<Event> {
    if steps == [] then []
    else
      var last := steps[|steps| - 1];
      Terminals(steps[..|steps| - 1]) + if last.Tells? && Terminal(last.event) then [last.event] else []
  }

  /** The ranges asked for with `OVER`, in order. */
  function Asked(steps: seq<Step>): seq<R.Range> {
    if steps == [] then []
    else
      var last := steps[|steps| - 1];
      Asked(steps[..|steps| - 1]) + if last.Says? && last.command.Over? then [last.command.range] else []
  }

  /** The parts of overviews delivered: which group and which fetch each was for. */
  function Delivered(steps: seq<Step>): seq<(string, Token)> {
    if steps == [] then []
    else
      var last := steps[|steps| - 1];
      Delivered(steps[..|steps| - 1]) +
      if last.Tells? && last.event.OverviewChunk? then [(last.event.group, last.event.token)] else []
  }

  /** Whether there is a connection after these steps. */
  predicate Live(steps: seq<Step>) {
    steps != [] &&
    var last := steps[|steps| - 1];
    if last == Tells(Connected) then true
    else if last.Tells? && (last.event.Cancelled? || last.event.Disconnected?) then false
    else if last == Says(Quit) then false
    else Live(steps[..|steps| - 1])
  }

  /** The group the server last said it had selected, on the last connection made. */
  function SelectedIn(world: World, steps: seq<Step>): Option<string> {
    if steps == [] then None
    else
      var n := |steps| - 1;
      if steps[n] == Tells(Connected) then None
      else if steps[n].Says? then SelectedBy(world, n, steps[n].command, SelectedIn(world, steps[..n]))
      else SelectedIn(world, steps[..n])
  }

  /** What is selected after a command. */
  function SelectedBy(world: World, n: nat, command: Command, before: Option<string>): Option<string> {
    if command.Group? && world.select(n, command.name).Ok? then Some(world.select(n, command.name).value.name)
    else before
  }

  /** Every group the server says it has selected is the one it was asked to select. */
  ghost predicate HonestNames(world: World) {
    forall n: nat, name :: world.select(n, name).Ok? ==> world.select(n, name).value.name == name
  }

  /** Parts of an overview were asked for, between these points, only with this group selected. */
  ghost predicate AskedOn(world: World, group: Option<string>, before: seq<Step>, after: seq<Step>) {
    forall n :: |before| <= n < |after| && after[n].Says? && after[n].command.Over? ==> SelectedIn(world, after[..n]) == group
  }

  /** The next step is the first of a request: the last one was ended, or there was none. */
  predicate Starts(steps: seq<Step>) {
    steps == [] ||
    var last := steps[|steps| - 1];
    last.Tells? && (Terminal(last.event) || last.event.Disconnected?)
  }

  /** Whether the user has raised the cancel flag since the request began: it is looked at when a request
      is taken up and when a command is sent, and is lowered when the request ends. */
  predicate FlagUp(world: World, steps: seq<Step>)
    decreases |steps|, 0
  {
    steps != [] &&
    var n := |steps| - 1;
    !Starts(steps) && (FlagNext(world, steps[..n]) || (steps[n].Says? && world.raised(n)))
  }

  /** Whether the flag is up when the next step is taken. */
  predicate FlagNext(world: World, steps: seq<Step>)
    decreases |steps|, 1
  {
    FlagUp(world, steps) || (Starts(steps) && world.raised(|steps|))
  }

  /** The user has abandoned the answer to the last command. */
  predicate AbandonedAt(world: World, steps: seq<Step>) {
    && steps != [] && steps[|steps| - 1].Says? && steps[|steps| - 1].command !in {Connect, Quit}
    && FlagUp(world, steps) && world.noticed(|steps| - 1)
  }

  function FaultIn<T>(r: Result<T, Fault>): Option<Fault> {
    match r
    case Ok(_) => None
    case Err(fault) => Some(fault)
  }

  /** What was wrong with the answer to a command, if anything. */
  function FaultOf(world: World, n: nat, command: Command): Option<Fault> {
    match command
    case Connect => if world.connect(n) then None else Some(Tls)
    case ListActive(pattern) => FaultIn(world.list(n, pattern))
    case ListNewsgroups(pattern) => FaultIn(world.describe(n, pattern))
    case Group(name) => FaultIn(world.select(n, name))
    case OverviewFormat => world.format(n)
    case Over(range) => FaultIn(world.over(n, range))
    case Article(spec) => FaultIn(world.article(n, spec))
    case PostArticle(draft) => FaultIn(world.post(n, draft))
    case Quit => None
  }

  /** The last thing said was a command, and the error is what came of it. */
  predicate Blamed(world: World, steps: seq<Step>, e: Error) {
    && steps != [] && steps[|steps| - 1].Says?
    && match e
       case Abandoned => world.noticed(|steps| - 1)
       case Fault(fault) => FaultOf(world, |steps| - 1, steps[|steps| - 1].command) == Some(fault)
  }

  /** An article was asked for by number, or as the current one, with no group selected. */
  predicate Unselected(request: Request, e: Error) {
    e == Fault(NoGroupSelected) && request.LoadArticle? && !request.spec.ById?
  }

  predicate NeedsGroup(spec: Spec) {
    !spec.ById?
  }

  /** Every readable line gave a record, as often as it came, and the others were counted; records with one
      number are in the order they came in. */
  ghost predicate ReadFrom(lines: seq<Option<NumberedRecord>>, records: seq<NumberedRecord>, skipped: nat) {
    && (forall r :: multiset(records)[r] == multiset(lines)[Some(r)])
    && skipped == multiset(lines)[None]
    && forall r :: LevelWith(records, r, BY_NUMBER) == LevelWith(Parsed(lines), r, BY_NUMBER)
  }

  /** A step that may come after these ones. An answer that the user has abandoned is followed by the
      cancellation; otherwise what the interface is told is what the server has just answered, at that
      point of the transcript. */
  ghost predicate MayFollow(world: World, steps: seq<Step>, next: Step) {
    (AbandonedAt(world, steps) ==> next.Tells? && next.event.Cancelled?) && Permitted(world, steps, next)
  }

  ghost predicate Permitted(world: World, steps: seq<Step>, next: Step) {
    var n := |steps| - 1;
    match next
    case Says(command) => Live(steps) <==> command != Connect
    case Tells(event) =>
      match event
      case Connected => steps != [] && steps[n] == Says(Connect) && world.connect(n)
      case GroupOpened(summary) =>
        steps != [] && steps[n].Says? && steps[n].command.Group? && world.select(n, steps[n].command.name) == Ok(summary)
      case OverviewChunk(_, _, records, skipped) =>
        && steps != [] && steps[n].Says? && steps[n].command.Over?
        && var lines := world.over(n, steps[n].command.range);
        && lines.Ok? && ReadFrom(lines.value, records, skipped)
        && forall i, j :: 0 <= i < j < |records| ==> records[i].number <= records[j].number
      case GotArticle(text) =>
        steps != [] && steps[n].Says? && steps[n].command.Article? && world.article(n, steps[n].command.spec) == Ok(text)
      case Posted(text) =>
        steps != [] && steps[n].Says? && steps[n].command.PostArticle? && world.post(n, steps[n].command.draft) == Ok(text)
      case Failed(about, error) => !error.Abandoned? && (Blamed(world, steps, error) || Unselected(about, error))
      case Cancelled(_) => AbandonedAt(world, steps)
      case Disconnected =>
        steps != [] && steps[n].Tells? && steps[n].event.Failed? && IsConnectionFatal(steps[n].event.error)
      case _ => true
  }

  /** No command goes out without a connection and none is opened beside another; what is reported is
      what was answered, records in order of article number, and a failure is the fault in the answer
      to the last command; the interface is told the connection is
      lost only after the failure that lost it. */
  ghost predicate Orderly(world: World, steps: seq<Step>) {
    forall k :: 0 <= k < |steps| ==> MayFollow(world, steps[..k], steps[k])
  }

  /** Events that may come at any time. */
  predicate Free(event: Event) {
    event.Progress? || event.Groups? || event.OverviewComplete? || event.Stopped?
  }

  /** Which steps may come when. */
  lemma PlainSteps(world: World, steps: seq<Step>)
    requires !AbandonedAt(world, steps)
    ensures forall command: Command :: MayFollow(world, steps, Says(command)) <==> (Live(steps) <==> command != Connect)
    ensures forall event: Event :: Free(event) ==> MayFollow(world, steps, Tells(event))
  {
  }

  lemma OrderlyStep(world: World, steps: seq<Step>, next: Step)
    requires Orderly(world, steps) && MayFollow(world, steps, next)
    ensures Orderly(world, steps + [next])
  {
    hide MayFollow;
    var longer := steps + [next];
    forall k | 0 <= k < |longer| ensures MayFollow(world, longer[..k], longer[k]) {
      assert k < |steps| ==> longer[..k] == steps[..k];
      assert k == |steps| ==> longer[..k] == steps;
    }
  }

  lemma StepRead(steps: seq<Step>, next: Step)
    ensures Terminals(steps + [next]) == Terminals(steps) + if next.Tells? && Terminal(next.event) then [next.event] else []
    ensures Asked(steps + [next]) == Asked(steps) + if next.Says? && next.command.Over? then [next.command.range] else []
    ensures Delivered(steps + [next]) ==
            Delivered(steps) + if next.Tells? && next.event.OverviewChunk? then [(next.event.group, next.event.token)] else []
    ensures Live(steps + [next]) <==>
              || next == Tells(Connected)
              || (Live(steps) && next != Says(Quit) && !(next.Tells? && (next.event.Cancelled? || next.event.Disconnected?)))
  {
  }

  lemma FlagStep(world: World, steps: seq<Step>, next: Step)
    ensures Starts(steps + [next]) <==> next.Tells? && (Terminal(next.event) || next.event.Disconnected?)
    ensures FlagUp(world, steps + [next]) <==>
              !Starts(steps + [next]) && (FlagNext(world, steps) || (next.Says? && world.raised(|steps|)))
    ensures next.Tells? ==> !AbandonedAt(world, steps + [next])
    ensures next.Says? && next.command !in {Connect, Quit} ==>
              (AbandonedAt(world, steps + [next]) <==> FlagUp(world, steps + [next]) && world.noticed(|steps|))
    ensures next == Says(Connect) || next == Says(Quit) ==> !AbandonedAt(world, steps + [next])
  {
    hide Terminal;
    assert (steps + [next])[..|steps|] == steps;
  }

  /** Between requests nothing is abandoned, and the flag is up for the next if the user has raised it. */
  lemma FlagBetween(world: World, steps: seq<Step>)
    ensures Starts([]) && !FlagUp(world, [])
    ensures Starts(steps) && !FlagUp(world, steps) ==>
              !AbandonedAt(world, steps) && (FlagNext(world, steps) <==> world.raised(|steps|))
  {
  }

  lemma FlagNow(world: World, steps: seq<Step>, next: Step)
    ensures FlagNext(world, steps + [next]) <==>
              FlagUp(world, steps + [next]) || (Starts(steps + [next]) && world.raised(|steps| + 1))
  {
  }

  lemma SelectionStep(world: World, steps: seq<Step>, next: Step)
    ensures SelectedIn(world, steps + [next]) ==
              if next == Tells(Connected) then None
              else if next.Says? then SelectedBy(world, |steps|, next.command, SelectedIn(world, steps))
              else SelectedIn(world, steps)
  {
    assert (steps + [next])[..|steps|] == steps;
  }

  /** Steps that ask for no part of an overview. */
  lemma {:induction false} NoneAsked(before: seq<Step>, after: seq<Step>)
    requires before <= after && Asked(after) == Asked(before)
    ensures forall n :: |before| <= n < |after| ==> !(after[n].Says? && after[n].command.Over?)
    decreases |after|
  {
    if before < after {
      var shorter := after[..|after| - 1];
      AskedGrows(before, shorter);
      StepRead(shorter, after[|after| - 1]);
      assert after == shorter + [after[|after| - 1]];
      NoneAsked(before, shorter);
    } else {
      assert before == after;
    }
  }

  lemma {:induction false} AskedGrows(before: seq<Step>, after: seq<Step>)
    requires before <= after
    ensures Asked(before) <= Asked(after)
    decreases |after|
  {
    if before < after {
      AskedGrows(before, after[..|after| - 1]);
    } else {
      assert before == after;
    }
  }

  lemma AskedJoin(world: World, group: Option<string>, before: seq<Step>, between: seq<Step>, after: seq<Step>)
    requires before <= between <= after && AskedOn(world, group, before, between) && AskedOn(world, group, between, after)
    ensures AskedOn(world, group, before, after)
  {
    hide SelectedIn;
    forall n | |before| <= n < |after| && after[n].Says? && after[n].command.Over?
      ensures SelectedIn(world, after[..n]) == group
    {
      if n < |between| {
        assert between[n] == after[n] && between[..n] == after[..n];
      }
    }
  }

  lemma AskedNothing(world: World, group: Option<string>, before: seq<Step>, after: seq<Step>)
    requires before <= after && Asked(after) == Asked(before)
    ensures AskedOn(world, group, before, after)
  {
    NoneAsked(before, after);
  }

  /** Steps that ask for nothing may come before and after. */
  lemma AskedBetween(world: World, group: Option<string>, first: seq<Step>, before: seq<Step>, after: seq<Step>, last: seq<Step>)
    requires first <= before <= after <= last && AskedOn(world, group, before, after)
    requires Asked(before) == Asked(first) && Asked(last) == Asked(after)
    ensures AskedOn(world, group, first, last)
  {
    hide SelectedIn, AskedOn, Asked;
    AskedNothing(world, group, first, before);
    AskedNothing(world, group, after, last);
    AskedJoin(world, group, first, before, after);
    AskedJoin(world, group, first, after, last);
  }

  lemma AskedOnce(world: World, group: Option<string>, steps: seq<Step>, command: Command)
    requires SelectedIn(world, steps) == group
    ensures AskedOn(world, group, steps, steps + [Says(command)])
  {
    hide SelectedIn;
    assert (steps + [Says(command)])[..|steps|] == steps;
  }

  // ----- answers -----

  /** An event that ends this request. */
  predicate Answers(request: Request, e: Event) {
    || (e.Failed? && e.about == request)
    || (e.Cancelled? && e.about == request)
    || Succeeds(request, e)
  }

  predicate Succeeds(request: Request, e: Event) {
    match request
    case LoadGroups(patterns) => e.Groups? && e.scope == patterns
    case OpenGroup(group, _, token) => e == OverviewComplete(group, token)
    case LoadOverview(group, _, token) => e == OverviewComplete(group, token)
    case LoadArticle(_, _) => e.GotArticle?
    case Post(_) => e.Posted?
    case Shutdown => false
  }

  function Reversed<T>(s: seq<T>): (r: seq<T>)
    ensures |r| == |s| && forall k :: 0 <= k < |s| ==> r[k] == s[|s| - 1 - k]
  {
    seq(|s|, k requires 0 <= k < |s| => s[|s| - 1 - k])
  }

  // ----- the worker -----

  /** The client's side of a connection: the group the server says is selected, and whether the
      overview layout is known. */
  datatype Client = Client(selected: Option<string>, knowsFormat: bool)

  ghost predicate RaisedIn(world: World, from: nat, to: nat) {
    exists n: nat :: from <= n < to && world.raised(n)
  }

  /** More steps, none of which ends a request or asks for part of an overview. */
  ghost predicate Quiet(before: seq<Step>, after: seq<Step>) {
    && before <= after
    && Terminals(after) == Terminals(before)
    && Asked(after) == Asked(before)
    && Delivered(after) == Delivered(before)
  }

  /** More steps, of which only the last ends a request. */
  ghost predicate EndedBy(before: seq<Step>, after: seq<Step>, e: Event) {
    && before < after
    && Terminals(after) == Terminals(before) + [e]
    && after[|after| - 1] == Tells(e)
  }

  function Lift<T>(abandoned: bool, r: Result<T, Fault>): Result<T, Error> {
    if abandoned then Err(Abandoned)
    else
      match r
      case Ok(value) => Ok(value)
      case Err(fault) => Err(Fault(fault))
  }

  function ErrorIn<T>(r: Result<T, Error>): Option<Error> {
    match r
    case Ok(_) => None
    case Err(error) => Some(error)
  }

  // ----- groups -----

  function EntriesOf(rows: seq<Row>): (entries: seq<Entry>)
    ensures |entries| == |rows| && forall k :: 0 <= k < |rows| ==> entries[k] == rows[k].entry
  {
    seq(|rows|, k requires 0 <= k < |rows| => rows[k].entry)
  }

  function MakeRows(entries: seq<Entry>, descriptions: map<string, string>): (rows: seq<Row>)
    ensures EntriesOf(rows) == entries
  {
    seq(|entries|, k requires 0 <= k < |entries| =>
      Row(entries[k], if entries[k].name in descriptions then Some(descriptions[entries[k].name]) else None))
  }

  /** Every `LIST` the server does not refuse is answered from one catalogue. */
  ghost predicate HonestLists(world: World, catalogue: seq<Entry>) {
    forall n, pattern :: world.list(n, pattern).Ok? ==> world.list(n, pattern).value == Served(catalogue, pattern)
  }

  /** Some `LIST` commands: where in the transcript each was said, and its pattern. */
  type Questions = seq<(nat, Option<Wildmat>)>

  /** Asks which groups there are, or for their descriptions. */
  function Question(describe: bool, pattern: Option<Wildmat>): Command {
    if describe then ListNewsgroups(pattern) else ListActive(pattern)
  }

  function PatternsOf(questions: Questions): (patterns: seq<Option<Wildmat>>)
    ensures |patterns| == |questions| && forall k :: 0 <= k < |questions| ==> patterns[k] == questions[k].1
  {
    seq(|questions|, k requires 0 <= k < |questions| => questions[k].1)
  }

  /** These questions were put in these places, from `start` on and in this order. */
  ghost predicate PutAt(steps: seq<Step>, start: nat, describe: bool, questions: Questions) {
    && (forall k :: 0 <= k < |questions| ==>
          start <= questions[k].0 < |steps| && steps[questions[k].0] == Says(Question(describe, questions[k].1)))
    && forall i, j :: 0 <= i < j < |questions| ==> questions[i].0 < questions[j].0
  }

  /** The descriptions in the answers, later answers win; a refusal adds nothing. */
  function Described(world: World, questions: Questions): map<string, string> {
    if questions == [] then map[]
    else
      var (n, pattern) := questions[|questions| - 1];
      var before := Described(world, questions[..|questions| - 1]);
      match world.describe(n, pattern)
      case Ok(found) => before + found
      case Err(_) => before
  }

  /** The groups in the answers, one answer after another, if none is a refusal. */
  function Answered(world: World, questions: Questions): Option<seq<Entry>> {
    if questions == [] then Some([])
    else
      var (n, pattern) := questions[|questions| - 1];
      var before := Answered(world, questions[..|questions| - 1]);
      if before.None? || world.list(n, pattern).Err? then None
      else Some(before.value + world.list(n, pattern).value)
  }

  /** The server refused the pattern of a batch here, and the connection goes on. */
  ghost predicate RefusedAt(world: World, steps: seq<Step>, n: nat, batches: seq<Option<Wildmat>>) {
    && n < |steps| && steps[n].Says? && steps[n].command.ListActive?
    && var pattern := steps[n].command.pattern;
    && pattern.Some? && pattern in batches
    && world.list(n, pattern).Err? && !IsConnectionFatal(Fault(world.list(n, pattern).error))
  }

  /** The groups are those in the answers to one question a batch; or, after the server has refused a
      batch, those of its whole catalogue that pass the filter here. */
  ghost predicate ActiveFrom(world: World, patterns: seq<Wildmat>, batches: seq<Option<Wildmat>>, questions: Questions,
                             active: seq<Entry>, filteredLocally: bool, start: nat, steps: seq<Step>)
  {
    && PutAt(steps, start, false, questions) && Answered(world, questions).Some?
    && var found := Answered(world, questions).value;
    if filteredLocally then
      && PatternsOf(questions) == [None] && active == Subscribed(found, patterns)
      && exists n: nat :: start <= n < questions[0].0 && RefusedAt(world, steps, n, batches)
    else PatternsOf(questions) == batches && active == found
  }

  ghost predicate BatchesFor(patterns: seq<Wildmat>, batches: seq<Option<Wildmat>>) {
    if patterns == [] then batches == [None] else Batches(patterns, BatchCuts(patterns), batches)
  }

  /** The rows are what the answers to this request's own questions make: the groups found, listed, each
      with its description; one description question a batch, or one for everything. */
  ghost predicate RowsFrom(world: World, patterns: seq<Wildmat>, batches: seq<Option<Wildmat>>, listed: Questions,
                           described: Questions, rows: seq<Row>, filteredLocally: bool, start: nat, steps: seq<Step>)
  {
    && BatchesFor(patterns, batches)
    && PutAt(steps, start, true, described) && PatternsOf(described) == (if filteredLocally then [None] else batches)
    && (exists active :: ActiveFrom(world, patterns, batches, listed, active, filteredLocally, start, steps)
                         && EntriesOf(rows) == Listing(active))
    && forall k :: 0 <= k < |rows| ==> DescribedAs(world, described, rows[k].entry.name, rows[k].description)
  }

  /** What the answers say of a group: what the last one that describes it says, or nothing. */
  ghost predicate DescribedAs(world: World, questions: Questions, name: string, description: Option<string>) {
    match description
    case None => forall k :: 0 <= k < |questions| ==> !Describes(world, questions[k], name)
    case Some(text) =>
      exists k :: 0 <= k < |questions| && Describes(world, questions[k], name)
                  && world.describe(questions[k].0, questions[k].1).value[name] == text
                  && forall later :: k < later < |questions| ==> !Describes(world, questions[later], name)
  }

  ghost predicate Describes(world: World, question: (nat, Option<Wildmat>), name: string) {
    world.describe(question.0, question.1).Ok? && name in world.describe(question.0, question.1).value
  }

  lemma {:induction false} DescribedIs(world: World, questions: Questions, name: string)
    ensures var found := Described(world, questions);
            DescribedAs(world, questions, name, if name in found then Some(found[name]) else None)
    decreases |questions|
  {
    if questions != [] {
      var n := |questions| - 1;
      var before := questions[..n];
      DescribedIs(world, before, name);
      assert questions == before + [(questions[n].0, questions[n].1)];
      DescribedMore(world, before, questions[n].0, questions[n].1);
      hide Described;
      if !Describes(world, questions[n], name) && name in Described(world, before) {
        var k :| 0 <= k < n && Describes(world, before[k], name)
                 && world.describe(before[k].0, before[k].1).value[name] == Described(world, before)[name]
                 && forall later :: k < later < n ==> !Describes(world, before[later], name);
        assert before[k] == questions[k];
        assert forall later :: k < later < n ==> before[later] == questions[later];
      }
    }
  }

  ghost predicate GroupsAnswered(world: World, patterns: seq<Wildmat>, rows: seq<Row>, filteredLocally: bool,
                                 start: nat, steps: seq<Step>)
  {
    exists batches, listed, described ::
      RowsFrom(world, patterns, batches, listed, described, rows, filteredLocally, start, steps)
  }

  lemma PutStays(steps: seq<Step>, longer: seq<Step>, start: nat, earlier: nat, describe: bool, questions: Questions)
    requires PutAt(steps, start, describe, questions) && steps <= longer && earlier <= start
    ensures PutAt(longer, earlier, describe, questions)
  {
  }

  lemma PutMore(steps: seq<Step>, start: nat, describe: bool, questions: Questions, pattern: Option<Wildmat>)
    requires PutAt(steps, start, describe, questions) && start <= |steps|
    ensures PutAt(steps + [Says(Question(describe, pattern))], start, describe, questions + [(|steps|, pattern)])
    ensures PatternsOf(questions + [(|steps|, pattern)]) == PatternsOf(questions) + [pattern]
  {
  }

  lemma PutNext(before: seq<Step>, steps: seq<Step>, start: nat, describe: bool, questions: Questions, pattern: Option<Wildmat>)
    requires PutAt(before, start, describe, questions) && start <= |before| && before < steps
    requires steps[|steps| - 1] == Says(Question(describe, pattern))
    ensures PutAt(steps, start, describe, questions + [(|steps| - 1, pattern)])
    ensures PatternsOf(questions + [(|steps| - 1, pattern)]) == PatternsOf(questions) + [pattern]
  {
    var shorter := steps[..|steps| - 1];
    PutStays(before, shorter, start, start, describe, questions);
    PutMore(shorter, start, describe, questions, pattern);
    assert steps == shorter + [Says(Question(describe, pattern))];
  }

  lemma DescribedMore(world: World, questions: Questions, n: nat, pattern: Option<Wildmat>)
    ensures Described(world, questions + [(n, pattern)]) ==
            if world.describe(n, pattern).Ok? then Described(world, questions) + world.describe(n, pattern).value
            else Described(world, questions)
  {
    assert (questions + [(n, pattern)])[..|questions|] == questions;
  }

  lemma AnsweredMore(world: World, questions: Questions, n: nat, pattern: Option<Wildmat>)
    requires Answered(world, questions).Some? && world.list(n, pattern).Ok?
    ensures Answered(world, questions + [(n, pattern)]) ==
            Some(Answered(world, questions).value + world.list(n, pattern).value)
  {
    assert (questions + [(n, pattern)])[..|questions|] == questions;
  }

  lemma ActiveStays(world: World, patterns: seq<Wildmat>, batches: seq<Option<Wildmat>>, questions: Questions,
                    active: seq<Entry>, filteredLocally: bool, start: nat, steps: seq<Step>, earlier: nat, longer: seq<Step>)
    requires ActiveFrom(world, patterns, batches, questions, active, filteredLocally, start, steps)
    requires steps <= longer && earlier <= start
    ensures ActiveFrom(world, patterns, batches, questions, active, filteredLocally, earlier, longer)
  {
    hide PutAt, Answered, Subscribed, RefusedAt;
    PutStays(steps, longer, start, earlier, false, questions);
    if filteredLocally {
      var n: nat :| start <= n < questions[0].0 && RefusedAt(world, steps, n, batches);
      RefusedStays(world, steps, longer, n, batches);
    }
  }

  lemma RefusedStays(world: World, steps: seq<Step>, longer: seq<Step>, n: nat, batches: seq<Option<Wildmat>>)
    requires RefusedAt(world, steps, n, batches) && steps <= longer
    ensures RefusedAt(world, longer, n, batches)
  {
    hide IsConnectionFatal;
    assert steps[n] == longer[n];
  }

  /** From a server that answers out of one catalogue, the batches fetch what they ask of it. */
  lemma {:induction false} HonestAnswers(world: World, catalogue: seq<Entry>, questions: Questions, batches: seq<Option<Wildmat>>)
    requires HonestLists(world, catalogue) && Answered(world, questions).Some? && PatternsOf(questions) == batches
    ensures Answered(world, questions) == Some(Fetched(catalogue, batches, |batches|))
    decreases |questions|
  {
    hide Served;
    if questions != [] {
      var n := |questions| - 1;
      assert PatternsOf(questions[..n]) == batches[..n];
      HonestAnswers(world, catalogue, questions[..n], batches[..n]);
      FetchedPrefix(catalogue, batches, n, n);
      assert batches[n] == questions[n].1;
    }
  }

  lemma {:induction false} FetchedPrefix(catalogue: seq<Entry>, batches: seq<Option<Wildmat>>, m: nat, n: nat)
    requires n <= m <= |batches|
    ensures Fetched(catalogue, batches[..m], n) == Fetched(catalogue, batches, n)
    decreases n
  {
    hide Served;
    if n > 0 {
      FetchedPrefix(catalogue, batches, m, n - 1);
    }
  }

  function Tagged(group: string, token: Token, n: nat): (tags: seq<(string, Token)>)
    ensures |tags| == n && forall k :: 0 <= k < n ==> tags[k] == (group, token)
  {
    seq(n, _ => (group, token))
  }

  /** The chunks of a range were asked for, newest first, and each was delivered under the group and
      the token of the request. */
  ghost predicate Overviewed(group: string, token: Token, range: R.Range, chunk: u64, before: seq<Step>, after: seq<Step>) {
    exists parts :: R.Split(range, chunk, parts) && Asked(after) == Asked(before) + Reversed(parts)
                    && Delivered(after) == Delivered(before) + Tagged(group, token, |parts|)
  }

  // ----- records -----

  function Parsed(lines: seq<Option<NumberedRecord>>): (records: seq<NumberedRecord>)
    ensures |records| <= |lines|
  {
    if lines == [] then []
    else Parsed(lines[..|lines| - 1]) + if lines[|lines| - 1].Some? then [lines[|lines| - 1].value] else []
  }

  /** Reading lines is reading them one by one: a record for a readable line, nothing for another. */
  lemma {:induction false} ParsedConcat(a: seq<Option<NumberedRecord>>, b: seq<Option<NumberedRecord>>)
    ensures Parsed(a + b) == Parsed(a) + Parsed(b)
    ensures forall r :: Parsed([Some(r)]) == [r]
    ensures Parsed([None]) == [] && Parsed([]) == []
    decreases |b|
  {
    assert forall line: Option<NumberedRecord> :: [line][..0] == [];
    if b == [] {
      assert a + b == a;
    } else {
      var n := |b| - 1;
      ParsedConcat(a, b[..n]);
      assert (a + b)[..|a| + n] == a + b[..n];
    }
  }

  lemma OneMoreCount<T>(s: seq<T>, x: T, y: T)
    ensures multiset(s + [x])[y] == multiset(s)[y] + if x == y then 1 else 0
  {
  }

  /** Every readable line is parsed, as often as it came, and no other. */
  lemma {:induction false} ParsedCount(lines: seq<Option<NumberedRecord>>, r: NumberedRecord)
    ensures multiset(Parsed(lines))[r] == multiset(lines)[Some(r)]
    ensures |Parsed(lines)| + multiset(lines)[None] == |lines|
    decreases |lines|
  {
    hide Parsed;
    ParsedConcat([], []);
    if lines == [] {
      assert Parsed(lines) == [];
    } else {
      var n := |lines| - 1;
      var front, last := lines[..n], lines[n];
      ParsedCount(front, r);
      assert lines == front + [last];
      ParsedConcat(front, [last]);
      OneMoreCount(front, last, Some(r));
      OneMoreCount(front, last, None);
      if last.Some? {
        OneMoreCount(Parsed(front), last.value, r);
      } else {
        assert Parsed(front) + [] == Parsed(front);
      }
    }
  }

  const BY_NUMBER: (NumberedRecord, NumberedRecord) -> bool := (a: NumberedRecord, b: NumberedRecord) => a.number <= b.number

  // ----- the newest articles -----

  predicate IsEmpty(s: Summary) {
    s.estimated == 0 || s.high == 0 || s.low > s.high
  }

  /** The first of the newest `count` numbers of a group; a count of zero still asks for one. */
  function FirstOfNewest(s: Summary, count: u64): (first: u64)
    requires !IsEmpty(s)
    ensures s.low <= first <= s.high
    ensures s.high - first < Max(count, 1)
    ensures first == s.low || s.high - first == Max(count, 1) - 1
  {
    Max(SaturatingSub(s.high, SaturatingSub(count, 1)), s.low)
  }

  /** What an open group's overview covers: nothing for an empty group, else its newest articles. */
  ghost predicate NewestOverviewed(s: Summary, group: string, count: u64, token: Token, chunk: u64,
                                   before: seq<Step>, after: seq<Step>) {
    if s.estimated == 0 || s.high == 0 || s.low > s.high then
      Asked(after) == Asked(before) && Delivered(after) == Delivered(before)
    else Overviewed(group, token, R.Between(FirstOfNewest(s, count), s.high), chunk, before, after)
  }

  /** The group was asked for at `n`, and what the server said of it was reported right after. */
  ghost predicate Opened(world: World, group: string, s: Summary, n: nat, start: nat, steps: seq<Step>) {
    && start <= n && n + 1 < |steps|
    && steps[n] == Says(Group(group)) && world.select(n, group) == Ok(s) && steps[n + 1] == Tells(GroupOpened(s))
  }

  /** What it takes for a request to succeed. */
  ghost predicate Fulfilled(world: World, request: Request, chunk: u64, before: seq<Step>, after: seq<Step>) {
    match request
    case OpenGroup(group, count, token) =>
      before <= after &&
      exists n: nat, s ::
        Opened(world, group, s, n, |before|, after) && NewestOverviewed(s, group, count, token, chunk, before, after)
    case LoadOverview(group, range, token) => Overviewed(group, token, range, chunk, before, after)
    case LoadArticle(inGroup, spec) =>
      && |after| >= 2 && after[|after| - 2] == Says(Article(spec)) && NoOverview(before, after)
      && ArticleSelected(inGroup, spec, SelectedIn(world, after[..|after| - 2]), world)
    case Post(draft) => |after| >= 2 && after[|after| - 2] == Says(PostArticle(draft)) && NoOverview(before, after)
    case _ => NoOverview(before, after)
  }

  /** The group an article was asked for in is the one selected, and some group is if the article is asked
      for by number or as the current one. */
  ghost predicate ArticleSelected(inGroup: Option<string>, spec: Spec, selected: Option<string>, world: World) {
    && (!spec.ById? ==> selected.Some?)
    && (inGroup.Some? && HonestNames(world) ==> selected == inGroup)
  }

  /** Parts of an overview are asked for only by a request for one, and with its group selected. */
  ghost predicate AskedInGroup(world: World, request: Request, before: seq<Step>, after: seq<Step>) {
    match request
    case OpenGroup(group, _, _) => AskedOn(world, Some(group), before, after)
    case LoadOverview(group, _, _) => AskedOn(world, Some(group), before, after)
    case _ => Asked(after) == Asked(before)
  }

  lemma AskedInGroupStays(world: World, request: Request, before: seq<Step>, between: seq<Step>, after: seq<Step>)
    requires before <= between <= after && AskedInGroup(world, request, before, between) && Asked(after) == Asked(between)
    ensures AskedInGroup(world, request, before, after)
  {
    hide AskedOn, Asked;
    if request.OpenGroup? || request.LoadOverview? {
      AskedBetween(world, Some(request.group), before, before, between, after);
    }
  }

  ghost predicate NoOverview(before: seq<Step>, after: seq<Step>) {
    Asked(after) == Asked(before) && Delivered(after) == Delivered(before)
  }

  /** The event was the last thing said, unless it reported the loss of the connection: then the
      interface has been told of that too. */
  predicate Closing(steps: seq<Step>, e: Event) {
    if e.Failed? && IsConnectionFatal(e.error) then
      |steps| >= 2 && steps[|steps| - 2] == Tells(e) && steps[|steps| - 1] == Tells(Disconnected)
    else steps != [] && steps[|steps| - 1] == Tells(e)
  }

  /** Groups are listed by name, each once, out of the answers the server gave. With a server that answers
      from one catalogue they are those that filtering here keeps, or those that some batch asks for; the
      two are the same groups exactly when every group some pattern chooses is asked for by some batch. */
  ghost predicate GroupsListed(world: World, catalogue: seq<Entry>, request: Request, e: Event,
                               before: seq<Step>, after: seq<Step>)
  {
    request.LoadGroups? && e.Groups? ==>
      && GroupsAnswered(world, request.patterns, e.rows, e.filteredLocally, |before|, after)
      && StrictlyByName(EntriesOf(e.rows))
      && (HonestLists(world, catalogue) ==> ListedAsAsked(catalogue, request.patterns, EntriesOf(e.rows), e.filteredLocally))
  }

  ghost predicate ListedAsAsked(catalogue: seq<Entry>, patterns: seq<Wildmat>, listed: seq<Entry>, filteredLocally: bool) {
    var cuts := BatchCuts(patterns);
    if filteredLocally then listed == Listing(Subscribed(catalogue, patterns))
    else
      && listed == Listing(BatchSubscribed(catalogue, patterns, cuts))
      && (listed == Listing(Subscribed(catalogue, patterns)) <==>
            forall entry :: entry in catalogue && Wanted(patterns, entry.name) ==> AskedFor(patterns, cuts, entry.name))
  }

  /** A request that was handled: exactly one event ended it, of the right kind and naming it. It
      succeeded only by doing what it asks for, asked for parts of an overview only with its group selected,
      and was cancelled only if the user raised the flag while it was waiting or running. */
  ghost predicate Handled(world: World, catalogue: seq<Entry>, request: Request, e: Event, chunk: u64,
                          before: seq<Step>, after: seq<Step>)
  {
    && before < after
    && Terminals(after) == Terminals(before) + [e]
    && Answers(request, e)
    && Closing(after, e)
    && (Succeeds(request, e) ==> Fulfilled(world, request, chunk, before, after))
    && (HonestNames(world) ==> AskedInGroup(world, request, before, after))
    && (e.Cancelled? ==> RaisedIn(world, |before|, |after|))
    && GroupsListed(world, catalogue, request, e, before, after)
  }

  /** The connection is lost by a cancellation and by a fatal error, and by nothing else. */
  predicate Loses(e: Event) {
    e.Cancelled? || (e.Failed? && IsConnectionFatal(e.error))
  }

  predicate WellFormed(request: Request) {
    request.LoadGroups? ==> forall k :: 0 <= k < |request.patterns| ==> Sendable(request.patterns[k].text)
  }

  /** How many requests come before the first shutdown. */
  function BeforeShutdown(requests: seq<Request>): (n: nat)
    ensures n <= |requests| && (n < |requests| ==> requests[n].Shutdown?)
    ensures forall k :: 0 <= k < n ==> !requests[k].Shutdown?
  {
    if requests == [] || requests[0].Shutdown? then 0 else 1 + BeforeShutdown(requests[1..])
  }

  class Worker {
    const world: World
    const chunk: u64
    var client: Option<Client>
    var cancel: bool
    var transcript: seq<Step>

    ghost predicate Valid()
      reads this
    {
      && chunk >= 1
      && Orderly(world, transcript)
      && (client.Some? <==> Live(transcript))
      && Tells(Stopped) !in transcript
    }

    /** The group the client takes to be selected is the one the server last said it had selected. */
    ghost predicate Knows()
      reads this
    {
      client.Some? ==> client.value.selected == SelectedIn(world, transcript)
    }

    /** The cancel flag is up exactly when the transcript says so. */
    ghost predicate Flagged()
      reads this
    {
      cancel <==> FlagNext(world, transcript)
    }

    /** In the middle of a request, with nothing abandoned. */
    ghost predicate Ready()
      reads this
    {
      Valid() && Knows() && Flagged() && !AbandonedAt(world, transcript)
    }

    /** Between two requests, or before the first. */
    ghost predicate Idle()
      reads this
    {
      Valid() && Knows() && Starts(transcript) && !FlagUp(world, transcript)
    }

    /** How a part of a request leaves things. */
    ghost predicate Leaves(error: Option<Error>)
      reads this
    {
      if error == Some(Abandoned) then Valid() && cancel && AbandonedAt(world, transcript) else Ready()
    }

    /** How the whole of one does. */
    ghost predicate Ends(error: Option<Error>)
      reads this
    {
      if error.None? then Idle() else Leaves(error)
    }

    /** The transcript has only grown, and the cancel flag is up only if it was, or was raised since. */
    ghost predicate Since(before: seq<Step>, wasCancelled: bool)
      reads this
    {
      && before <= transcript
      && (cancel ==> wasCancelled || RaisedIn(world, |before|, |transcript|))
    }

    constructor (world: World, overviewChunk: u64)
      ensures Valid() && transcript == [] && client.None? && !cancel
      ensures this.world == world && chunk == Max(overviewChunk, 1)
    {
      this.world := world;
      chunk := Max(overviewChunk, 1);
      client := None;
      cancel := false;
      transcript := [];
    }

    /** Adds a step, with what it does to the connection. */
    method Add(step: Step, after: Option<Client>)
      requires Valid() && MayFollow(world, transcript, step) && step != Tells(Stopped)
      requires after.Some? <==> Live(transcript + [step])
      modifies this`transcript, this`client
      ensures Valid() && client == after && transcript == old(transcript) + [step]
    {
      hide MayFollow, Live, Orderly, Starts, FlagUp, FlagNext, AbandonedAt;
      OrderlyStep(world, transcript, step);
      transcript := transcript + [step];
      client := after;
    }

    /** Sends an event that leaves the connection as it is. */
    method Send(event: Event)
      requires Valid() && MayFollow(world, transcript, Tells(event))
      requires !(event.Connected? || event.Cancelled? || event.Disconnected? || event.Stopped?)
      modifies this`transcript, this`client
      ensures Valid() && client == old(client) && transcript == old(transcript) + [Tells(event)]
      ensures Terminals(transcript) == Terminals(old(transcript)) + if Terminal(event) then [event] else []
      ensures Asked(transcript) == Asked(old(transcript))
      ensures if Terminal(event) then Starts(transcript) && !FlagUp(world, transcript)
              else FlagNext(world, transcript) <==> FlagNext(world, old(transcript))
      ensures !AbandonedAt(world, transcript)
      ensures SelectedIn(world, transcript) == SelectedIn(world, old(transcript))
      ensures Delivered(transcript) ==
                Delivered(old(transcript)) + if event.OverviewChunk? then [(event.group, event.token)] else []
    {
      hide Terminal, Terminals, Asked, Delivered, Live, MayFollow, Orderly, SelectedIn, Starts, FlagUp, FlagNext,
        AbandonedAt;
      SelectionStep(world, transcript, Tells(event));
      FlagStep(world, transcript, Tells(event));
      FlagNow(world, transcript, Tells(event));
      StepRead(transcript, Tells(event));
      Add(Tells(event), client);
    }

    /** Sends a command, and sees whether the user has abandoned the response. */
    method Say(command: Command) returns (abandoned: bool)
      requires Ready() && client.Some? && command != Connect && command != Quit
      modifies this
      ensures Valid() && client == old(client) && transcript == old(transcript) + [Says(command)]
      ensures Since(old(transcript), old(cancel)) && abandoned == (cancel && world.noticed(|old(transcript)|))
      ensures Flagged() && (AbandonedAt(world, transcript) <==> abandoned)
      ensures Terminals(transcript) == Terminals(old(transcript)) && Delivered(transcript) == Delivered(old(transcript))
      ensures SelectedIn(world, transcript) == SelectedBy(world, |old(transcript)|, command, SelectedIn(world, old(transcript)))
      ensures Asked(transcript) == Asked(old(transcript)) + if command.Over? then [command.range] else []
    {
      hide Terminal, Terminals, Asked, Delivered, Live, Orderly, MayFollow, SelectedIn, SelectedBy, Starts, FlagUp,
        FlagNext, AbandonedAt;
      SelectionStep(world, transcript, Says(command));
      PlainSteps(world, transcript);
      var n := |transcript|;
      if world.raised(n) {
        cancel := true;
      }
      FlagStep(world, transcript, Says(command));
      FlagNow(world, transcript, Says(command));
      StepRead(transcript, Says(command));
      Add(Says(command), client);
      abandoned := cancel && world.noticed(n);
    }

    method Dial() returns (connected: bool)
      requires Ready() && client.None?
      modifies this
      ensures Valid() && client == old(client) && transcript == old(transcript) + [Says(Connect)]
      ensures Since(old(transcript), old(cancel)) && Quiet(old(transcript), transcript)
      ensures Flagged() && !AbandonedAt(world, transcript)
      ensures connected == world.connect(|old(transcript)|)
    {
      hide Terminal, Terminals, Asked, Delivered, Live, Orderly, MayFollow, Starts, FlagUp, FlagNext, AbandonedAt;
      PlainSteps(world, transcript);
      var n := |transcript|;
      if world.raised(n) {
        cancel := true;
      }
      FlagStep(world, transcript, Says(Connect));
      FlagNow(world, transcript, Says(Connect));
      StepRead(transcript, Says(Connect));
      Add(Says(Connect), None);
      connected := world.connect(n);
    }

    method Attach()
      requires Valid() && client.None? && transcript != [] && Flagged()
      requires transcript[|transcript| - 1] == Says(Connect) && world.connect(|transcript| - 1)
      modifies this`transcript, this`client
      ensures Ready() && client.Some? && transcript == old(transcript) + [Tells(Connected)]
      ensures Quiet(old(transcript), transcript)
    {
      hide Terminals, Asked, Delivered, Live, Orderly, MayFollow, SelectedIn, Starts, FlagUp, FlagNext, AbandonedAt;
      SelectionStep(world, transcript, Tells(Connected));
      ConnectedFollows(world, transcript);
      FlagStep(world, transcript, Tells(Connected));
      FlagNow(world, transcript, Tells(Connected));
      StepRead(transcript, Tells(Connected));
      Add(Tells(Connected), Some(Client(None, false)));
    }

    /** Connects if there is no connection. */
    method EnsureClient() returns (error: Option<Error>)
      requires Ready()
      modifies this
      ensures Ready() && Since(old(transcript), old(cancel)) && Quiet(old(transcript), transcript)
      ensures error.None? <==> client.Some?
      ensures error.Some? ==> error.value == Fault(Tls) && Blamed(world, transcript, error.value)
      ensures old(client.Some?) ==> transcript == old(transcript) && client == old(client) && cancel == old(cancel)
    {
      hide Terminals, Asked, Delivered, Live, Orderly, MayFollow, SelectedIn, Starts, FlagUp, FlagNext, AbandonedAt;
      if client.Some? {
        return None;
      }
      PlainSteps(world, transcript);
      Send(Progress);
      var connected := Dial();
      if !connected {
        return Some(Fault(Tls));
      }
      Attach();
      return None;
    }

    // ----- groups -----

    method List(pattern: Option<Wildmat>) returns (r: Result<seq<Entry>, Error>)
      requires Ready() && client.Some?
      modifies this
      ensures Leaves(ErrorIn(r)) && client == old(client) && transcript == old(transcript) + [Says(ListActive(pattern))]
      ensures Since(old(transcript), old(cancel)) && Quiet(old(transcript), transcript)
      ensures r.Err? ==> Blamed(world, transcript, r.error)
      ensures r.Ok? ==> world.list(|old(transcript)|, pattern) == Ok(r.value)
      ensures r.Err? && r.error.Fault? ==> world.list(|old(transcript)|, pattern) == Err(r.error.fault)
    {
      hide Terminals, Asked, Delivered, Live, Orderly, MayFollow, SelectedIn, Starts, FlagUp, FlagNext, AbandonedAt;
      var at := |transcript|;
      var abandoned := Say(ListActive(pattern));
      r := Lift(abandoned, world.list(at, pattern));
    }

    /** Connects if need be, and lists. */
    method ListConnected(pattern: Option<Wildmat>) returns (r: Result<seq<Entry>, Error>)
      requires Ready()
      modifies this
      ensures Leaves(ErrorIn(r)) && (r.Ok? || !IsConnectionFatal(r.error) ==> client.Some?)
      ensures Since(old(transcript), old(cancel)) && Quiet(old(transcript), transcript)
      ensures old(transcript) <= transcript
      ensures r.Err? ==> Blamed(world, transcript, r.error)
      ensures r.Ok? || !IsConnectionFatal(r.error) ==>
                && old(transcript) < transcript && transcript[|transcript| - 1] == Says(ListActive(pattern))
                && world.list(|transcript| - 1, pattern) == if r.Ok? then Ok(r.value) else Err(r.error.fault)
    {
      hide Terminals, Asked, Delivered, Live, Orderly, MayFollow, SelectedIn, IsConnectionFatal, Starts, FlagUp,
        FlagNext, AbandonedAt;
      FatalFaults();
      var error := EnsureClient();
      if error.Some? {
        return Err(error.value);
      }
      r := List(pattern);
    }

    /** Fetches the whole catalogue and applies the patterns here. */
    method ListAllAndFilter(patterns: seq<Wildmat>) returns (r: Result<seq<Entry>, Error>, ghost n: nat)
      requires Ready()
      modifies this
      ensures Leaves(ErrorIn(r)) && (r.Ok? || !IsConnectionFatal(r.error) ==> client.Some?)
      ensures Since(old(transcript), old(cancel)) && Quiet(old(transcript), transcript)
      ensures r.Err? ==> Blamed(world, transcript, r.error)
      ensures r.Ok? ==>
                && |old(transcript)| <= n < |transcript| && transcript[n] == Says(ListActive(None))
                && world.list(n, None).Ok? && r.value == Subscribed(world.list(n, None).value, patterns)
    {
      hide Terminals, Asked, Delivered, Live, Orderly, MayFollow, Subscribed, Served, SelectedIn, IsConnectionFatal,
        Starts, FlagUp, FlagNext, AbandonedAt;
      PlainSteps(world, transcript);
      Send(Progress);
      n := |transcript|;
      var all := ListConnected(None);
      if all.Err? {
        return Err(all.error), n;
      }
      var kept := FilterHere(all.value, patterns);
      return Ok(kept), |transcript| - 1;
    }

    /** One `LIST` a batch; if the server refuses a pattern, everything is fetched and filtered here. */
    method FetchActive(patterns: seq<Wildmat>, batches: seq<Option<Wildmat>>)
      returns (error: Option<Error>, active: seq<Entry>, filteredLocally: bool, ghost asked: Questions)
      requires Ready() && batches != []
      modifies this
      ensures Leaves(error) && Since(old(transcript), old(cancel)) && Quiet(old(transcript), transcript)
      ensures error.Some? ==> Blamed(world, transcript, error.value)
      ensures error.None? || !IsConnectionFatal(error.value) ==> client.Some?
      ensures error.None? ==>
                ActiveFrom(world, patterns, batches, asked, active, filteredLocally, |old(transcript)|, transcript)
    {
      hide Terminals, Asked, Delivered, Live, Orderly, MayFollow, Subscribed, Served, IsConnectionFatal, SelectedIn,
        PutAt, Answered, ActiveFrom, Blamed, RefusedAt, Knows, Starts, FlagUp, FlagNext, AbandonedAt;
      FatalFaults();
      ghost var start := |transcript|;
      active, asked := [], [];
      filteredLocally := false;
      NothingPut(world, transcript, start);
      for k := 0 to |batches|
        invariant Ready() && Since(old(transcript), old(cancel)) && Quiet(old(transcript), transcript)
        invariant k > 0 ==> client.Some?
        invariant !filteredLocally
        invariant PutAt(transcript, start, false, asked) && PatternsOf(asked) == batches[..k]
        invariant Answered(world, asked) == Some(active)
      {
        ghost var before := transcript;
        var entries := ListConnected(batches[k]);
        if entries.Err? {
          if batches[k].Some? && !IsConnectionFatal(entries.error) && !entries.error.Abandoned? {
            ghost var refused := transcript;
            RefusedNow(world, refused, batches, k);
            var all;
            ghost var n;
            all, n := ListAllAndFilter(patterns);
            if all.Err? {
              return Some(all.error), [], true, [];
            }
            FilteredActive(world, patterns, batches, start, refused, n, transcript);
            return None, all.value, true, [(n, None)];
          }
          return Some(entries.error), [], false, [];
        }
        PutNext(before, transcript, start, false, asked, batches[k]);
        AnsweredMore(world, asked, |transcript| - 1, batches[k]);
        asked := asked + [(|transcript| - 1, batches[k])];
        active := active + entries.value;
        assert batches[..k + 1] == batches[..k] + [batches[k]];
      }
      assert batches[..|batches|] == batches;
      WholeActive(world, patterns, batches, asked, active, start, transcript);
      error := None;
    }

    /** Descriptions are optional, so a refusal is ignored; a lost connection is not. */
    method FetchDescriptions(batches: seq<Option<Wildmat>>)
      returns (error: Option<Error>, descriptions: map<string, string>, ghost asked: Questions)
      requires Ready() && client.Some?
      modifies this
      ensures Leaves(error) && Since(old(transcript), old(cancel)) && Quiet(old(transcript), transcript)
      ensures error.Some? ==> Blamed(world, transcript, error.value)
      ensures error.Some? ==> IsConnectionFatal(error.value)
      ensures client == old(client)
      ensures error.None? ==>
                && PutAt(transcript, |old(transcript)|, true, asked) && PatternsOf(asked) == batches
                && descriptions == Described(world, asked)
    {
      hide Terminals, Asked, Delivered, Live, Orderly, MayFollow, IsConnectionFatal, SelectedIn, PutAt, Described,
        Starts, FlagUp, FlagNext, AbandonedAt;
      FatalFaults();
      ghost var start := |transcript|;
      descriptions := map[];
      asked := [];
      NothingPut(world, transcript, start);
      for k := 0 to |batches|
        invariant Ready() && Since(old(transcript), old(cancel)) && Quiet(old(transcript), transcript)
        invariant client == old(client)
        invariant PutAt(transcript, start, true, asked) && PatternsOf(asked) == batches[..k]
        invariant descriptions == Described(world, asked)
      {
        error := EnsureClient();
        var at := |transcript|;
        PutMore(transcript, start, true, asked, batches[k]);
        DescribedMore(world, asked, at, batches[k]);
        asked := asked + [(at as nat, batches[k])];
        assert batches[..k + 1] == batches[..k] + [batches[k]];
        var abandoned := Say(ListNewsgroups(batches[k]));
        var outcome := Lift(abandoned, world.describe(at, batches[k]));
        match outcome {
          case Ok(found) => descriptions := descriptions + found;
          case Err(e) =>
            if IsConnectionFatal(e) {
              return Some(e), map[], [];
            }
        }
      }
      assert batches[..|batches|] == batches;
      error := None;
    }

    /** Fetches the groups the patterns ask for, and their descriptions. */
    method FetchGroups(patterns: seq<Wildmat>)
      returns (error: Option<Error>, active: seq<Entry>, descriptions: map<string, string>, filteredLocally: bool,
               ghost batches: seq<Option<Wildmat>>, ghost listed: Questions, ghost described: Questions)
      requires Ready() && forall k :: 0 <= k < |patterns| ==> Sendable(patterns[k].text)
      modifies this
      ensures Leaves(error) && Since(old(transcript), old(cancel)) && Quiet(old(transcript), transcript)
      ensures error.Some? ==> Blamed(world, transcript, error.value)
      ensures error.None? || !IsConnectionFatal(error.value) ==> client.Some?
      ensures error.None? ==>
                && BatchesFor(patterns, batches)
                && ActiveFrom(world, patterns, batches, listed, active, filteredLocally, |old(transcript)|, transcript)
                && PutAt(transcript, |old(transcript)|, true, described)
                && PatternsOf(described) == (if filteredLocally then [None] else batches)
                && descriptions == Described(world, described)
    {
      hide Terminals, Asked, Delivered, Live, Orderly, MayFollow, Subscribed, Served, IsConnectionFatal, Sendable,
        SelectedIn, Listing, Batches, IsSplit, Fits, BatchCuts, PutAt, Described, ActiveFrom, Starts, FlagUp,
        FlagNext, AbandonedAt;
      ghost var start := |transcript|;
      descriptions, listed, described := map[], [], [];
      var parts, cuts := BatchPatterns(patterns);
      batches := parts;
      SomeBatches(patterns, cuts, parts);
      error, active, filteredLocally, listed := FetchActive(patterns, parts);
      if error.Some? {
        return;
      }
      ghost var fetched := transcript;
      error, descriptions, described := FetchDescriptions(if filteredLocally then [None] else parts);
      if error.None? {
        PutStays(transcript, transcript, |fetched|, start, true, described);
        ActiveStays(world, patterns, batches, listed, active, filteredLocally, start, fetched, start, transcript);
      }
    }

    method DoLoadGroups(patterns: seq<Wildmat>, ghost catalogue: seq<Entry>)
      returns (error: Option<Error>, ghost rows: seq<Row>, ghost filtered: bool)
      requires Ready() && forall k :: 0 <= k < |patterns| ==> Sendable(patterns[k].text)
      modifies this
      ensures Ends(error) && Since(old(transcript), old(cancel))
      ensures error.Some? ==> Blamed(world, transcript, error.value)
      ensures error.None? || !IsConnectionFatal(error.value) ==> client.Some?
      ensures error.Some? ==> Quiet(old(transcript), transcript)
      ensures error.None? ==> EndedBy(old(transcript), transcript, Groups(rows, patterns, filtered))
      ensures Asked(transcript) == Asked(old(transcript)) && Delivered(transcript) == Delivered(old(transcript))
      ensures error.None? ==>
                GroupsListed(world, catalogue, LoadGroups(patterns), Groups(rows, patterns, filtered),
                             old(transcript), transcript)
    {
      hide Terminals, Asked, Delivered, Live, Orderly, MayFollow, IsConnectionFatal, Sendable, SelectedIn, Listing,
        ListedAsAsked, EntriesOf, HonestLists, StrictlyByName, PutAt, Described, ActiveFrom, BatchesFor, GroupsListed,
        Starts, FlagUp, FlagNext, AbandonedAt;
      rows, filtered := [], false;
      ghost var start := transcript;
      PlainSteps(world, transcript);
      Send(Progress);
      ghost var asking := |transcript|;
      var active, descriptions, filteredLocally;
      ghost var batches, listed, described;
      error, active, descriptions, filteredLocally, batches, listed, described := FetchGroups(patterns);
      if error.Some? {
        return;
      }
      ghost var answered := transcript;
      var made := MakeRows(Listing(active), descriptions);
      PlainSteps(world, transcript);
      Send(Groups(made, patterns, filteredLocally));
      rows, filtered := made, filteredLocally;
      ActiveStays(world, patterns, batches, listed, active, filtered, asking, answered, |start|, transcript);
      PutStays(answered, transcript, asking, |start|, true, described);
      RowsListed(world, catalogue, patterns, batches, listed, described, active, rows, filtered, start, transcript);
    }

    // ----- overviews -----

    method SelectGroup(group: string) returns (r: Result<Summary, Error>)
      requires Ready() && client.Some?
      modifies this
      ensures Leaves(ErrorIn(r)) && client.Some?
      ensures Since(old(transcript), old(cancel)) && Quiet(old(transcript), transcript)
      ensures r.Err? ==> Blamed(world, transcript, r.error)
      ensures client.value.selected == if r.Ok? then Some(r.value.name) else old(client.value.selected)
      ensures r.Ok? ==> world.select(|old(transcript)|, group) == Ok(r.value)
      ensures transcript == old(transcript) + [Says(Group(group))]
    {
      hide Terminals, Asked, Delivered, Live, Orderly, MayFollow, SelectedIn, Starts, FlagUp, FlagNext, AbandonedAt;
      var at := |transcript|;
      var abandoned := Say(Group(group));
      r := Lift(abandoned, world.select(at, group));
      if r.Ok? {
        client := Some(client.value.(selected := Some(r.value.name)));
      }
    }

    /** The overview layout, asked for once a connection. */
    method Format() returns (error: Option<Error>)
      requires Ready() && client.Some?
      modifies this
      ensures old(client.value.knowsFormat) ==> error.None? && transcript == old(transcript)
      ensures error.None? ==> client.Some? && client.value.knowsFormat
      ensures Leaves(error) && client.Some?
      ensures SelectedIn(world, transcript) == SelectedIn(world, old(transcript))
      ensures Since(old(transcript), old(cancel)) && Quiet(old(transcript), transcript)
      ensures error.Some? ==> Blamed(world, transcript, error.value)
    {
      hide Terminals, Asked, Delivered, Live, Orderly, MayFollow, SelectedIn, Starts, FlagUp, FlagNext, AbandonedAt;
      if client.value.knowsFormat {
        return None;
      }
      var at := |transcript|;
      var abandoned := Say(OverviewFormat);
      if abandoned {
        return Some(Abandoned);
      }
      if world.format(at).Some? {
        return Some(Fault(world.format(at).value));
      }
      client := Some(client.value.(knowsFormat := true));
      return None;
    }

    method AskOver(range: R.Range) returns (r: Result<seq<Option<NumberedRecord>>, Error>)
      requires Ready() && client.Some?
      modifies this
      ensures Leaves(ErrorIn(r)) && client == old(client) && transcript == old(transcript) + [Says(Over(range))]
      ensures Since(old(transcript), old(cancel))
      ensures r.Err? ==> Blamed(world, transcript, r.error)
      ensures Terminals(transcript) == Terminals(old(transcript)) && Delivered(transcript) == Delivered(old(transcript))
      ensures Asked(transcript) == Asked(old(transcript)) + [range]
      ensures SelectedIn(world, transcript) == SelectedIn(world, old(transcript))
      ensures AskedOn(world, SelectedIn(world, old(transcript)), old(transcript), transcript)
      ensures r.Ok? ==> world.over(|old(transcript)|, range) == Ok(r.value)
    {
      hide Terminals, Asked, Delivered, Live, Orderly, MayFollow, SelectedIn, AskedOn, Starts, FlagUp, FlagNext,
        AbandonedAt;
      AskedOnce(world, SelectedIn(world, transcript), transcript, Over(range));
      var at := |transcript|;
      var abandoned := Say(Over(range));
      r := Lift(abandoned, world.over(at, range));
    }

    /** Fetches one chunk and delivers its records, in order of article number. */
    method FetchChunk(group: string, range: R.Range, token: Token) returns (error: Option<Error>)
      requires Ready() && client.Some?
      modifies this
      ensures Leaves(error) && client == old(client)
      ensures Since(old(transcript), old(cancel))
      ensures error.Some? ==> Blamed(world, transcript, error.value)
      ensures Terminals(transcript) == Terminals(old(transcript))
      ensures SelectedIn(world, transcript) == SelectedIn(world, old(transcript))
      ensures AskedOn(world, SelectedIn(world, old(transcript)), old(transcript), transcript)
      ensures error.None? ==>
                && Asked(transcript) == Asked(old(transcript)) + [range]
                && Delivered(transcript) == Delivered(old(transcript)) + [(group, token)]
    {
      hide Terminals, Asked, Delivered, Live, Orderly, MayFollow, Blamed, Parsed, SortBy, SelectedIn, AskedOn, Starts,
        FlagUp, FlagNext, AbandonedAt;
      ghost var start := transcript;
      var lines := AskOver(range);
      if lines.Err? {
        return Some(lines.error);
      }
      ghost var asked := transcript;
      var records := SortBy(Parsed(lines.value), BY_NUMBER);
      var skipped: nat := |lines.value| - |Parsed(lines.value)|;
      ChunkFollows(world, transcript, group, token, range, lines.value, records);
      Send(OverviewChunk(group, token, records, skipped));
      AskedBetween(world, SelectedIn(world, start), start, start, asked, transcript);
      return None;
    }

    /** Fetches a range in chunks, newest first. */
    method FetchOverview(group: string, range: R.Range, token: Token) returns (error: Option<Error>)
      requires Ready() && client.Some?
      modifies this
      ensures Ends(error) && client.Some?
      ensures Since(old(transcript), old(cancel))
      ensures error.Some? ==> Blamed(world, transcript, error.value)
      ensures error.Some? ==> Terminals(transcript) == Terminals(old(transcript))
      ensures error.None? ==> EndedBy(old(transcript), transcript, OverviewComplete(group, token))
      ensures AskedOn(world, SelectedIn(world, old(transcript)), old(transcript), transcript)
      ensures error.None? ==> Overviewed(group, token, range, chunk, old(transcript), transcript)
    {
      hide Terminals, Asked, Delivered, Live, Orderly, MayFollow, R.Split, SelectedIn, AskedOn, Starts, FlagUp,
        FlagNext, AbandonedAt;
      ghost var start, selected := transcript, SelectedIn(world, transcript);
      var chunks := R.Chunks(range, chunk);
      error := Format();
      AskedNothing(world, selected, start, transcript);
      if error.Some? {
        return;
      }
      var newest := Reversed(chunks);
      for k := 0 to |newest|
        invariant Ready() && client.Some?
        invariant Since(old(transcript), old(cancel))
        invariant Terminals(transcript) == Terminals(old(transcript))
        invariant SelectedIn(world, transcript) == SelectedIn(world, old(transcript))
        invariant AskedOn(world, SelectedIn(world, old(transcript)), old(transcript), transcript)
        invariant Asked(transcript) == Asked(old(transcript)) + newest[..k]
        invariant Delivered(transcript) == Delivered(old(transcript)) + Tagged(group, token, k)
      {
        ghost var sofar := transcript;
        if |chunks| > 1 {
          PlainSteps(world, transcript);
          Send(Progress);
        }
        AskedBetween(world, selected, start, start, sofar, transcript);
        ghost var asking := transcript;
        error := FetchChunk(group, newest[k], token);
        AskedJoin(world, selected, start, asking, transcript);
        if error.Some? {
          return;
        }
        assert newest[..k + 1] == newest[..k] + [newest[k]];
      }
      assert newest[..|newest|] == newest;
      ghost var asked := transcript;
      PlainSteps(world, transcript);
      Send(OverviewComplete(group, token));
      AskedBetween(world, selected, start, start, asked, transcript);
      error := None;
    }

    /** Selects a group and reports what it holds. */
    method Opening(group: string) returns (r: Result<Summary, Error>)
      requires Ready()
      modifies this
      ensures Leaves(ErrorIn(r)) && Since(old(transcript), old(cancel)) && Quiet(old(transcript), transcript)
      ensures r.Err? ==> Blamed(world, transcript, r.error)
      ensures r.Ok? || !IsConnectionFatal(r.error) ==> client.Some?
      ensures r.Ok? ==> SelectedIn(world, transcript) == Some(r.value.name)
      ensures r.Ok? ==>
                && |transcript| >= |old(transcript)| + 2 && transcript[|transcript| - 1] == Tells(GroupOpened(r.value))
                && transcript[|transcript| - 2] == Says(Group(group)) && world.select(|transcript| - 2, group) == Ok(r.value)
    {
      hide Terminals, Asked, Delivered, Live, Orderly, MayFollow, IsConnectionFatal, Blamed, SelectedIn, Starts,
        FlagUp, FlagNext, AbandonedAt;
      FatalFaults();
      PlainSteps(world, transcript);
      Send(Progress);
      var error := EnsureClient();
      if error.Some? {
        return Err(error.value);
      }
      r := SelectGroup(group);
      if r.Ok? {
        OpenedFollows(world, transcript, group, r.value);
        Send(GroupOpened(r.value));
      }
    }

    /** Selects a group and fetches the newest `count` of its articles. */
    method DoOpenGroup(group: string, count: u64, token: Token) returns (error: Option<Error>)
      requires Ready()
      modifies this
      ensures Ends(error) && Since(old(transcript), old(cancel))
      ensures error.Some? ==> Blamed(world, transcript, error.value)
      ensures error.None? || !IsConnectionFatal(error.value) ==> client.Some?
      ensures error.Some? ==> Terminals(transcript) == Terminals(old(transcript))
      ensures HonestNames(world) ==> AskedOn(world, Some(group), old(transcript), transcript)
      ensures error.None? ==>
                && EndedBy(old(transcript), transcript, OverviewComplete(group, token))
                && Fulfilled(world, OpenGroup(group, count, token), chunk, old(transcript), transcript)
    {
      hide Terminals, Asked, Delivered, Live, Orderly, MayFollow, IsConnectionFatal, IsEmpty, FirstOfNewest,
        Fulfilled, Overviewed, NewestOverviewed, Blamed, SelectedIn, AskedOn, Starts, FlagUp, FlagNext, AbandonedAt;
      ghost var start := transcript;
      var summary := Opening(group);
      AskedNothing(world, Some(group), start, transcript);
      if summary.Err? {
        return Some(summary.error);
      }
      ghost var shown := transcript;
      if IsEmpty(summary.value) {
        PlainSteps(world, transcript);
        Send(OverviewComplete(group, token));
        AskedNothing(world, Some(group), start, transcript);
        error := None;
        EmptyOpened(world, summary.value, group, count, token, chunk, old(transcript), shown, transcript);
      } else {
        var first := FirstOfNewest(summary.value, count);
        NewestInOrder(summary.value, count);
        error := FetchOverview(group, R.MakeBetween(first, summary.value.high), token);
        if HonestNames(world) {
          AskedJoin(world, Some(group), start, shown, transcript);
        }
        if error.None? {
          FullOpened(world, summary.value, group, count, token, chunk, old(transcript), shown, transcript);
        }
      }
    }

    /** Selects the group if it is not selected, and fetches a range of it. */
    method DoLoadOverview(group: string, range: R.Range, token: Token) returns (error: Option<Error>)
      requires Ready()
      modifies this
      ensures Ends(error) && Since(old(transcript), old(cancel))
      ensures error.Some? ==> Blamed(world, transcript, error.value)
      ensures error.None? || !IsConnectionFatal(error.value) ==> client.Some?
      ensures error.Some? ==> Terminals(transcript) == Terminals(old(transcript))
      ensures HonestNames(world) ==> AskedOn(world, Some(group), old(transcript), transcript)
      ensures error.None? ==>
                && EndedBy(old(transcript), transcript, OverviewComplete(group, token))
                && Overviewed(group, token, range, chunk, old(transcript), transcript)
    {
      hide Terminals, Asked, Delivered, Live, Orderly, MayFollow, R.Split, IsConnectionFatal, SelectedIn, AskedOn,
        Starts, FlagUp, FlagNext, AbandonedAt;
      ghost var start := transcript;
      FatalFaults();
      error := Reselect(group);
      AskedNothing(world, Some(group), start, transcript);
      if error.Some? {
        return;
      }
      ghost var selected := transcript;
      error := FetchOverview(group, range, token);
      if HonestNames(world) {
        AskedJoin(world, Some(group), start, selected, transcript);
      }
    }

    /** Connects if need be, and selects a group unless it is the one selected. */
    method Reselect(group: string) returns (error: Option<Error>)
      requires Ready()
      modifies this
      ensures Leaves(error) && Since(old(transcript), old(cancel)) && Quiet(old(transcript), transcript)
      ensures error.Some? ==> Blamed(world, transcript, error.value)
      ensures error.None? || !IsConnectionFatal(error.value) ==> client.Some?
      ensures error.None? && HonestNames(world) ==> client.value.selected == Some(group)
      ensures old(client.Some? && client.value.selected == Some(group)) ==> error.None? && transcript == old(transcript)
    {
      hide Terminals, Asked, Delivered, Live, Orderly, MayFollow, IsConnectionFatal, SelectedIn, Starts, FlagUp,
        FlagNext, AbandonedAt;
      FatalFaults();
      error := EnsureClient();
      if error.Some? {
        return;
      }
      if client.value.selected != Some(group) {
        var selected := SelectGroup(group);
        if selected.Err? {
          return Some(selected.error);
        }
      }
    }

    method AskArticle(spec: Spec) returns (r: Result<string, Error>)
      requires Ready() && client.Some?
      modifies this
      ensures Leaves(ErrorIn(r)) && client == old(client) && transcript == old(transcript) + [Says(Article(spec))]
      ensures Since(old(transcript), old(cancel)) && Quiet(old(transcript), transcript)
      ensures r.Err? ==> Blamed(world, transcript, r.error)
      ensures r.Ok? ==> world.article(|old(transcript)|, spec) == Ok(r.value)
    {
      hide Terminals, Asked, Delivered, Live, Orderly, MayFollow, SelectedIn, Starts, FlagUp, FlagNext, AbandonedAt;
      var at := |transcript|;
      var abandoned := Say(Article(spec));
      r := Lift(abandoned, world.article(at, spec));
    }

    /** Selects the group the article is in, if one is named, and sees that there is one if the article
        needs it. */
    method Approach(inGroup: Option<string>, spec: Spec) returns (error: Option<Error>)
      requires Ready()
      modifies this
      ensures Leaves(error) && Since(old(transcript), old(cancel)) && Quiet(old(transcript), transcript)
      ensures error.Some? ==> Blamed(world, transcript, error.value) || Unselected(LoadArticle(inGroup, spec), error.value)
      ensures error.None? || !IsConnectionFatal(error.value) ==> client.Some?
      ensures error.None? ==> ArticleSelected(inGroup, spec, SelectedIn(world, transcript), world)
    {
      hide Terminals, Asked, Delivered, Live, Orderly, MayFollow, IsConnectionFatal, Blamed, SelectedIn, HonestNames,
        ArticleSelected, Starts, FlagUp, FlagNext, AbandonedAt;
      FatalFaults();
      if inGroup.Some? {
        error := Reselect(inGroup.value);
        if error.Some? {
          return;
        }
      }
      PlainSteps(world, transcript);
      Send(Progress);
      error := EnsureClient();
      if error.Some? {
        return;
      }
      if NeedsGroup(spec) && client.value.selected.None? {
        return Some(Fault(NoGroupSelected));
      }
      ArticleInGroup(world, inGroup, spec, client.value.selected);
    }

    method DoLoadArticle(inGroup: Option<string>, spec: Spec) returns (error: Option<Error>, ghost text: string)
      requires Ready()
      modifies this
      ensures Ends(error) && Since(old(transcript), old(cancel))
      ensures error.Some? ==> Blamed(world, transcript, error.value) || Unselected(LoadArticle(inGroup, spec), error.value)
      ensures error.None? || !IsConnectionFatal(error.value) ==> client.Some?
      ensures error.Some? ==> Quiet(old(transcript), transcript)
      ensures error.None? ==> EndedBy(old(transcript), transcript, GotArticle(text))
      ensures error.None? ==>
                && |transcript| >= 2 && transcript[|transcript| - 2] == Says(Article(spec))
                && ArticleSelected(inGroup, spec, SelectedIn(world, transcript[..|transcript| - 2]), world)
      ensures Asked(transcript) == Asked(old(transcript)) && Delivered(transcript) == Delivered(old(transcript))
    {
      hide Terminals, Asked, Delivered, Live, Orderly, MayFollow, IsConnectionFatal, Blamed, SelectedIn, HonestNames,
        ArticleSelected, Unselected, Starts, FlagUp, FlagNext, AbandonedAt;
      text := "";
      error := Approach(inGroup, spec);
      if error.Some? {
        return;
      }
      ghost var ready := transcript;
      var outcome := AskArticle(spec);
      if outcome.Err? {
        return Some(outcome.error), "";
      }
      ArticleFollows(world, transcript, spec, outcome.value);
      Send(GotArticle(outcome.value));
      assert transcript[..|transcript| - 2] == ready;
      return None, outcome.value;
    }

    method DoPost(draft: string) returns (error: Option<Error>, ghost text: string)
      requires Ready()
      modifies this
      ensures Ends(error) && Since(old(transcript), old(cancel))
      ensures error.Some? ==> Blamed(world, transcript, error.value)
      ensures error.None? || !IsConnectionFatal(error.value) ==> client.Some?
      ensures error.Some? ==> Quiet(old(transcript), transcript)
      ensures error.None? ==> EndedBy(old(transcript), transcript, Posted(text))
      ensures error.None? ==> |transcript| >= 2 && transcript[|transcript| - 2] == Says(PostArticle(draft))
      ensures Asked(transcript) == Asked(old(transcript)) && Delivered(transcript) == Delivered(old(transcript))
    {
      hide Terminals, Asked, Delivered, Live, Orderly, MayFollow, IsConnectionFatal, Blamed, SelectedIn, Starts,
        FlagUp, FlagNext, AbandonedAt;
      FatalFaults();
      text := "";
      PlainSteps(world, transcript);
      Send(Progress);
      error := EnsureClient();
      if error.Some? {
        return;
      }
      var at := |transcript|;
      var abandoned := Say(PostArticle(draft));
      var outcome := Lift(abandoned, world.post(at, draft));
      if outcome.Err? {
        BlamePost(world, transcript, draft, abandoned, outcome.error);
        return Some(outcome.error), "";
      }
      PostFollows(world, transcript, draft, outcome.value);
      Send(Posted(outcome.value));
      return None, outcome.value;
    }

    // ----- requests -----

    method Perform(request: Request, ghost catalogue: seq<Entry>) returns (error: Option<Error>, ghost e: Event)
      requires Ready() && WellFormed(request) && !request.Shutdown?
      modifies this
      ensures Ends(error) && Since(old(transcript), old(cancel))
      ensures error.Some? ==> Blamed(world, transcript, error.value) || Unselected(request, error.value)
      ensures error.None? || !IsConnectionFatal(error.value) ==> client.Some?
      ensures error.Some? ==> Terminals(transcript) == Terminals(old(transcript))
      ensures error.None? ==>
                && EndedBy(old(transcript), transcript, e) && Succeeds(request, e)
                && Fulfilled(world, request, chunk, old(transcript), transcript)
      ensures HonestNames(world) ==> AskedInGroup(world, request, old(transcript), transcript)
      ensures error.None? ==> GroupsListed(world, catalogue, request, e, old(transcript), transcript)
    {
      hide Terminals, Asked, Delivered, Live, Orderly, MayFollow, IsConnectionFatal, R.Split, Sendable, Listing,
        ListedAsAsked, Subscribed, EntriesOf, HonestLists, NewestOverviewed, StrictlyByName, SelectedIn, Starts,
        FlagUp, FlagNext, AbandonedAt;
      match request {
        case LoadGroups(patterns) =>
          ghost var rows, filtered;
          error, rows, filtered := DoLoadGroups(patterns, catalogue);
          e := Groups(rows, patterns, filtered);
        case OpenGroup(group, count, token) =>
          error := DoOpenGroup(group, count, token);
          e := OverviewComplete(group, token);
        case LoadOverview(group, range, token) =>
          error := DoLoadOverview(group, range, token);
          e := OverviewComplete(group, token);
        case LoadArticle(inGroup, spec) =>
          ghost var text;
          error, text := DoLoadArticle(inGroup, spec);
          e := GotArticle(text);
        case Post(draft) =>
          ghost var text;
          error, text := DoPost(draft);
          e := Posted(text);
      }
    }

    /** Says how a request failed, and drops the connection if it cannot be used again. */
    method Report(request: Request, error: Error) returns (ghost e: Event)
      requires Leaves(Some(error))
      requires Blamed(world, transcript, error) || Unselected(request, error)
      requires IsConnectionFatal(error) || client.Some?
      modifies this`transcript, this`client
      ensures Idle() && old(transcript) < transcript && (client.Some? <==> !IsConnectionFatal(error))
      ensures e == if error.Abandoned? then Cancelled(request) else Failed(request, error)
      ensures Terminals(transcript) == Terminals(old(transcript)) + [e] && Closing(transcript, e)
      ensures Asked(transcript) == Asked(old(transcript))
    {
      hide Terminals, Asked, Delivered, Live, Orderly, MayFollow, SelectedIn, Blamed, Unselected, IsConnectionFatal,
        Starts, FlagUp, FlagNext, AbandonedAt;
      FatalFaults();
      EndFollows(world, transcript, request, error);
      if error.Abandoned? {
        FlagStep(world, transcript, Tells(Cancelled(request)));
        StepRead(transcript, Tells(Cancelled(request)));
        Add(Tells(Cancelled(request)), None);
        return Cancelled(request);
      }
      e := Failed(request, error);
      Send(Failed(request, error));
      if IsConnectionFatal(error) {
        LossFollows(world, transcript, request, error);
        FlagStep(world, transcript, Tells(Disconnected));
        StepRead(transcript, Tells(Disconnected));
        Add(Tells(Disconnected), None);
      }
    }

    method Dispatch(request: Request, ghost catalogue: seq<Entry>) returns (ghost e: Event)
      requires Ready() && WellFormed(request) && !request.Shutdown?
      modifies this
      ensures Idle() && Since(old(transcript), old(cancel)) && (client.Some? <==> !Loses(e))
      ensures cancel || !e.Cancelled?
      ensures old(transcript) < transcript && Terminals(transcript) == Terminals(old(transcript)) + [e]
      ensures Answers(request, e) && Closing(transcript, e)
      ensures Succeeds(request, e) ==> Fulfilled(world, request, chunk, old(transcript), transcript)
      ensures HonestNames(world) ==> AskedInGroup(world, request, old(transcript), transcript)
      ensures GroupsListed(world, catalogue, request, e, old(transcript), transcript)
    {
      hide Terminals, Asked, Delivered, Live, Orderly, MayFollow, IsConnectionFatal, Fulfilled, WellFormed,
        SelectedIn, AskedInGroup, GroupsListed, HonestNames, Blamed, Unselected, Starts, FlagUp, FlagNext,
        AbandonedAt;
      FatalFaults();
      ghost var start := transcript;
      var error;
      error, e := Perform(request, catalogue);
      if error.Some? {
        ghost var performed := transcript;
        e := Report(request, error.value);
        NothingListed(world, catalogue, request, error.value, start, transcript);
        if HonestNames(world) {
          AskedInGroupStays(world, request, start, performed, transcript);
        }
      }
    }

    /** Handles one request; the cancel flag does not outlive it. */
    method Handle(request: Request, ghost catalogue: seq<Entry>) returns (ghost e: Event)
      requires Idle() && !cancel && WellFormed(request) && !request.Shutdown?
      modifies this
      ensures Idle() && !cancel && (client.Some? <==> !Loses(e))
      ensures Handled(world, catalogue, request, e, chunk, old(transcript), transcript)
    {
      hide Terminals, Orderly, Live, IsConnectionFatal, Fulfilled, WellFormed, Answers, Closing, Succeeds,
        GroupsListed, SelectedIn, AskedInGroup, HonestNames, Starts, FlagUp, FlagNext, AbandonedAt;
      FlagBetween(world, transcript);
      if world.raised(|transcript|) {
        cancel := true;
      }
      e := Dispatch(request, catalogue);
      cancel := false;
    }

    /** Closes the connection, if there is one, and says so. */
    method Stop()
      requires Idle()
      modifies this
      ensures Orderly(world, transcript) && client.None?
      ensures old(transcript) < transcript && transcript[|transcript| - 1] == Tells(Stopped)
      ensures Tells(Stopped) !in transcript[..|transcript| - 1]
      ensures Terminals(transcript) == Terminals(old(transcript))
    {
      hide Terminals, Asked, Delivered, Live, Orderly, MayFollow, SelectedIn, Starts, FlagUp, FlagNext, AbandonedAt;
      FlagBetween(world, transcript);
      if client.Some? {
        PlainSteps(world, transcript);
        FlagStep(world, transcript, Says(Quit));
        StepRead(transcript, Says(Quit));
        Add(Says(Quit), None);
      }
      PlainSteps(world, transcript);
      StepRead(transcript, Tells(Stopped));
      OrderlyStep(world, transcript, Tells(Stopped));
      transcript := transcript + [Tells(Stopped)];
    }

    /** Takes requests until one of them is a shutdown or there are no more, then stops. */
    method Run(requests: seq<Request>, ghost catalogue: seq<Entry>) returns (ghost ended: seq<Event>, ghost marks: seq<nat>)
      requires Valid() && !cancel && transcript == []
      requires forall k :: 0 <= k < |requests| ==> WellFormed(requests[k])
      modifies this
      ensures Orderly(world, transcript) && client.None?
      ensures transcript != [] && transcript[|transcript| - 1] == Tells(Stopped)
      ensures Tells(Stopped) !in transcript[..|transcript| - 1]
      ensures Terminals(transcript) == ended && |ended| == BeforeShutdown(requests) && |marks| == |ended| + 1
      ensures forall k :: 0 <= k <= |ended| ==> marks[k] <= |transcript|
      ensures forall k :: 0 <= k < |ended| ==>
                Handled(world, catalogue, requests[k], ended[k], chunk, transcript[..marks[k]], transcript[..marks[k + 1]])
    {
      hide Terminals, Orderly, Live, Handled, WellFormed, MayFollow, SelectedIn, Starts, FlagUp, FlagNext,
        AbandonedAt;
      NothingEnded();
      FlagBetween(world, transcript);
      var i := 0;
      ended, marks := [], [0];
      while i < |requests| && !requests[i].Shutdown?
        invariant i <= BeforeShutdown(requests)
        invariant Idle() && !cancel
        invariant Terminals(transcript) == ended && |ended| == i && |marks| == i + 1
        invariant marks[i] == |transcript| && forall k :: 0 <= k <= i ==> marks[k] <= |transcript|
        invariant forall k :: 0 <= k < i ==>
                    Handled(world, catalogue, requests[k], ended[k], chunk, transcript[..marks[k]], transcript[..marks[k + 1]])
      {
        ghost var before := transcript;
        ghost var e := Handle(requests[i], catalogue);
        HandledAdds(world, catalogue, requests[i], e, chunk, before, transcript);
        PrefixesKept(before, transcript, marks);
        ended, marks := ended + [e], marks + [|transcript|];
        i := i + 1;
      }
      ghost var handled := transcript;
      Stop();
      PrefixesKept(handled, transcript, marks);
    }
  }

  lemma ChunkFollows(world: World, steps: seq<Step>, group: string, token: Token, range: R.Range,
                     lines: seq<Option<NumberedRecord>>, records: seq<NumberedRecord>)
    requires !AbandonedAt(world, steps)
    requires steps != [] && steps[|steps| - 1] == Says(Over(range)) && world.over(|steps| - 1, range) == Ok(lines)
    requires records == SortBy(Parsed(lines), BY_NUMBER)
    ensures MayFollow(world, steps, Tells(OverviewChunk(group, token, records, |lines| - |Parsed(lines)|)))
  {
    hide Parsed, SortBy;
    SortKeeps(Parsed(lines), BY_NUMBER);
    ParsedCount(lines, NumberedRecord(0, ""));
    forall r ensures multiset(records)[r] == multiset(lines)[Some(r)] {
      ParsedCount(lines, r);
      assert multiset(records)[r] == multiset(Parsed(lines))[r];
    }
    forall r ensures LevelWith(records, r, BY_NUMBER) == LevelWith(Parsed(lines), r, BY_NUMBER) {
      SortStable(Parsed(lines), r, BY_NUMBER);
    }
    assert forall i, j :: 0 <= i < j < |records| ==> BY_NUMBER(records[i], records[j]);
  }

  lemma ConnectedFollows(world: World, steps: seq<Step>)
    requires steps != [] && steps[|steps| - 1] == Says(Connect) && world.connect(|steps| - 1)
    ensures MayFollow(world, steps, Tells(Connected))
  {
  }

  lemma OpenedFollows(world: World, steps: seq<Step>, group: string, summary: Summary)
    requires !AbandonedAt(world, steps)
    requires steps != [] && steps[|steps| - 1] == Says(Group(group)) && world.select(|steps| - 1, group) == Ok(summary)
    ensures MayFollow(world, steps, Tells(GroupOpened(summary)))
  {
  }

  lemma ArticleFollows(world: World, steps: seq<Step>, spec: Spec, text: string)
    requires !AbandonedAt(world, steps)
    requires steps != [] && steps[|steps| - 1] == Says(Article(spec)) && world.article(|steps| - 1, spec) == Ok(text)
    ensures MayFollow(world, steps, Tells(GotArticle(text)))
  {
  }

  lemma ArticleInGroup(world: World, inGroup: Option<string>, spec: Spec, selected: Option<string>)
    requires NeedsGroup(spec) ==> selected.Some?
    requires inGroup.Some? && HonestNames(world) ==> selected == inGroup
    ensures ArticleSelected(inGroup, spec, selected, world)
  {
  }

  lemma PostFollows(world: World, steps: seq<Step>, draft: string, text: string)
    requires !AbandonedAt(world, steps)
    requires steps != [] && steps[|steps| - 1] == Says(PostArticle(draft)) && world.post(|steps| - 1, draft) == Ok(text)
    ensures MayFollow(world, steps, Tells(Posted(text)))
  {
  }

  lemma EmptyOpened(world: World, s: Summary, group: string, count: u64, token: Token, chunk: u64,
                    before: seq<Step>, shown: seq<Step>, after: seq<Step>)
    requires before <= shown <= after && |before| + 2 <= |shown| && Opened(world, group, s, |shown| - 2, |before|, shown)
    requires IsEmpty(s) && NoOverview(before, after)
    ensures Fulfilled(world, OpenGroup(group, count, token), chunk, before, after)
  {
    assert Opened(world, group, s, |shown| - 2, |before|, after);
    assert NewestOverviewed(s, group, count, token, chunk, before, after);
  }

  lemma FullOpened(world: World, s: Summary, group: string, count: u64, token: Token, chunk: u64,
                   before: seq<Step>, shown: seq<Step>, after: seq<Step>)
    requires before <= shown <= after && |before| + 2 <= |shown| && Opened(world, group, s, |shown| - 2, |before|, shown)
    requires !IsEmpty(s) && NoOverview(before, shown)
    requires Overviewed(group, token, R.Between(FirstOfNewest(s, count), s.high), chunk, shown, after)
    ensures Fulfilled(world, OpenGroup(group, count, token), chunk, before, after)
  {
    hide R.Split, Asked, Delivered;
    assert Opened(world, group, s, |shown| - 2, |before|, after);
    assert NewestOverviewed(s, group, count, token, chunk, before, after);
  }

  lemma NewestInOrder(s: Summary, count: u64)
    requires !IsEmpty(s)
    ensures R.MakeBetween(FirstOfNewest(s, count), s.high) == R.Between(FirstOfNewest(s, count), s.high)
  {
  }

  lemma BlamePost(world: World, steps: seq<Step>, draft: string, abandoned: bool, e: Error)
    requires steps != [] && steps[|steps| - 1] == Says(PostArticle(draft)) && (abandoned ==> world.noticed(|steps| - 1))
    requires Lift(abandoned, world.post(|steps| - 1, draft)) == Err(e)
    ensures Blamed(world, steps, e)
  {
  }

  lemma EndFollows(world: World, steps: seq<Step>, request: Request, error: Error)
    requires error.Abandoned? <==> AbandonedAt(world, steps)
    requires Blamed(world, steps, error) || Unselected(request, error)
    ensures MayFollow(world, steps, Tells(if error.Abandoned? then Cancelled(request) else Failed(request, error)))
  {
  }

  lemma NothingListed(world: World, catalogue: seq<Entry>, request: Request, error: Error, before: seq<Step>, after: seq<Step>)
    ensures GroupsListed(world, catalogue, request, Cancelled(request), before, after)
    ensures GroupsListed(world, catalogue, request, Failed(request, error), before, after)
  {
  }

  lemma LossFollows(world: World, steps: seq<Step>, request: Request, error: Error)
    requires steps != [] && steps[|steps| - 1] == Tells(Failed(request, error)) && IsConnectionFatal(error)
    ensures MayFollow(world, steps, Tells(Disconnected))
  {
  }

  lemma NothingEnded()
    ensures Terminals([]) == [] && !Live([])
  {
  }

  lemma HandledAdds(world: World, catalogue: seq<Entry>, request: Request, e: Event, chunk: u64,
                    before: seq<Step>, after: seq<Step>)
    requires Handled(world, catalogue, request, e, chunk, before, after)
    ensures before < after && Terminals(after) == Terminals(before) + [e]
  {
  }

  lemma PrefixesKept(before: seq<Step>, after: seq<Step>, marks: seq<nat>)
    requires before <= after && forall k :: 0 <= k < |marks| ==> marks[k] <= |before|
    ensures forall k :: 0 <= k < |marks| ==> before[..marks[k]] == after[..marks[k]]
    ensures after[..|before|] == before && after[..|after|] == after
  {
  }

  lemma FatalFaults()
    ensures IsConnectionFatal(Fault(Tls)) && IsConnectionFatal(Abandoned)
  {
  }

  lemma SomeBatches(patterns: seq<Wildmat>, cuts: seq<nat>, batches: seq<Option<Wildmat>>)
    requires patterns == [] ==> batches == [None]
    requires patterns != [] ==> IsSplit(cuts, |patterns|) && Batches(patterns, cuts, batches)
    ensures batches != []
  {
  }

  lemma NothingPut(world: World, steps: seq<Step>, start: nat)
    ensures forall describe :: PutAt(steps, start, describe, [])
    ensures PatternsOf([]) == [] && Answered(world, []) == Some([]) && Described(world, []) == map[]
  {
  }

  lemma WholeActive(world: World, patterns: seq<Wildmat>, batches: seq<Option<Wildmat>>, questions: Questions,
                    active: seq<Entry>, start: nat, steps: seq<Step>)
    requires PutAt(steps, start, false, questions) && PatternsOf(questions) == batches
    requires Answered(world, questions) == Some(active)
    ensures ActiveFrom(world, patterns, batches, questions, active, false, start, steps)
  {
  }

  lemma RefusedNow(world: World, steps: seq<Step>, batches: seq<Option<Wildmat>>, k: nat)
    requires k < |batches| && batches[k].Some?
    requires steps != [] && steps[|steps| - 1] == Says(ListActive(batches[k])) && world.list(|steps| - 1, batches[k]).Err?
    requires !IsConnectionFatal(Fault(world.list(|steps| - 1, batches[k]).error))
    ensures RefusedAt(world, steps, |steps| - 1, batches)
  {
    hide IsConnectionFatal;
  }

  lemma OneAnswer(world: World, n: nat, pattern: Option<Wildmat>)
    requires world.list(n, pattern).Ok?
    ensures Answered(world, [(n, pattern)]) == Some(world.list(n, pattern).value) && PatternsOf([(n, pattern)]) == [pattern]
  {
    var questions: Questions := [(n, pattern)];
    assert questions[..0] == [];
    assert [] + world.list(n, pattern).value == world.list(n, pattern).value;
  }

  lemma FilteredActive(world: World, patterns: seq<Wildmat>, batches: seq<Option<Wildmat>>, start: nat,
                       refused: seq<Step>, n: nat, steps: seq<Step>)
    requires start < |refused| <= n < |steps| && refused <= steps && RefusedAt(world, refused, |refused| - 1, batches)
    requires steps[n] == Says(ListActive(None)) && world.list(n, None).Ok?
    ensures ActiveFrom(world, patterns, batches, [(n, None)], Subscribed(world.list(n, None).value, patterns), true, start, steps)
  {
    hide Subscribed, RefusedAt, Answered;
    var questions: Questions := [(n, None)];
    OneAnswer(world, n, None);
    RefusedStays(world, refused, steps, |refused| - 1, batches);
    assert PutAt(steps, start, false, questions);
  }

  /** What was fetched is listed as it should be. */
  lemma RowsListed(world: World, catalogue: seq<Entry>, patterns: seq<Wildmat>, batches: seq<Option<Wildmat>>,
                   listed: Questions, described: Questions, active: seq<Entry>, rows: seq<Row>, filtered: bool,
                   before: seq<Step>, after: seq<Step>)
    requires BatchesFor(patterns, batches) && ActiveFrom(world, patterns, batches, listed, active, filtered, |before|, after)
    requires PutAt(after, |before|, true, described) && PatternsOf(described) == (if filtered then [None] else batches)
    requires rows == MakeRows(Listing(active), Described(world, described))
    ensures GroupsListed(world, catalogue, LoadGroups(patterns), Groups(rows, patterns, filtered), before, after)
  {
    hide PutAt, Described, Listing, HonestLists, ListedAsAsked, BatchesFor, DescribedAs;
    ListingFacts(active, "");
    forall k | 0 <= k < |rows| ensures DescribedAs(world, described, rows[k].entry.name, rows[k].description) {
      DescribedIs(world, described, rows[k].entry.name);
    }
    assert RowsFrom(world, patterns, batches, listed, described, rows, filtered, |before|, after) by {
      hide ActiveFrom;
    }
    if HonestLists(world, catalogue) {
      HonestActive(world, catalogue, patterns, batches, listed, active, filtered, |before|, after);
      WhatWasFetched(catalogue, patterns, batches, active, filtered);
    }
  }

  lemma HonestActive(world: World, catalogue: seq<Entry>, patterns: seq<Wildmat>, batches: seq<Option<Wildmat>>,
                     questions: Questions, active: seq<Entry>, filtered: bool, start: nat, steps: seq<Step>)
    requires HonestLists(world, catalogue)
    requires ActiveFrom(world, patterns, batches, questions, active, filtered, start, steps)
    ensures active == if filtered then Subscribed(catalogue, patterns) else Fetched(catalogue, batches, |batches|)
  {
    hide PutAt, Subscribed, Served;
    HonestAnswers(world, catalogue, questions, PatternsOf(questions));
    EverythingServed(catalogue);
    if filtered {
      assert Fetched(catalogue, [None], 1) == Fetched(catalogue, [None], 0) + catalogue == catalogue;
    }
  }

  lemma WhatWasFetched(catalogue: seq<Entry>, patterns: seq<Wildmat>, batches: seq<Option<Wildmat>>,
                       active: seq<Entry>, filteredLocally: bool)
    requires BatchesFor(patterns, batches)
    requires active == if filteredLocally then Subscribed(catalogue, patterns) else Fetched(catalogue, batches, |batches|)
    ensures ListedAsAsked(catalogue, patterns, Listing(active), filteredLocally)
  {
    hide Listing, Subscribed, BatchSubscribed, Fetched, Batches, AskedFor, Wanted;
    if !filteredLocally {
      FetchedListing(catalogue, patterns, BatchCuts(patterns), batches);
      BatchesAgree(catalogue, patterns, BatchCuts(patterns), batches);
    }
  }
}
