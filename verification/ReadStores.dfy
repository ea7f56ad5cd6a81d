/** The read-state store: which articles of which groups are read, and the `.newsrc` text it is kept
    in. */
module ReadStores {
  import opened Options
  import opened Sequences
  import opened Strings
  import opened Decimals
  import opened ReadSets
  import opened Newsrc

  /** What the store holds about one group. */
  datatype GroupState = GroupState(read: Ranges, subscribed: bool)

  type Groups = map<string, GroupState>

  datatype Problem =
    | MalformedLine(line: nat)
    | MalformedRanges(group: string, pieces: seq<string>)

  ghost predicate Sound(groups: Groups) {
    forall g :: g in groups ==> Canonical(groups[g].read)
  }

  /** The read set of a group; an unknown group has read nothing. */
  function ReadOf(groups: Groups, group: string): Ranges {
    if group in groups then groups[group].read else []
  }

  // ----- one line -----

  /** A line that could be read: its group, its flag and the text of its ranges. */
  datatype ParsedLine = ParsedLine(group: string, subscribed: bool, ranges: string)

  /** The position of the first `:` or `!`, or the length if there is neither. */
  function Separator(text: string): (i: nat)
    ensures i <= |text| && (i < |text| ==> text[i] in {':', '!'})
    ensures forall k :: 0 <= k < i ==> text[k] !in {':', '!'}
  {
    if text == "" || text[0] in {':', '!'} then 0 else 1 + Separator(text[1..])
  }

  function SplitLine(line: string): Option<ParsedLine> {
    var position := Separator(line);
    if position == |line| then None
    else
      var group := Trim(line[..position]);
      if group == "" then None
      else Some(ParsedLine(group, line[position] == ':', line[position + 1..]))
  }

  predicate Ignored(line: string) {
    var trimmed := Trim(line);
    trimmed == "" || trimmed[0] == '#'
  }

  /** What a line of the file contributes, if it can be read. */
  function Accepted(line: string): Option<ParsedLine> {
    if Ignored(line) then None else SplitLine(Trim(line))
  }

  /** A line is ignored when it is blank, and when the first thing on it is `#`. */
  lemma IgnoredIff(line: string, k: nat)
    requires k <= |line| && (forall i :: 0 <= i < k ==> IsSpace(line[i])) && (k < |line| ==> !IsSpace(line[k]))
    ensures Ignored(line) <==> k == |line| || line[k] == '#'
  {
    hide IsSpace, Trim;
    if k == |line| {
      TrimBlank(line);
    } else {
      var j := LastVisible(line, k);
      TrimIs(line, k, j);
    }
  }

  lemma {:induction false} LastVisible(line: string, k: nat) returns (j: nat)
    requires k < |line| && !IsSpace(line[k])
    ensures k < j <= |line| && !IsSpace(line[j - 1]) && forall i :: j <= i < |line| ==> IsSpace(line[i])
    decreases |line|
  {
    hide IsSpace;
    if IsSpace(line[|line| - 1]) {
      j := LastVisible(line[..|line| - 1], k);
    } else {
      j := |line|;
    }
  }

  // ----- the lines of a text -----

  /** The lines of a text: no empty line after a final line feed, and no carriage return before
      one. */
  function TextLines(text: string): seq<string> {
    var pieces := Split(text, '\n');
    var n := |pieces| - 1;
    var ended := seq(n, k requires 0 <= k < n => DropCr(pieces[k]));
    if pieces[n] == "" then ended else ended + [pieces[n]]
  }

  function DropCr(line: string): string {
    if line != "" && line[|line| - 1] == '\r' then line[..|line| - 1] else line
  }

  /** A line ends at a line feed, with or without a carriage return before it. */
  lemma LineEnds(line: string, rest: string)
    requires '\n' !in line
    ensures TextLines(line + "\n" + rest) == [line] + TextLines(rest) || (line != "" && line[|line| - 1] == '\r')
    ensures TextLines(line + "\r\n" + rest) == [line] + TextLines(rest)
    ensures TextLines(line) == if line == "" then [] else [line]
  {
    hide Split, DropCr;
    SplitConcat(line, rest, '\n');
    SplitConcat(line + "\r", rest, '\n');
    assert line + ['\n'] + rest == line + "\n" + rest && (line + "\r") + ['\n'] + rest == line + "\r\n" + rest;
    CrDropped(line);
    LinesBehind(line, Split(rest, '\n'), line + "\n" + rest, rest);
    LinesBehind(line + "\r", Split(rest, '\n'), line + "\r\n" + rest, rest);
  }

  lemma CrDropped(line: string)
    ensures DropCr(line + "\r") == line
    ensures line == "" || line[|line| - 1] != '\r' ==> DropCr(line) == line
  {
    assert (line + "\r")[..|line|] == line;
  }

  lemma LinesBehind(first: string, pieces: seq<string>, text: string, rest: string)
    requires Split(text, '\n') == [first] + pieces && Split(rest, '\n') == pieces
    ensures TextLines(text) == [DropCr(first)] + TextLines(rest)
  {
    hide Split, DropCr;
  }

  // ----- what loading must give -----

  ghost predicate LineFor(line: string, group: string) {
    Accepted(line).Some? && Accepted(line).value.group == group
  }

  ghost predicate LineReads(line: string, group: string, n: int) {
    LineFor(line, group) && Lists(Split(Accepted(line).value.ranges, ','), n)
  }

  ghost predicate HasLine(lines: seq<string>, group: string) {
    exists k :: 0 <= k < |lines| && LineFor(lines[k], group)
  }

  ghost predicate ReadBy(lines: seq<string>, group: string, n: int) {
    exists k :: 0 <= k < |lines| && LineReads(lines[k], group, n)
  }

  ghost predicate SubscribedBy(lines: seq<string>, group: string) {
    exists k :: 0 <= k < |lines| && LineFor(lines[k], group) && Accepted(lines[k]).value.subscribed
  }

  /** What is wrong with line number `number`. */
  function LineProblems(line: string, number: nat): seq<Problem> {
    if Ignored(line) then []
    else
      match Accepted(line)
      case None => [MalformedLine(number)]
      case Some(parts) =>
        var pieces := Unreadable(Split(parts.ranges, ','));
        if pieces == [] then [] else [MalformedRanges(parts.group, pieces)]
  }

  function Problems(lines: seq<string>): seq<Problem> {
    if lines == [] then []
    else Problems(lines[..|lines| - 1]) + LineProblems(lines[|lines| - 1], |lines|)
  }

  /** The lines that are reported as malformed, by number: those neither ignored nor readable. */
  lemma {:induction false} MalformedNumbers(lines: seq<string>, n: nat)
    ensures MalformedLine(n) in Problems(lines) <==>
              1 <= n <= |lines| && !Ignored(lines[n - 1]) && Accepted(lines[n - 1]).None?
    decreases |lines|
  {
    hide Ignored, Accepted, Unreadable;
    if lines != [] {
      MalformedNumbers(lines[..|lines| - 1], n);
    }
  }

  ghost predicate BadPieces(line: string, g: string, pieces: seq<string>) {
    LineFor(line, g) && pieces != [] && pieces == Unreadable(Split(Accepted(line).value.ranges, ','))
  }

  lemma BadPiecesReported(line: string, number: nat, g: string, pieces: seq<string>)
    ensures MalformedRanges(g, pieces) in LineProblems(line, number) <==> BadPieces(line, g, pieces)
  {
    hide Unreadable, Split, SplitLine, Ignored;
  }

  /** The ranges that are reported as malformed: those of a readable line, if there are any. */
  lemma {:induction false} MalformedPieces(lines: seq<string>, g: string, pieces: seq<string>)
    ensures MalformedRanges(g, pieces) in Problems(lines) <==>
              exists k :: 0 <= k < |lines| && BadPieces(lines[k], g, pieces)
    decreases |lines|
  {
    hide BadPieces, LineProblems;
    if lines != [] {
      var n := |lines| - 1;
      MalformedPieces(lines[..n], g, pieces);
      BadPiecesReported(lines[n], |lines|, g, pieces);
      assert forall k :: 0 <= k < n ==> lines[..n][k] == lines[k];
    }
  }

  /** Lines that name the same group are merged: what any of them reads is read, and the group is
      subscribed if any of them says so. */
  ghost predicate Loaded(lines: seq<string>, groups: Groups, problems: seq<Problem>) {
    && Sound(groups)
    && (forall g :: g in groups <==> HasLine(lines, g))
    && (forall g, n :: g in groups ==> (Has(groups[g].read, n) <==> ReadBy(lines, g, n)))
    && (forall g :: g in groups ==> (groups[g].subscribed <==> SubscribedBy(lines, g)))
    && problems == Problems(lines)
  }

  lemma PrefixStep(lines: seq<string>, k: nat, group: string, n: int)
    requires k < |lines|
    ensures HasLine(lines[..k + 1], group) <==> HasLine(lines[..k], group) || LineFor(lines[k], group)
    ensures ReadBy(lines[..k + 1], group, n) <==> ReadBy(lines[..k], group, n) || LineReads(lines[k], group, n)
    ensures SubscribedBy(lines[..k + 1], group) <==>
              || SubscribedBy(lines[..k], group)
              || (LineFor(lines[k], group) && Accepted(lines[k]).value.subscribed)
  {
    hide LineFor, LineReads, Accepted;
    var before, after := lines[..k], lines[..k + 1];
    assert forall i :: 0 <= i < k ==> after[i] == before[i];
    assert after[k] == lines[k];
  }

  lemma ProblemsStep(lines: seq<string>, k: nat)
    requires k < |lines|
    ensures Problems(lines[..k + 1]) == Problems(lines[..k]) + LineProblems(lines[k], k + 1)
  {
    assert lines[..k + 1][..k] == lines[..k];
  }

  /** A line that cannot be read changes nothing but the problems. */
  lemma SkippedLine(lines: seq<string>, k: nat, groups: Groups, problems: seq<Problem>)
    requires k < |lines| && Loaded(lines[..k], groups, problems) && Accepted(lines[k]).None?
    ensures Loaded(lines[..k + 1], groups, problems + LineProblems(lines[k], k + 1))
  {
    hide HasLine, ReadBy, SubscribedBy, Problems, LineProblems, Accepted, Has, Lists;
    ProblemsStep(lines, k);
    forall g
      ensures HasLine(lines[..k + 1], g) <==> HasLine(lines[..k], g)
      ensures SubscribedBy(lines[..k + 1], g) <==> SubscribedBy(lines[..k], g)
    {
      PrefixStep(lines, k, g, 0);
    }
    forall g, n ensures ReadBy(lines[..k + 1], g, n) <==> ReadBy(lines[..k], g, n) {
      PrefixStep(lines, k, g, n);
    }
  }

  /** A line that can be read is merged into its group. */
  lemma MergedLine(lines: seq<string>, k: nat, groups: Groups, problems: seq<Problem>, read: Ranges, merged: Ranges)
    requires k < |lines| && Loaded(lines[..k], groups, problems) && Accepted(lines[k]).Some?
    requires Canonical(merged)
    requires var parts := Accepted(lines[k]).value;
             && (forall n :: Has(read, n) <==> Lists(Split(parts.ranges, ','), n))
             && (forall n :: Has(merged, n) <==> Has(ReadOf(groups, parts.group), n) || Has(read, n))
    ensures var parts := Accepted(lines[k]).value;
            var subscribed := parts.group in groups && groups[parts.group].subscribed;
            Loaded(lines[..k + 1], groups[parts.group := GroupState(merged, subscribed || parts.subscribed)],
                   problems + LineProblems(lines[k], k + 1))
  {
    hide HasLine, ReadBy, SubscribedBy, Problems, LineProblems, Accepted, Has, Lists, Canonical;
    ProblemsStep(lines, k);
    var parts := Accepted(lines[k]).value;
    var subscribed := parts.group in groups && groups[parts.group].subscribed;
    var after := groups[parts.group := GroupState(merged, subscribed || parts.subscribed)];
    NothingUnnamed(lines[..k], parts.group);
    forall g
      ensures g in after <==> HasLine(lines[..k + 1], g)
      ensures g in after ==> (after[g].subscribed <==> SubscribedBy(lines[..k + 1], g))
    {
      PrefixStep(lines, k, g, 0);
    }
    forall g, n | g in after ensures Has(after[g].read, n) <==> ReadBy(lines[..k + 1], g, n) {
      PrefixStep(lines, k, g, n);
      if g == parts.group {
        assert Has(after[g].read, n) <==> Has(ReadOf(groups, g), n) || Has(read, n);
        assert Has(read, n) <==> LineReads(lines[k], g, n);
      }
    }
  }

  lemma NothingLoaded(lines: seq<string>)
    requires lines == []
    ensures Loaded(lines, map[], [])
  {
  }

  lemma LoadedSound(lines: seq<string>, groups: Groups, problems: seq<Problem>, group: string)
    requires Loaded(lines, groups, problems)
    ensures Canonical(ReadOf(groups, group))
  {
  }

  lemma NothingUnnamed(lines: seq<string>, group: string)
    ensures !HasLine(lines, group) ==> !SubscribedBy(lines, group) && forall n :: !ReadBy(lines, group, n) && !Has([], n)
  {
  }

  // ----- writing -----

  ghost predicate Ascending(names: seq<string>) {
    forall i, j :: 0 <= i < j < |names| ==> NameLeq(names[i], names[j]) && names[i] != names[j]
  }

  predicate Least(names: set<string>, name: string) {
    name in names && forall m :: m in names ==> NameLeq(name, m)
  }

  lemma {:induction false} LeastExists(names: set<string>)
    requires names != {}
    ensures exists least :: Least(names, least)
  {
    var some :| some in names;
    var rest := names - {some};
    if rest == {} {
      NameTotal(some, some);
      assert names == rest + {some};
      assert Least(names, some);
    } else {
      LeastExists(rest);
      var least :| Least(rest, least);
      NameTotal(some, least);
      NameTotal(some, some);
      var first := if NameLeq(some, least) then some else least;
      forall m | m in names ensures NameLeq(first, m) {
        if m in rest && first == some { NameTransitive(some, least, m); }
        assert m in rest || m == some;
      }
      assert Least(names, first);
    }
  }

  /** The keys in ascending order, as the ordered map yields them. */
  function Ordered(names: set<string>): (r: seq<string>)
    ensures forall name :: name in r <==> name in names
    ensures Ascending(r)
  {
    if names == {} then []
    else
      LeastExists(names);
      LeastUnique(names);
      var least :| least in names && Least(names, least);
      [least] + Ordered(names - {least})
  }

  lemma LeastUnique(names: set<string>)
    ensures forall a, b :: Least(names, a) && Least(names, b) ==> a == b
  {
    forall a, b | Least(names, a) && Least(names, b) ensures a == b {
      NameTotal(a, b);
    }
  }

  /** A subscribed group with nothing read says nothing, and is not written. */
  predicate Written(entry: GroupState) {
    entry.read != [] || !entry.subscribed
  }

  function NewsrcLine(group: string, entry: GroupState): string {
    group + [if entry.subscribed then ':' else '!'] + " " + Print(entry.read)
  }

  function Render(names: seq<string>, groups: Groups): string
    requires forall name :: name in names ==> name in groups
  {
    if names == [] then ""
    else
      var last := names[|names| - 1];
      Render(names[..|names| - 1], groups) +
      if Written(groups[last]) then NewsrcLine(last, groups[last]) + "\n" else ""
  }

  function StoreText(groups: Groups): string {
    Render(Ordered(groups.Keys), groups)
  }

  // ----- the store -----

  class ReadStore {
    var groups: Groups
    var dirty: bool

    ghost predicate Valid()
      reads this
    {
      Sound(groups)
    }

    ghost predicate Reads(group: string, n: int)
      reads this
    {
      Has(ReadOf(groups, group), n)
    }

    constructor ()
      ensures Valid() && groups == map[] && !dirty
    {
      groups := map[];
      dirty := false;
    }

    /** Loads a store from the text of its file, keeping whatever can be read. */
    static method Load(text: string) returns (store: ReadStore, problems: seq<Problem>)
      ensures fresh(store) && !store.dirty
      ensures Loaded(TextLines(text), store.groups, problems)
    {
      hide Loaded, Ignored, TextLines, Lists, Unreadable, Has, Canonical, Trim;
      store := new ReadStore();
      problems := [];
      var lines := TextLines(text);
      NothingLoaded(lines[..0]);
      for k := 0 to |lines|
        invariant fresh(store) && !store.dirty
        invariant Loaded(lines[..k], store.groups, problems)
      {
        var line := lines[k];
        assert problems + [] == problems;
        if Ignored(line) {
          SkippedLine(lines, k, store.groups, problems);
          continue;
        }
        var parts := SplitLine(Trim(line));
        if parts.None? {
          SkippedLine(lines, k, store.groups, problems);
          problems := problems + [MalformedLine(k + 1)];
          continue;
        }
        var group := parts.value.group;
        var read, malformed := Parse(parts.value.ranges);
        var entry := if group in store.groups then store.groups[group] else GroupState([], false);
        LoadedSound(lines[..k], store.groups, problems, group);
        var merged := MergeRanges(entry.read, read);
        MergedLine(lines, k, store.groups, problems, read, merged);
        if malformed != [] {
          problems := problems + [MalformedRanges(group, malformed)];
        }
        store.groups := store.groups[group := GroupState(merged, entry.subscribed || parts.value.subscribed)];
      }
      assert lines[..|lines|] == lines;
    }

    /** The entry of a group, created as subscribed if there is none. */
    function EntryFor(group: string): GroupState
      reads this
    {
      if group in groups then groups[group] else GroupState([], true)
    }

    /** Marks a range of article numbers read. */
    method MarkRangeRead(group: string, low: u64, high: u64)
      requires Valid()
      modifies this
      ensures Valid() && dirty
      ensures forall n :: Reads(group, n) <==> old(Reads(group, n)) || Named(low, high, n)
      ensures groups == old(groups)[group := GroupState(ReadOf(groups, group),
                                                        group in old(groups) ==> old(groups)[group].subscribed)]
    {
      var entry := EntryFor(group);
      var read := new ReadSet.Of(entry.read);
      read.InsertRange(low, high);
      assert forall n :: read.Includes(n) <==> Has(read.ranges, n);
      groups := groups[group := entry.(read := read.ranges)];
      dirty := true;
    }

    /** Marks one article read. */
    method MarkRead(group: string, number: u64)
      requires Valid()
      modifies this
      ensures Valid() && dirty
      ensures forall n :: Reads(group, n) <==> old(Reads(group, n)) || (n == number as int && n > 0)
      ensures groups == old(groups)[group := GroupState(ReadOf(groups, group),
                                                        group in old(groups) ==> old(groups)[group].subscribed)]
    {
      var entry := EntryFor(group);
      var read := new ReadSet.Of(entry.read);
      read.Insert(number);
      assert forall n :: read.Includes(n) <==> Has(read.ranges, n);
      groups := groups[group := entry.(read := read.ranges)];
      dirty := true;
    }

    /** Marks one article unread. */
    method MarkUnread(group: string, number: u64)
      requires Valid()
      modifies this
      ensures Valid() && dirty
      ensures forall n :: Reads(group, n) <==> old(Reads(group, n)) && n != number as int
      ensures groups == old(groups)[group := GroupState(ReadOf(groups, group),
                                                        group in old(groups) ==> old(groups)[group].subscribed)]
    {
      var entry := EntryFor(group);
      var read := new ReadSet.Of(entry.read);
      read.Remove(number);
      assert forall n :: read.Includes(n) <==> Has(read.ranges, n);
      groups := groups[group := entry.(read := read.ranges)];
      dirty := true;
    }

    /** Drops the article numbers below `low`. The store becomes dirty exactly when something was
        dropped. */
    method ForgetExpired(group: string, low: u64)
      requires Valid()
      modifies this
      ensures Valid()
      ensures forall n :: Reads(group, n) <==> old(Reads(group, n)) && n >= low as int
      ensures groups == if group in old(groups)
                        then old(groups)[group := old(groups)[group].(read := ReadOf(groups, group))]
                        else old(groups)
      ensures dirty <==> old(dirty) || groups != old(groups)
    {
      hide Has, Canonical, Members;
      PositiveOnly(ReadOf(groups, group));
      if low <= 1 {
        assert group in groups ==> groups == groups[group := groups[group].(read := ReadOf(groups, group))];
        return;
      }
      if group !in groups {
        NothingHere();
        return;
      }
      var entry := groups[group];
      var read := new ReadSet.Of(entry.read);
      var before := |read.ranges|;
      var readBefore := read.Count();
      read.RemoveRange(1, low - 1);
      assert forall n :: read.Includes(n) <==> Has(read.ranges, n);
      groups := groups[group := entry.(read := read.ranges)];
      if |read.ranges| != before || read.Count() != readBefore {
        dirty := true;
      } else {
        SameCountSame(entry.read, read.ranges);
        assert groups == old(groups);
      }
    }

    /** The store as `.newsrc` text, one line a group, in order. */
    method ToNewsrc() returns (out: string)
      ensures out == StoreText(groups)
    {
      out := "";
      var names := Ordered(groups.Keys);
      for k := 0 to |names|
        invariant out == Render(names[..k], groups)
      {
        var group := names[k];
        assert names[..k + 1][..k] == names[..k];
        var separator := if groups[group].subscribed then ':' else '!';
        if groups[group].read == [] && groups[group].subscribed {
          continue;
        }
        var printed := Display(groups[group].read);
        out := out + (group + [separator] + " " + printed + "\n");
      }
      assert names[..|names|] == names;
    }
  }

  /** Dropping nothing, by count, is dropping nothing at all. */
  lemma SameCountSame(before: Ranges, after: Ranges)
    requires Canonical(before) && Canonical(after)
    requires forall n :: Has(after, n) ==> Has(before, n)
    requires |Members(after, 1, U64_MAX)| == |Members(before, 1, U64_MAX)|
    ensures after == before
  {
    var a, b := Members(after, 1, U64_MAX), Members(before, 1, U64_MAX);
    SubsetCardinality(a, b);
    forall n ensures Has(after, n) <==> Has(before, n) {
      if Has(before, n) {
        MembersInRange(before, n);
        assert n in b;
        assert n in a;
      }
    }
    RangesUnique(after, before);
  }

  /** Adds ranges to a read set one by one. */
  method MergeRanges(into: Ranges, from: Ranges) returns (merged: Ranges)
    requires Canonical(into) && Canonical(from)
    ensures Canonical(merged)
    ensures forall n :: Has(merged, n) <==> Has(into, n) || Has(from, n)
  {
    var read := new ReadSet.Of(into);
    for k := 0 to |from|
      invariant fresh(read) && read.Valid()
      invariant forall n :: Has(read.ranges, n) <==> Has(into, n) || Has(from[..k], n)
    {
      assert from[..k + 1] == from[..k] + [from[k]];
      read.InsertRange(from[k].low, from[k].high);
      assert forall n :: read.Includes(n) <==> Has(read.ranges, n);
      HasOneMore(from[..k], from[k]);
    }
    assert from[..|from|] == from;
    merged := read.ranges;
  }

  lemma HasOneMore(ranges: Ranges, r: Span)
    ensures forall n :: Has(ranges + [r], n) <==> Has(ranges, n) || r.low as int <= n <= r.high as int
  {
    forall n ensures Has(ranges + [r], n) <==> Has(ranges, n) || r.low as int <= n <= r.high as int {
      if Has(ranges, n) {
        var k :| 0 <= k < |ranges| && ranges[k].low as int <= n <= ranges[k].high as int;
        assert (ranges + [r])[k] == ranges[k];
      }
      assert (ranges + [r])[|ranges|] == r;
    }
  }

  // ----- writing, then loading -----

  /** A name that a line of the file can carry. */
  predicate GoodName(name: string) {
    && name != "" && Tight(name) && name[0] != '#'
    && '\n' !in name && Separator(name) == |name|
  }

  lemma SeparatorIs(text: string, i: nat)
    requires i <= |text| && (i < |text| ==> text[i] in {':', '!'})
    requires forall k :: 0 <= k < i ==> text[k] !in {':', '!'}
    ensures Separator(text) == i
  {
  }

  /** Every group a line yields has a good name. */
  lemma AcceptedIsGood(line: string)
    requires Accepted(line).Some? && '\n' !in line
    ensures GoodName(Accepted(line).value.group)
  {
    var trimmed := Trim(line);
    TrimTight(line);
    var position := Separator(trimmed);
    var named := trimmed[..position];
    var group := Trim(named);
    TrimTight(named);
    assert TrimStart(named) == named;
    SeparatorIs(group, |group|);
    if '\n' in group {
      TrimWithin(named, '\n');
      TrimWithin(line, '\n');
    }
  }

  /** The line of a group with a good name is read back as written. */
  lemma WrittenLineReads(group: string, entry: GroupState)
    requires GoodName(group) && Canonical(entry.read)
    ensures var accepted := Accepted(NewsrcLine(group, entry));
            && accepted.Some? && accepted.value.group == group && accepted.value.subscribed == entry.subscribed
            && Unreadable(Split(accepted.value.ranges, ',')) == []
            && forall n :: Lists(Split(accepted.value.ranges, ','), n) <==> Has(entry.read, n)
  {
    hide Print, Unreadable, Lists, Has, Canonical, Accepted, GoodName, Split;
    var printed := Print(entry.read);
    PrintedCharacters(entry.read);
    LineAccepted(group, entry.subscribed, printed);
    PrintedReads(entry.read);
    if printed != "" {
      LeadingBlank(Split(printed, ','));
      SpacedSplit(printed);
    }
  }

  lemma SpacedSplit(text: string)
    ensures Split(" " + text, ',') == Prepend(' ', Split(text, ','))
  {
  }

  lemma LineAccepted(group: string, subscribed: bool, printed: string)
    requires GoodName(group) && (printed != "" ==> IsDigit(printed[|printed| - 1]))
    ensures Accepted(group + [if subscribed then ':' else '!'] + " " + printed) ==
            Some(ParsedLine(group, subscribed, if printed == "" then "" else " " + printed))
  {
    hide Trim, IsSpace, IsDigit, Separator;
    var flag := [if subscribed then ':' else '!'];
    var rest := if printed == "" then "" else " " + printed;
    var kept := group + flag + rest;
    TrimmedLine(group, flag[0], printed);
    SeparatorIs(kept, |group|);
    assert kept[..|group|] == group && kept[|group| + 1..] == rest && kept[|group|] == flag[0];
    TrimTight(group);
  }

  lemma TrimmedLine(group: string, flag: char, printed: string)
    requires group != "" && !IsSpace(group[0]) && flag in {':', '!'}
    requires printed != "" ==> IsDigit(printed[|printed| - 1])
    ensures Trim(group + [flag] + " " + printed) == group + [flag] + if printed == "" then "" else " " + printed
  {
  }

  /** The lines that are written, in order. */
  function WrittenLines(names: seq<string>, groups: Groups): seq<string>
    requires forall name :: name in names ==> name in groups
  {
    if names == [] then []
    else
      var last := names[|names| - 1];
      WrittenLines(names[..|names| - 1], groups) +
      if Written(groups[last]) then [NewsrcLine(last, groups[last])] else []
  }

  lemma PlainLine(group: string, entry: GroupState)
    requires '\n' !in group
    ensures '\n' !in NewsrcLine(group, entry) && DropCr(NewsrcLine(group, entry)) == NewsrcLine(group, entry)
  {
    PrintedCharacters(entry.read);
  }

  lemma LineAppended(text: string, line: string, lines: seq<string>)
    requires Split(text, '\n') == lines + [""] && '\n' !in line
    ensures Split(text + (line + "\n"), '\n') == lines + [line] + [""]
  {
    hide Split;
    SplitAppend(text, line, '\n');
    SplitConcat(text + line, "", '\n');
    assert (text + line) + ['\n'] + "" == text + (line + "\n");
    assert Split("", '\n') == [""];
    assert "" + line == line;
    assert (lines + [""])[..|lines|] == lines;
  }

  lemma {:induction false} RenderedPieces(names: seq<string>, groups: Groups)
    requires forall name :: name in names ==> name in groups
    requires forall name :: name in names && Written(groups[name]) ==> '\n' !in name
    ensures Split(Render(names, groups), '\n') == WrittenLines(names, groups) + [""]
    ensures forall line :: line in WrittenLines(names, groups) ==> DropCr(line) == line
    decreases |names|
  {
    if names != [] {
      hide NewsrcLine, DropCr, Written, Split;
      var init, last := names[..|names| - 1], names[|names| - 1];
      RenderedPieces(init, groups);
      if Written(groups[last]) {
        var line := NewsrcLine(last, groups[last]);
        PlainLine(last, groups[last]);
        LineAppended(Render(init, groups), line, WrittenLines(init, groups));
      } else {
        assert Render(names, groups) == Render(init, groups);
        assert WrittenLines(names, groups) == WrittenLines(init, groups);
      }
    }
  }

  lemma RenderedLines(groups: Groups)
    requires forall name :: name in groups && Written(groups[name]) ==> '\n' !in name
    ensures TextLines(StoreText(groups)) == WrittenLines(Ordered(groups.Keys), groups)
  {
    RenderedPieces(Ordered(groups.Keys), groups);
  }

  lemma {:induction false} WrittenLinesAre(names: seq<string>, groups: Groups, line: string)
    requires forall name :: name in names ==> name in groups
    ensures line in WrittenLines(names, groups) <==>
              exists name :: name in names && Written(groups[name]) && line == NewsrcLine(name, groups[name])
    decreases |names|
  {
    hide NewsrcLine, Written;
    if names != [] {
      var n := |names| - 1;
      WrittenLinesAre(names[..n], groups, line);
      assert forall name :: name in names <==> name in names[..n] || name == names[n] by {
        assert names == names[..n] + [names[n]];
      }
    }
  }

  lemma {:induction false} NoProblems(lines: seq<string>)
    requires forall line :: line in lines ==> Accepted(line).Some? && Unreadable(Split(Accepted(line).value.ranges, ',')) == []
    ensures Problems(lines) == []
    decreases |lines|
  {
    hide Ignored, Unreadable;
    if lines != [] {
      NoProblems(lines[..|lines| - 1]);
    }
  }

  /** The groups that are written. */
  function WrittenPart(groups: Groups): Groups {
    map g | g in groups && Written(groups[g]) :: groups[g]
  }

  predicate GoodNames(groups: Groups) {
    forall g :: g in groups && Written(groups[g]) ==> GoodName(g)
  }

  /** Each line that is written belongs to one written group, and says what that group holds. */
  lemma WrittenLineFor(groups: Groups, line: string, g: string, n: int)
    requires Sound(groups) && GoodNames(groups) && line in WrittenLines(Ordered(groups.Keys), groups)
    ensures LineFor(line, g) ==> g in groups && Written(groups[g]) && line == NewsrcLine(g, groups[g])
    ensures LineFor(line, g) ==> (LineReads(line, g, n) <==> Has(groups[g].read, n))
    ensures LineFor(line, g) ==> Accepted(line).value.subscribed == groups[g].subscribed
    ensures Accepted(line).Some? && Unreadable(Split(Accepted(line).value.ranges, ',')) == []
  {
    hide Accepted, NewsrcLine, Unreadable, Lists, Has, Ordered, WrittenLines, Canonical, GoodName;
    WrittenLinesAre(Ordered(groups.Keys), groups, line);
    var name :| name in groups && Written(groups[name]) && line == NewsrcLine(name, groups[name]);
    WrittenLineReads(name, groups[name]);
  }

  lemma WrittenGroupHasLine(groups: Groups, g: string) returns (k: nat)
    requires Sound(groups) && GoodNames(groups) && g in groups && Written(groups[g])
    ensures var lines := WrittenLines(Ordered(groups.Keys), groups);
            k < |lines| && LineFor(lines[k], g)
  {
    hide Accepted, NewsrcLine, Unreadable, Lists, Has, WrittenLines, Canonical, GoodName;
    var lines := WrittenLines(Ordered(groups.Keys), groups);
    WrittenLinesAre(Ordered(groups.Keys), groups, NewsrcLine(g, groups[g]));
    k :| 0 <= k < |lines| && lines[k] == NewsrcLine(g, groups[g]);
    WrittenLineReads(g, groups[g]);
  }

  /** With good names, loading what was written restores every written group. */
  lemma GoodNamesRestored(groups: Groups, loaded: Groups, problems: seq<Problem>)
    requires Sound(groups) && GoodNames(groups) && Loaded(TextLines(StoreText(groups)), loaded, problems)
    ensures loaded == WrittenPart(groups) && problems == []
  {
    hide Accepted, Unreadable, Lists, Has, Ordered, WrittenLines, Canonical, LineFor, LineReads, Problems, TextLines,
      StoreText;
    var lines := WrittenLines(Ordered(groups.Keys), groups);
    RenderedLines(groups);
    forall line | line in lines
      ensures Accepted(line).Some? && Unreadable(Split(Accepted(line).value.ranges, ',')) == []
    {
      WrittenLineFor(groups, line, "", 0);
    }
    NoProblems(lines);
    forall g ensures g in loaded <==> g in WrittenPart(groups) {
      if g in loaded {
        var k :| 0 <= k < |lines| && LineFor(lines[k], g);
        WrittenLineFor(groups, lines[k], g, 0);
      } else if g in WrittenPart(groups) {
        var k := WrittenGroupHasLine(groups, g);
      }
    }
    forall g | g in loaded ensures loaded[g] == groups[g] {
      RestoredGroup(groups, loaded, problems, g);
    }
  }

  lemma RestoredGroup(groups: Groups, loaded: Groups, problems: seq<Problem>, g: string)
    requires Sound(groups) && GoodNames(groups) && g in loaded && g in groups && Written(groups[g])
    requires Loaded(WrittenLines(Ordered(groups.Keys), groups), loaded, problems)
    ensures loaded[g] == groups[g]
  {
    hide Accepted, Unreadable, Lists, Has, Ordered, WrittenLines, Canonical, Problems;
    var lines := WrittenLines(Ordered(groups.Keys), groups);
    var line := WrittenGroupHasLine(groups, g);
    WrittenLineFor(groups, lines[line], g, 0);
    forall n ensures Has(loaded[g].read, n) <==> Has(groups[g].read, n) {
      WrittenLineFor(groups, lines[line], g, n);
      if ReadBy(lines, g, n) {
        var k :| 0 <= k < |lines| && LineReads(lines[k], g, n);
        WrittenLineFor(groups, lines[k], g, n);
      }
    }
    RangesUnique(loaded[g].read, groups[g].read);
    if SubscribedBy(lines, g) {
      var k :| 0 <= k < |lines| && LineFor(lines[k], g) && Accepted(lines[k]).value.subscribed;
      WrittenLineFor(groups, lines[k], g, 0);
    }
  }

  /** No group that was loaded has a bad name. */
  lemma LoadedNamesGood(text: string, loaded: Groups, problems: seq<Problem>, g: string)
    requires Loaded(TextLines(text), loaded, problems) && g in loaded
    ensures GoodName(g)
  {
    hide Accepted, GoodName, TextLines;
    var lines := TextLines(text);
    var k :| 0 <= k < |lines| && LineFor(lines[k], g);
    LinePlain(text, k);
    AcceptedIsGood(lines[k]);
  }

  lemma LinePlain(text: string, k: nat)
    requires k < |TextLines(text)|
    ensures '\n' !in TextLines(text)[k]
  {
    hide Split, DropCr;
    SplitPieces(text, '\n', k);
    DropCrPlain(Split(text, '\n')[k]);
  }

  lemma DropCrPlain(line: string)
    ensures '\n' !in line ==> '\n' !in DropCr(line)
  {
  }

  /** Loading what was written restores exactly the written groups if and only if each of them has a
      name that a line can carry; the groups left out have read nothing. */
  lemma StoreRoundTrip(groups: Groups, loaded: Groups, problems: seq<Problem>)
    requires Sound(groups) && Loaded(TextLines(StoreText(groups)), loaded, problems)
    ensures loaded == WrittenPart(groups) <==> GoodNames(groups)
    ensures GoodNames(groups) ==>
              && problems == []
              && (forall g :: g in loaded <==> g in groups && (groups[g].read != [] || !groups[g].subscribed))
              && forall g :: (if g in loaded then loaded[g] else GroupState([], true)) ==
                             if g in groups then groups[g] else GroupState([], true)
  {
    hide Loaded, StoreText, TextLines, GoodName, Sound;
    if loaded == WrittenPart(groups) {
      forall g | g in groups && Written(groups[g]) ensures GoodName(g) {
        assert g in WrittenPart(groups);
        LoadedNamesGood(StoreText(groups), loaded, problems, g);
      }
    }
    if GoodNames(groups) {
      GoodNamesRestored(groups, loaded, problems);
    }
  }
}
