/** Wildmat patterns (RFC 3977 section 4): the single-backtrack matcher against the declarative
    meaning of `*` and `?`, and the comma-separated lists built from sub-patterns. */
module Wildmats {
  import opened Options
  import opened Strings

  // ----- one sub-pattern -----

  /** What a sub-pattern means: `*` is any run of characters, `?` is any one, the rest is itself. */
  ghost predicate Glob(pattern: string, name: string) {
    GlobFrom(pattern, 0, name, 0)
  }

  /** The pattern from `i` on matches the name from `a` on. */
  ghost predicate GlobFrom(pattern: string, i: nat, name: string, a: nat)
    requires i <= |pattern| && a <= |name|
    decreases |pattern| - i, |name| - a
  {
    if i == |pattern| then a == |name|
    else if pattern[i] == '*' then
      GlobFrom(pattern, i + 1, name, a) || (a < |name| && GlobFrom(pattern, i, name, a + 1))
    else a < |name| && FitsChar(pattern[i], name[a]) && GlobFrom(pattern, i + 1, name, a + 1)
  }

  /** A star stands for some run of characters: where the rest matches from, after that run. */
  lemma {:induction false} StarIsSomeRun(pattern: string, s: nat, name: string, a: nat) returns (b: nat)
    requires s < |pattern| && pattern[s] == '*' && a <= |name|
    ensures a <= b <= |name|
    ensures GlobFrom(pattern, s, name, a) ==> GlobFrom(pattern, s + 1, name, b)
    ensures forall c: nat, rest: nat :: a <= c <= |name| && rest == s + 1 && GlobFrom(pattern, rest, name, c) ==>
              GlobFrom(pattern, s, name, a)
    decreases |name| - a
  {
    b := a;
    if a < |name| {
      var later := StarIsSomeRun(pattern, s, name, a + 1);
      if !GlobFrom(pattern, s + 1, name, a) {
        b := later;
      }
    }
  }

  predicate FitsChar(p: char, c: char) {
    p == '?' || p == c
  }

  /** `name` reads at `a` what the star-free stretch `pattern[i..p]` asks for. */
  ghost predicate Literal(pattern: string, i: nat, p: nat, name: string, a: nat) {
    && i <= p <= |pattern| && a + (p - i) <= |name|
    && forall j :: i <= j < p ==> pattern[j] != '*' && FitsChar(pattern[j], name[a + (j - i)])
  }

  lemma {:induction false} SkipLiteral(pattern: string, i: nat, p: nat, name: string, a: nat)
    requires Literal(pattern, i, p, name, a)
    ensures GlobFrom(pattern, i, name, a) <==> GlobFrom(pattern, p, name, a + (p - i))
    decreases p - i
  {
    if i < p {
      SkipLiteral(pattern, i + 1, p, name, a + 1);
    }
  }

  /** A pattern without stars matches a name of its own length, `?` any character and every other itself. */
  lemma StarlessIff(pattern: string, name: string)
    requires '*' !in pattern
    ensures Glob(pattern, name) <==>
              |pattern| == |name| && forall k :: 0 <= k < |name| ==> pattern[k] == '?' || pattern[k] == name[k]
  {
    hide GlobFrom;
    if Glob(pattern, name) {
      SegmentFits(pattern, 0, |pattern|, name, 0);
      SkipLiteral(pattern, 0, |pattern|, name, 0);
      GlobEnd(pattern, name, |pattern|);
    }
    if |pattern| == |name| && forall k :: 0 <= k < |name| ==> pattern[k] == '?' || pattern[k] == name[k] {
      assert Literal(pattern, 0, |pattern|, name, 0);
      SkipLiteral(pattern, 0, |pattern|, name, 0);
      GlobEnd(pattern, name, |name|);
    }
  }

  lemma GlobEnd(pattern: string, name: string, a: nat)
    requires a <= |name|
    ensures GlobFrom(pattern, |pattern|, name, a) <==> a == |name|
  {
  }

  /** A star that matches a suffix matches every longer one. */
  lemma {:induction false} StarAbsorbs(pattern: string, s: nat, name: string, a: nat, b: nat)
    requires s < |pattern| && pattern[s] == '*' && a <= b <= |name|
    ensures GlobFrom(pattern, s, name, b) ==> GlobFrom(pattern, s, name, a)
    decreases b - a
  {
    if a < b {
      StarAbsorbs(pattern, s, name, a + 1, b);
    }
  }

  /** A match of a pattern that starts with a star-free stretch starts with that stretch. */
  lemma {:induction false} SegmentFits(pattern: string, i: nat, p: nat, name: string, a: nat)
    requires i <= p <= |pattern| && a <= |name| && forall j :: i <= j < p ==> pattern[j] != '*'
    requires GlobFrom(pattern, i, name, a)
    ensures Literal(pattern, i, p, name, a)
    decreases p - i
  {
    if i < p {
      SegmentFits(pattern, i + 1, p, name, a + 1);
    }
  }

  /** The stretch since the last star sits at its leftmost place, so a second star may forget the
      first: one backtracking point is enough. */
  lemma ForgetStar(pattern: string, s: nat, p: nat, name: string, resume: nat)
    requires s < |pattern| && pattern[s] == '*' && Literal(pattern, s + 1, p, name, resume)
    requires p < |pattern| && pattern[p] == '*'
    ensures GlobFrom(pattern, s, name, resume) <==> GlobFrom(pattern, p, name, resume + (p - s - 1))
  {
    SkipLiteral(pattern, s + 1, p, name, resume);
    if GlobFrom(pattern, s, name, resume) {
      var b := StarIsSomeRun(pattern, s, name, resume);
      SegmentFits(pattern, s + 1, p, name, b);
      SkipLiteral(pattern, s + 1, p, name, b);
      StarAbsorbs(pattern, p, name, resume + (p - s - 1), b + (p - s - 1));
    }
  }

  /** At the end of the name, the stretch since the last star is where it has to be. */
  lemma TailMatch(pattern: string, s: nat, p: nat, name: string, resume: nat)
    requires s < p <= |pattern| && pattern[s] == '*' && Literal(pattern, s + 1, p, name, resume)
    requires resume + (p - s - 1) == |name|
    ensures GlobFrom(pattern, s, name, resume) <==> GlobFrom(pattern, p, name, |name|)
  {
    SkipLiteral(pattern, s + 1, p, name, resume);
    if GlobFrom(pattern, s, name, resume) {
      var b := StarIsSomeRun(pattern, s, name, resume);
      SegmentFits(pattern, s + 1, p, name, b);
    }
  }

  lemma {:induction false} OnlyStarsMatchNothing(pattern: string, i: nat, name: string)
    requires i <= |pattern|
    ensures GlobFrom(pattern, i, name, |name|) <==> forall j :: i <= j < |pattern| ==> pattern[j] == '*'
    decreases |pattern| - i
  {
    if i < |pattern| {
      OnlyStarsMatchNothing(pattern, i + 1, name);
    }
  }

  /** The name read so far, in terms of the last star met: where the match must continue from. */
  ghost predicate Reading(pattern: string, name: string, p: nat, n: nat, star: Option<nat>, resume: nat) {
    && p <= |pattern| && resume <= n <= |name|
    && match star
       case None => resume == 0 && n == p && Literal(pattern, 0, p, name, 0)
       case Some(s) =>
         && s < p && pattern[s] == '*' && n == resume + (p - s - 1)
         && Literal(pattern, s + 1, p, name, resume)
         && (Glob(pattern, name) <==> GlobFrom(pattern, s, name, resume))
  }

  lemma ReadStar(pattern: string, name: string, p: nat, n: nat, star: Option<nat>, resume: nat)
    requires Reading(pattern, name, p, n, star, resume) && p < |pattern| && pattern[p] == '*'
    ensures Reading(pattern, name, p + 1, n, Some(p), n)
  {
    if star.Some? {
      ForgetStar(pattern, star.value, p, name, resume);
    } else {
      SkipLiteral(pattern, 0, p, name, 0);
    }
  }

  lemma ReadMismatch(pattern: string, name: string, p: nat, n: nat, star: Option<nat>, resume: nat)
    requires Reading(pattern, name, p, n, star, resume) && n < |name|
    requires p < |pattern| ==> pattern[p] != '*' && !FitsChar(pattern[p], name[n])
    ensures if star.Some? then Reading(pattern, name, star.value + 1, resume + 1, star, resume + 1)
            else !Glob(pattern, name)
  {
    if star.Some? {
      SkipLiteral(pattern, star.value + 1, p, name, resume);
    } else {
      SkipLiteral(pattern, 0, p, name, 0);
    }
  }

  lemma ReadEnd(pattern: string, name: string, p: nat, star: Option<nat>, resume: nat)
    requires Reading(pattern, name, p, |name|, star, resume)
    ensures Glob(pattern, name) <==> forall j :: p <= j < |pattern| ==> pattern[j] == '*'
  {
    if star.Some? {
      TailMatch(pattern, star.value, p, name, resume);
    } else {
      SkipLiteral(pattern, 0, p, name, 0);
    }
    OnlyStarsMatchNothing(pattern, p, name);
  }

  /** Rounds spent so far, bounded by how far the two positions have got. */
  ghost predicate Paced(steps: nat, resume: nat, p: nat, width: nat) {
    steps <= resume * width + p
  }

  lemma PaceUp(steps: nat, resume: nat, p: nat, width: nat, resume': nat, p': nat)
    requires Paced(steps, resume, p, width) && p < width
    requires resume <= resume' && (resume == resume' ==> p < p')
    requires p < p' || p + 1 - p' <= width
    ensures Paced(steps + 1, resume', p', width)
  {
    if resume < resume' {
      RowUp(resume, resume', width);
    }
  }

  lemma RowUp(a: nat, b: nat, width: nat)
    requires a < b
    ensures a * width + width <= b * width
    decreases b
  {
    assert b * width == (b - 1) * width + width;
    if a < b - 1 {
      RowUp(a, b - 1, width);
    }
  }

  /** Matches one `*`/`?` sub-pattern against a name, with one backtracking point. `steps` counts
      the rounds of the main loop. */
  method MatchesOne(pattern: string, name: string) returns (matched: bool, ghost steps: nat)
    ensures matched <==> Glob(pattern, name)
    ensures steps <= (|name| + 1) * (|pattern| + 1)
  {
    hide Glob, GlobFrom, Reading, Paced;
    var p: nat, n: nat := 0, 0;
    var star: Option<nat> := None;
    var resume: nat := 0;
    ghost var width := |pattern| + 1;
    steps := 0;
    ReadStart(pattern, name);
    while n < |name|
      invariant p <= |pattern| && resume <= n <= |name|
      invariant star.Some? ==> star.value < p
      invariant Reading(pattern, name, p, n, star, resume) && Paced(steps, resume, p, width)
      decreases |name| - resume, |pattern| - p
    {
      if p < |pattern| && pattern[p] == '*' {
        ReadStar(pattern, name, p, n, star, resume);
        PaceUp(steps, resume, p, width, n, p + 1);
        star := Some(p);
        resume := n;
        p := p + 1;
      } else if p < |pattern| && FitsChar(pattern[p], name[n]) {
        ReadChar(pattern, name, p, n, star, resume);
        PaceUp(steps, resume, p, width, resume, p + 1);
        p := p + 1;
        n := n + 1;
      } else {
        ReadMismatch(pattern, name, p, n, star, resume);
        if star.None? {
          PaceBound(steps, resume, p, |pattern|, |name|);
          return false, steps;
        }
        PaceUp(steps, resume, p, width, resume + 1, star.value + 1);
        p := star.value + 1;
        resume := resume + 1;
        n := resume;
      }
      steps := steps + 1;
    }
    PaceBound(steps, resume, p, |pattern|, |name|);
    ReadEnd(pattern, name, p, star, resume);
    ghost var tail := p;
    while p < |pattern| && pattern[p] == '*'
      invariant tail <= p <= |pattern| && forall j :: tail <= j < p ==> pattern[j] == '*'
    {
      p := p + 1;
    }
    return p == |pattern|, steps;
  }

  lemma ReadStart(pattern: string, name: string)
    ensures Reading(pattern, name, 0, 0, None, 0) && Paced(0, 0, 0, |pattern| + 1)
  {
  }

  lemma ReadChar(pattern: string, name: string, p: nat, n: nat, star: Option<nat>, resume: nat)
    requires Reading(pattern, name, p, n, star, resume) && n < |name|
    requires p < |pattern| && pattern[p] != '*' && FitsChar(pattern[p], name[n])
    ensures Reading(pattern, name, p + 1, n + 1, star, resume)
  {
  }

  lemma PaceBound(steps: nat, resume: nat, p: nat, plen: nat, nlen: nat)
    requires Paced(steps, resume, p, plen + 1) && resume <= nlen && p <= plen
    ensures steps <= (nlen + 1) * (plen + 1)
  {
  }

  // ----- lists of sub-patterns -----

  /** The longest pattern that may be sent. */
  const MAX_LEN: nat := 400

  datatype Wildmat = Wildmat(text: string)

  predicate IsGraphic(c: char) {
    '!' <= c <= '~'
  }

  predicate Sendable(text: string) {
    text != "" && |text| <= MAX_LEN && forall k :: 0 <= k < |text| ==> IsGraphic(text[k])
  }

  function Parse(pattern: string): (r: Result<Wildmat, string>)
    ensures r.Ok? <==> Sendable(pattern)
    ensures r.Ok? ==> r.value.text == pattern
  {
    if pattern == "" || |pattern| > MAX_LEN || !(forall k :: 0 <= k < |pattern| ==> IsGraphic(pattern[k])) then
      Err(pattern)
    else Ok(Wildmat(pattern))
  }

  /** What is accepted is 1 to 400 characters from `!` to `~`. */
  lemma ParseIff(pattern: string)
    ensures Parse(pattern).Ok? <==> 1 <= |pattern| <= 400 && forall k :: 0 <= k < |pattern| ==> 33 <= pattern[k] as int <= 126
  {
  }

  /** So an accepted pattern is one argument of a command: nothing in it ends the argument or the line. */
  lemma OneArgument(pattern: string)
    requires Parse(pattern).Ok?
    ensures Split("LIST ACTIVE " + pattern, ' ') == ["LIST", "ACTIVE", pattern]
    ensures '\r' !in pattern && '\n' !in pattern
  {
    hide Split;
    assert ' ' !in pattern;
    SplitConcat("LIST", "ACTIVE " + pattern, ' ');
    SplitConcat("ACTIVE", pattern, ' ');
    assert "LIST" + [' '] + ("ACTIVE " + pattern) == "LIST ACTIVE " + pattern;
    assert "ACTIVE" + [' '] + pattern == "ACTIVE " + pattern;
    assert ' ' !in "LIST" && ' ' !in "ACTIVE";
  }

  function Texts(patterns: seq<Wildmat>): (texts: seq<string>)
    ensures |texts| == |patterns|
    ensures forall k :: 0 <= k < |texts| ==> texts[k] == patterns[k].text
  {
    seq(|patterns|, k requires 0 <= k < |patterns| => patterns[k].text)
  }

  /** Joins patterns into one wildmat; no patterns means no wildmat, and a list too long to send
      is refused. */
  function JoinPatterns(patterns: seq<Wildmat>): Result<Option<Wildmat>, string> {
    if patterns == [] then Ok(None)
    else
      match Parse(Join(Texts(patterns), ','))
      case Ok(joined) => Ok(Some(joined))
      case Err(text) => Err(text)
  }

  predicate Negated(item: string) {
    item != "" && item[0] == '!'
  }

  function Bare(item: string): string {
    if Negated(item) then item[1..] else item
  }

  ghost predicate ItemMatches(item: string, name: string) {
    Glob(Bare(item), name)
  }

  /** Item `i` is the last that matches the name. */
  ghost predicate Decides(items: seq<string>, name: string, i: int) {
    && 0 <= i < |items| && ItemMatches(items[i], name)
    && forall j :: i < j < |items| ==> !ItemMatches(items[j], name)
  }

  /** A list selects a name when the last item that matches it is not a negated one. */
  ghost predicate Selects(items: seq<string>, name: string) {
    exists i :: Decides(items, name, i) && !Negated(items[i])
  }

  ghost predicate Chooses(pattern: Wildmat, name: string) {
    Selects(Split(pattern.text, ','), name)
  }

  /** Whether `name` matches a pattern: the last sub-pattern that matches decides. */
  method Matches(pattern: Wildmat, name: string) returns (matched: bool)
    ensures matched <==> Chooses(pattern, name)
  {
    matched := false;
    var items := Split(pattern.text, ',');
    for k := 0 to |items|
      invariant matched <==> Selects(items[..k], name)
    {
      var hit, _ := MatchesOne(Bare(items[k]), name);
      SelectsStep(items, k, name);
      if hit {
        matched := !Negated(items[k]);
      }
    }
    assert items[..|items|] == items;
  }

  lemma SelectsStep(items: seq<string>, k: nat, name: string)
    requires k < |items|
    ensures Selects(items[..k + 1], name) <==>
            if ItemMatches(items[k], name) then !Negated(items[k]) else Selects(items[..k], name)
  {
    var before, after := items[..k], items[..k + 1];
    if ItemMatches(items[k], name) {
      assert Decides(after, name, k);
    } else {
      assert forall i :: 0 <= i < k ==> after[i] == before[i];
      if Selects(before, name) {
        var i :| Decides(before, name, i) && !Negated(before[i]);
        assert Decides(after, name, i);
      }
      if Selects(after, name) {
        var i :| Decides(after, name, i) && !Negated(after[i]);
        assert Decides(before, name, i);
      }
    }
  }

  // ----- one list or several -----

  /** Appending a list: it has the last word where it matches, and is silent elsewhere. */
  lemma SelectsConcat(a: seq<string>, b: seq<string>, name: string)
    ensures Selects(a + b, name) <==>
            Selects(b, name) || (Selects(a, name) && !Touches(b, name))
  {
    hide ItemMatches, Negated;
    var c := a + b;
    assert forall j :: 0 <= j < |b| ==> c[|a| + j] == b[j];
    if Selects(c, name) {
      var i :| Decides(c, name, i) && !Negated(c[i]);
      if i < |a| {
        assert forall j :: 0 <= j < |a| ==> c[j] == a[j];
        assert Decides(a, name, i);
        forall j | 0 <= j < |b| ensures !ItemMatches(b[j], name) {
          assert c[|a| + j] == b[j];
        }
      } else {
        assert Decides(b, name, i - |a|);
      }
    }
    if Selects(b, name) {
      var i :| Decides(b, name, i) && !Negated(b[i]);
      forall j | |a| + i < j < |c| ensures !ItemMatches(c[j], name) {
        assert c[j] == b[j - |a|];
      }
      assert Decides(c, name, |a| + i);
    } else if Selects(a, name) && !Touches(b, name) {
      var i :| Decides(a, name, i) && !Negated(a[i]);
      forall j | i < j < |c| ensures !ItemMatches(c[j], name) {
        assert j >= |a| ==> c[j] == b[j - |a|];
      }
      assert Decides(c, name, i);
    }
  }

  /** Some item matches, negated or not. */
  ghost predicate Touches(items: seq<string>, name: string) {
    exists j :: 0 <= j < |items| && ItemMatches(items[j], name)
  }

  /** Pattern `i` chooses the name, but a later pattern matches it. */
  ghost predicate ChosenLast(patterns: seq<Wildmat>, name: string, i: int) {
    && 0 <= i < |patterns| && Chooses(patterns[i], name)
    && forall j :: i < j < |patterns| ==> !Touches(Split(patterns[j].text, ','), name)
  }

  /** One joined wildmat selects a name exactly when some pattern does and no later pattern
      touches it. */
  lemma {:induction false} JoinedSelects(patterns: seq<Wildmat>, name: string)
    requires patterns != []
    ensures Selects(Split(Join(Texts(patterns), ','), ','), name) <==>
            exists i :: ChosenLast(patterns, name, i)
    decreases |patterns|
  {
    SplitJoin(Texts(patterns), ',');
    AllSelects(patterns, name);
  }

  lemma {:induction false} AllSelects(patterns: seq<Wildmat>, name: string)
    ensures Selects(SplitAll(Texts(patterns), ','), name) <==> exists i :: ChosenLast(patterns, name, i)
  {
    if patterns != [] {
      var rest := patterns[1..];
      AllSelects(rest, name);
      assert Texts(patterns)[1..] == Texts(rest);
      SelectsConcat(Split(patterns[0].text, ','), SplitAll(Texts(rest), ','), name);
      AllTouches(rest, name);
      if i :| ChosenLast(rest, name, i) {
        assert ChosenLast(patterns, name, i + 1);
      }
      if i :| ChosenLast(patterns, name, i) {
        if i == 0 {
          forall j | 0 <= j < |rest| ensures !Touches(Split(rest[j].text, ','), name) {
            assert rest[j] == patterns[j + 1];
          }
        } else {
          assert ChosenLast(rest, name, i - 1);
        }
      }
      if Chooses(patterns[0], name) && !Touches(SplitAll(Texts(rest), ','), name) {
        assert ChosenLast(patterns, name, 0);
      }
    }
  }

  lemma {:induction false} AllTouches(patterns: seq<Wildmat>, name: string)
    ensures Touches(SplitAll(Texts(patterns), ','), name) <==>
            exists i :: 0 <= i < |patterns| && Touches(Split(patterns[i].text, ','), name)
  {
    if patterns != [] {
      var rest := patterns[1..];
      AllTouches(rest, name);
      assert Texts(patterns)[1..] == Texts(rest);
      var a, b := Split(patterns[0].text, ','), SplitAll(Texts(rest), ',');
      TouchesConcat(a, b, name);
      if i :| 0 <= i < |rest| && Touches(Split(rest[i].text, ','), name) {
        assert patterns[i + 1] == rest[i];
      }
    }
  }

  lemma TouchesConcat(a: seq<string>, b: seq<string>, name: string)
    ensures Touches(a + b, name) <==> Touches(a, name) || Touches(b, name)
  {
    if j :| 0 <= j < |b| && ItemMatches(b[j], name) {
      assert (a + b)[|a| + j] == b[j];
    }
    if j :| 0 <= j < |a| && ItemMatches(a[j], name) {
      assert (a + b)[j] == a[j];
    }
  }

  /** No sub-pattern is negated. */
  /** One exclamation mark in front negates, and is no part of the pattern. */
  lemma NegatedForm(item: string)
    ensures Negated("!" + item) && Bare("!" + item) == item
    ensures item == "" || item[0] != '!' ==> !Negated(item) && Bare(item) == item
  {
  }

  predicate Plain(pattern: Wildmat) {
    forall k :: 0 <= k < |Split(pattern.text, ',')| ==> !Negated(Split(pattern.text, ',')[k])
  }

  lemma {:induction false} PlainSelects(items: seq<string>, name: string)
    requires forall k :: 0 <= k < |items| ==> !Negated(items[k])
    ensures Selects(items, name) <==> Touches(items, name)
    decreases |items|
  {
    if items != [] {
      var n := |items| - 1;
      SelectsStep(items, n, name);
      assert items[..n + 1] == items;
      PlainSelects(items[..n], name);
      if j :| 0 <= j < n && ItemMatches(items[j], name) {
        assert items[..n][j] == items[j];
      }
    }
  }

  /** Without negated sub-patterns, one joined wildmat chooses what any of the patterns chooses. */
  lemma PlainJoin(patterns: seq<Wildmat>, name: string)
    requires patterns != [] && forall i :: 0 <= i < |patterns| ==> Plain(patterns[i])
    ensures Selects(Split(Join(Texts(patterns), ','), ','), name) <==>
            exists i :: 0 <= i < |patterns| && Chooses(patterns[i], name)
  {
    JoinedSelects(patterns, name);
    forall i | 0 <= i < |patterns|
      ensures Chooses(patterns[i], name) <==> Touches(Split(patterns[i].text, ','), name)
    {
      PlainSelects(Split(patterns[i].text, ','), name);
    }
    if i :| 0 <= i < |patterns| && Chooses(patterns[i], name) {
      var last := LastChooser(patterns, name, i);
      assert ChosenLast(patterns, name, last);
    }
  }

  lemma LastChooser(patterns: seq<Wildmat>, name: string, i: nat) returns (last: nat)
    requires i < |patterns| && Chooses(patterns[i], name)
    ensures last < |patterns| && Chooses(patterns[last], name)
    ensures forall j :: last < j < |patterns| ==> !Chooses(patterns[j], name)
    decreases |patterns| - i
  {
    if j :| i < j < |patterns| && Chooses(patterns[j], name) {
      last := LastChooser(patterns, name, j);
    } else {
      last := i;
    }
  }

  /** With a negated sub-pattern they part: the second pattern vetoes a name the first chooses. */
  lemma NegationNeedsJoining()
    ensures var patterns := [Wildmat("a*"), Wildmat("!ab")];
            && Chooses(patterns[0], "ab")
            && !Selects(Split(Join(Texts(patterns), ','), ','), "ab")
  {
    var patterns := [Wildmat("a*"), Wildmat("!ab")];
    assert Split("a*", ',') == ["a*"] && Split("!ab", ',') == ["!ab"];
    assert GlobFrom("a*", 2, "ab", 2) && GlobFrom("a*", 1, "ab", 2) && GlobFrom("a*", 1, "ab", 1);
    assert Decides(["a*"], "ab", 0);
    assert Bare("!ab") == "ab";
    assert GlobFrom("ab", 2, "ab", 2) && GlobFrom("ab", 1, "ab", 1);
    assert ItemMatches("!ab", "ab");
    assert ["!ab"][0] == "!ab";
    assert Touches(["!ab"], "ab");
    forall i ensures !ChosenLast(patterns, "ab", i) {
      if i == 1 {
        assert forall k :: Decides(["!ab"], "ab", k) ==> k == 0;
      } else if i == 0 {
        assert patterns[1].text == "!ab";
      }
    }
    JoinedSelects(patterns, "ab");
  }
}
