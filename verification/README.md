# Verification of the NNTP reader

This project models the pure algorithms and small state machines of the NNTP reader and proves what
each of them promises, in Dafny 4.11. Check all of it with `dafny verify dfyconfig.toml`.

## What is modelled

**Threading.** `Forests`, `References`, `Clamping`, `Arenas`, `Subjects`, `Grouping`, `ThreadTrees`
and `Threading` follow `crates/nntp-proto/src/thread.rs`. `Arena` is a class whose methods update the
container table, the id table and the parent and child links in place; the forest invariant
(`Forests.Forest`) is kept by every one of them. The parent map that linking builds is given
separately, as a fold over the `References` headers (`References.LinkedRecords`), and grouping by
subject as a function of the roots' subjects alone (`Subjects.Adopter`). `Threading.Thread` ties the
stages together. The function that normalises a subject is a parameter: the theorems hold for every
one.

**Wildmats.** `Wildmats`, `Batching` and `GroupLists` hold the matcher with one backtracking point,
the meaning of a comma-separated list, the split of a subscription list over command lines, and the
three ways of narrowing a group list.

**Framing.** `Blocks` holds the two dot-stuffing encoders and the decoders that work on a buffer;
`Connections` the connection, a class that reads bytes delivered in arbitrary segments, under limits
and a cancel flag, and refuses everything once it has lost its place.

**Read state.** `ReadSets` keeps sorted ranges of 64-bit numbers, `Decimals` and `Newsrc` print and
parse them, and `ReadStores` holds the store and its file text.

**Text.** `Base64`, `Utf8` and `EncodedWords` hold header encoding and decoding, `QuotedPrintable`
the body decoder and `Flowed` the rejoining of `format=flowed` text.

**The worker.** `Ranges` splits article ranges into chunks. In `Workers` the network worker's
transcript holds every command it sends and every event it reports; what the server answers and when
the user raises the cancel flag are arbitrary functions of the position in the transcript. The flag is
looked at when a request is taken up and when a command is sent; whether the user's abandoning an answer
is noticed while it is read is open too.

**The calendar.** `Calendar` holds the day number of a civil date.

`Options`, `Sequences` (a stable sort standing for the standard library's) and `Strings` are shared.

## Where the code differs from what is said of it

- *Roots after grouping.* Roots are sorted before subjects are grouped and not after. The finished
  trees are oldest-first exactly when no subject that a reply starts is taken over by its last
  non-reply only after some other remaining tree has started and seen its own last takeover
  (`Threading.Thread`,
  `Subjects.OrderKeptUnlessLeapfrogged`). Three records that come out in the wrong order are in
  `Threading.TreesCanBreak`. Siblings below a root are always in order.
- *Takeovers stack.* After a non-reply takes over a reply, the group still counts as held by a reply,
  so the next non-reply takes it over in turn, and the older of two non-replies does not hold the
  younger. A non-reply is taken over by a later one exactly when a reply starts its subject and there
  is a later one (`Subjects.TakenOverIff`, `Grouping.TakenOverRoots`); no such subject means that the
  older always holds (`Subjects.OlderHoldsIff`). Three records where it happens are in
  `Threading.ArticlesStack`.
- *The first link wins, but it may be foreign.* Links are tried in record order, so an article's parent
  can come from another article's header (`References.ForeignHeaderCanWin`). `References.OwnHeaderWins`
  says exactly when its own header decides.
- *Filtering here.* The fallback keeps what any pattern chooses, a joined wildmat lets later patterns
  veto, and batches are separate commands. The fallback lists the same groups as one joined wildmat
  exactly when every group some pattern chooses is chosen by a pattern that no later one touches, and
  the same as the batches exactly when that holds within some batch (`GroupLists.ListingsAgree`). It
  always holds without negated sub-patterns and for a single pattern
  (`GroupLists.PlainListingsAgree`, `GroupLists.OnePatternAgrees`); `GroupLists.VetoedGroupIsMissing`
  is a list where it does not.
- *The line limit* counts a carriage return that is then dropped, although it is described as leaving
  the line ending out: `Connections.LineReadIff` says exactly which lines are read, and
  `Connections.FullLineRefused` is a line of exactly the limit that is not.
- *Counting a range* subtracts and adds without a check. It works exactly when the bounds are in order
  and are not those of all 64-bit numbers (`Ranges.CountExactIff`, `Ranges.CountCanFail`; with
  arithmetic that wraps around, `Ranges.WrappedCountExactIff`).
- *Chunks of a reversed range.* The chunks hold the numbers of the range exactly when its bounds are in
  order; otherwise it is sent as one piece with its bounds swapped (`Ranges.ChunksExactIff`,
  `Ranges.ReversedIsSwapped`).
- *Header values* do not always come back. A value that is not ASCII comes back exactly when none of
  the chunks it is cut into starts with a byte order mark, which the decoder drops from every word. A
  value that is ASCII is sent as it is, and comes back exactly when nothing in it reads as an encoded
  word, as long as no charset table turns a byte into more than one character
  (`EncodedWords.HeaderRoundTrip`). `EncodedWords.LeadingMarkLost` and `EncodedWords.LookalikeDecoded`
  are values that do not.
- *A flowed body that ends in an open, unquoted paragraph of spaces* loses the line feed before it as
  well, and no other body does (`Flowed.UnflowedIff`, `Flowed.BlankEndLost`).

## Model

| member | source | states |
|---|---|---|
| Threading.Thread | crates/nntp-proto/src/thread.rs:98-123 | For any records and any subject normaliser: every record occurs exactly once, the node lengths add up to the number of records, and the nodes down to each record are exactly the containers on its path in the flattened arena that hold an article or have two children or more that do, in path order, each with its article and with exactly the records below its container; the records above each one are those among the first 32 containers of its path in the arena that references and subjects dictate, no node is deeper than 32, empty nodes have at least two children, siblings strictly increase by oldest article, trees come in the order of the roots that remain, and roots are oldest-first if and only if the subjects of the roots hold no leapfrog |
| Forests.PathBounded | crates/nntp-proto/src/thread.rs:256-278 | A path to the root visits no container twice, so it is never longer than the arena: the backstop of the ancestor walk is out of reach |
| Forests.LinkKeepsForest | crates/nntp-proto/src/thread.rs:237-254 | Linking a parentless child below a container that is not under it keeps links acyclic and each child listed once, by its parent |
| Forests.GrowKeepsForest | crates/nntp-proto/src/thread.rs:148-155 | A new container keeps the forest |
| Forests.LinkPaths | crates/nntp-proto/src/thread.rs:237-254 | After a link, exactly the paths through the child are lengthened, by the path of the parent |
| Forests.WalkFindsOldest | crates/nntp-proto/src/thread.rs:296-315 | The stack walk, once done, has seen exactly what lies below the start, so its minimum is the oldest article |
| Forests.WalkStep | crates/nntp-proto/src/thread.rs:296-315 | A step of the walk visits a container not visited before, so the walk takes no more steps than there are containers |
| Arenas.Arena.Insert | crates/nntp-proto/src/thread.rs:158-194 | A record fills the empty container waiting for its id or gets a new one; a repeated or missing id gets a container of its own |
| Arenas.Arena.ContainerForId | crates/nntp-proto/src/thread.rs:197-204 | The container of an id, found or created empty; every other container is untouched |
| Arenas.Arena.IsAncestor | crates/nntp-proto/src/thread.rs:268-278 | Exact: true if and only if the candidate is on the path of the container |
| Arenas.Arena.SetParent | crates/nntp-proto/src/thread.rs:237-254 | Links if and only if the child has no parent and the link closes no loop; the parent map changes by exactly that attempt |
| Arenas.Arena.LinkReferences | crates/nntp-proto/src/thread.rs:207-231 | Applies to the parent map exactly the attempts of the record's last 64 references in order, then the record's own |
| Arenas.Arena.FirstArticle | crates/nntp-proto/src/thread.rs:296-315 | The lowest record index below a container, if any |
| Arenas.Arena.Roots | crates/nntp-proto/src/thread.rs:281-289 | Exactly the parentless containers that hold an article somewhere, strictly ascending by oldest article |
| Arenas.Arena.ClampDepth | crates/nntp-proto/src/thread.rs:327-377 | Everything below the deepest level allowed hangs directly off its ancestor there, and nothing else changed |
| Arenas.RootsSorted | crates/nntp-proto/src/thread.rs:281-289 | Sorting roots by oldest article is strict, because no two share one |
| Arenas.DescendsIsOnPath | crates/nntp-proto/src/thread.rs:268-278 | Climbing the parent map by names and following parent links reach the same ancestors |
| References.ReferencesReconstructed | crates/nntp-proto/src/thread.rs:207-254 | References drawn from one acyclic parent map are reconstructed exactly: a name has the parent some header puts before it, and otherwise none |
| References.OrderIndependent | crates/nntp-proto/src/thread.rs:207-254 | With unique ids and agreeing references, any reordering of the records links the same edges |
| References.OwnHeaderWins | crates/nntp-proto/src/thread.rs:207-254 | An article ends up under the last message its own header names if and only if, when that link is tried, it has that parent or has none and no loop closes |
| References.ForeignHeaderCanWin | crates/nntp-proto/src/thread.rs:207-254 | Two records where another article's header decides the parent |
| References.RecordsKeep | crates/nntp-proto/src/thread.rs:237-254 | No later record undoes a link or unblocks one: first link wins |
| References.NearestKept | crates/nntp-proto/src/thread.rs:207-231 | The references that count are the last 64 of the header, in its order |
| Clamping.FlattenedForest | crates/nntp-proto/src/thread.rs:327-377 | A flattened arena is a forest again |
| Clamping.FlattenedPaths | crates/nntp-proto/src/thread.rs:327-377 | After flattening a path keeps its first containers up to the limit and then the container itself |
| Clamping.SweepCaps | crates/nntp-proto/src/thread.rs:327-377 | The breadth-first sweep finds exactly the containers at the cap level below the roots |
| Subjects.AdopterStep | crates/nntp-proto/src/thread.rs:435-486 | Visiting one more root changes adopters as the loop does: the root, or the holder it takes over |
| Subjects.HolderIsFree | crates/nntp-proto/src/thread.rs:435-486 | Among the roots of a subject the holder is the one without a parent |
| Subjects.OrderKeptUnlessLeapfrogged | crates/nntp-proto/src/thread.rs:281-289 | Remaining roots are oldest-first if and only if no reply starts a subject, then another remaining tree starts and is settled, and only then comes the last non-reply of the first subject: a condition on the subjects alone |
| Subjects.RootOrderCanBreak | crates/nntp-proto/src/thread.rs:468-470 | Three subjects whose order grouping breaks |
| Subjects.TakenOverIff | crates/nntp-proto/src/thread.rs:459-476 | A root that is not a reply ends up below a later one that is not either, if and only if a reply starts its subject and there is a later one |
| Subjects.OlderHoldsIff | crates/nntp-proto/src/thread.rs:459-476 | Some root that is not a reply hangs under a later one that is not either, if and only if some subject that a reply starts has two of them |
| Subjects.TakeoversStack | crates/nntp-proto/src/thread.rs:468-470 | Three subjects where a later opener takes over the one that took over |
| Grouping.GroupBySubject | crates/nntp-proto/src/thread.rs:435-486 | Every root gets exactly the parent its subject gives it, trees are otherwise untouched, and the roots kept are exactly those still parentless, in order |
| Grouping.VisitLinks | crates/nntp-proto/src/thread.rs:478-479 | Both ends of a link a visit makes are parentless, so the attempt always succeeds |
| Grouping.VisitFacts | crates/nntp-proto/src/thread.rs:466-476 | A holder's oldest article precedes the visited root's, so the loop's last alternative never runs |
| Grouping.GroupedOldest | crates/nntp-proto/src/thread.rs:435-486 | A remaining root's oldest article is that of its subject's first root |
| Grouping.RemainingOrder | crates/nntp-proto/src/thread.rs:435-486 | In the arena, remaining roots ascend if and only if the subjects of the roots hold no leapfrog |
| Grouping.TakenOverRoots | crates/nntp-proto/src/thread.rs:435-486 | In the arena, the root of a non-reply hangs below a later one that is not a reply either, under the same exact condition |
| ThreadTrees.BuildCount | crates/nntp-proto/src/thread.rs:387-413 | A built tree holds each record below its container once, and no other |
| ThreadTrees.BuildShaped | crates/nntp-proto/src/thread.rs:387-413 | Empty nodes have at least two children and siblings strictly increase by oldest article |
| ThreadTrees.BuildOldest | crates/nntp-proto/src/thread.rs:387-424 | A container builds to a tree if and only if it holds an article, and the tree's first article is its oldest |
| ThreadTrees.BuildSpine | crates/nntp-proto/src/thread.rs:380-413 | The nodes of a tree down to a record are the containers on the way that are worth one, an empty one where two children hold articles; a node has the records below its container, no more and no less |
| ThreadTrees.BuildAllLive | crates/nntp-proto/src/thread.rs:398-412 | As many trees come of some containers as hold an article somewhere, told at none, one and two |
| Threading.TrailOfSpine | crates/nntp-proto/src/thread.rs:380-413 | The records above one follow from the nodes above it |
| ThreadTrees.BuildWithin | crates/nntp-proto/src/thread.rs:387-413 | A tree is no deeper than the containers it was built from |
| ThreadTrees.LengthsAddUp | crates/nntp-proto/src/thread.rs:66-68 | The lengths of trees that hold each record once add up to the number of records |
| Threading.TreesOrdered | crates/nntp-proto/src/thread.rs:98-123 | Clamping and building keep the order of the remaining roots |
| Threading.TagsAreSubjects | crates/nntp-proto/src/thread.rs:98-123 | Records without references are roots in the order given, so every list of subjects arises from some records |
| Threading.TreesCanBreak | crates/nntp-proto/src/thread.rs:98-123 | Three records, a reply, an unrelated one and what the reply answers, that any run puts in the wrong order |
| Threading.ArticlesStack | crates/nntp-proto/src/thread.rs:435-486 | Three records where each ends up below the next |
| Wildmats.MatchesOne | crates/nntp-proto/src/command.rs:140-178 | Equals the declarative meaning of `*` and `?` for every pattern and name, within (name + 1) * (pattern + 1) rounds |
| Wildmats.StarIsSomeRun | crates/nntp-proto/src/command.rs:140-178 | The declarative star is some run of characters, in both directions |
| Wildmats.StarlessIff | crates/nntp-proto/src/command.rs:140-178 | A pattern without stars matches a name of its own length in which every character is its own or stands under a `?` |
| Wildmats.ParseIff | crates/nntp-proto/src/command.rs:38-46 | Accepted are exactly the texts of 1 to 400 characters from `!` to `~` |
| Wildmats.OneArgument | crates/nntp-proto/src/command.rs:38-46 | An accepted pattern is one argument of a command: nothing in it ends the argument or the line |
| Wildmats.Matches | crates/nntp-proto/src/command.rs:117-132 | The last sub-pattern that matches decides |
| Wildmats.NegatedForm | crates/nntp-proto/src/command.rs:117-132 | One exclamation mark in front negates a sub-pattern and is no part of it |
| Wildmats.JoinedSelects | crates/nntp-proto/src/command.rs:81-132 | A joined wildmat selects a name if and only if some pattern does and no later pattern touches it |
| Wildmats.PlainJoin | crates/nntp-proto/src/command.rs:81-132 | Without negated sub-patterns it selects what any of the patterns selects |
| Wildmats.NegationNeedsJoining | crates/nntp-tui/src/tui/worker.rs:286-294 | One instance, with a negated sub-pattern, where any-match and the joined wildmat part |
| Batching.BatchPatterns | crates/nntp-tui/src/tui/worker.rs:443-477 | Consecutive batches hold each pattern once, in order, each fits the limit, and no contiguous split that fits has fewer batches |
| Batching.GreedyFewest | crates/nntp-tui/src/tui/worker.rs:443-477 | A greedy split is never beaten |
| Batching.JoinFits | crates/nntp-proto/src/command.rs:81-91 | Joining sendable patterns succeeds if and only if their texts and commas fit the limit |
| GroupLists.ListingFacts | crates/nntp-tui/src/tui/worker.rs:215-216 | Sorting and removing repeats gives a strictly ascending list with the first entry found for each name |
| GroupLists.ListingsAgree | crates/nntp-tui/src/tui/worker.rs:170-295 | For any catalogue and any patterns, negated sub-patterns included: filtering here lists the groups that one joined wildmat lists if and only if every catalogue group some pattern chooses is chosen by one that no later pattern touches, and the groups that the batches list if and only if each such group is asked for by some batch |
| GroupLists.PlainListingsAgree | crates/nntp-tui/src/tui/worker.rs:170-295 | Without negated sub-patterns, batches, one joined wildmat and local filtering list the same groups |
| GroupLists.OnePatternAgrees | crates/nntp-tui/src/tui/worker.rs:286-294 | A single pattern, negated sub-patterns or not, lists the same groups either way |
| GroupLists.VetoedGroupIsMissing | crates/nntp-tui/src/tui/worker.rs:286-294 | A catalogue and two patterns where the joined wildmat misses a group that filtering here lists |
| GroupLists.FetchedListing | crates/nntp-tui/src/tui/worker.rs:170-211 | The batches together list exactly the catalogue groups that some batch asks for |
| GroupLists.FilterHere | crates/nntp-tui/src/tui/worker.rs:286-294 | Keeps exactly the entries some pattern matches, or everything for no patterns |
| Blocks.WriteBlock | crates/nntp-testserver/src/session.rs:1023-1066 | Writes the stuffed lines and the terminator |
| Blocks.SplitLines | crates/nntp-proto/src/headers.rs:298-316 | Splits at line feeds, drops one carriage return before each, and counts an unfinished last line |
| Blocks.ParseBlock | crates/nntp-proto/src/block.rs:67-88 | The unstuffed lines before the first terminator |
| Blocks.ReadArticle | crates/nntp-testserver/src/session.rs:1180-1205 | Reads the same lines as the buffer parser and leaves exactly what follows the terminator |
| Blocks.StuffedComesBack | crates/nntp-proto/src/block.rs:15-41 | Unstuffing undoes stuffing, and no stuffed line is a terminator |
| Blocks.StuffedOnly | crates/nntp-proto/src/block.rs:34-41 | Only a line that starts with a dot is changed, by one dot in front |
| Blocks.TwoLinesSent | crates/nntp-testserver/src/session.rs:1023-1066 | A block of two lines, octet by octet |
| Blocks.UnfinishedLine | crates/nntp-proto/src/headers.rs:298-316 | A line that no line feed ends counts unless it is empty |
| Blocks.UnterminatedContent | crates/nntp-proto/src/block.rs:67-88 | Without a terminator every line is content |
| Blocks.TerminatedContent | crates/nntp-proto/src/block.rs:67-88 | With one, what comes before the first is |
| Blocks.EncodedBlockReads | crates/nntp-proto/src/block.rs:67-88 | An encoded block followed by anything reads back line for line and leaves exactly what follows |
| Blocks.ReadsBackIff | crates/nntp-proto/src/block.rs:67-88 | A block reads back as written if and only if no line holds a line feed and, for a bare line-feed ending, none ends in a carriage return |
| Connections.Connection.ReadLine | crates/nntp-client/src/connection.rs:258-320 | The outcome is that of the bytes to come, however they are segmented; a failure makes the connection refuse from then on |
| Connections.Connection.ReadDataBlock | crates/nntp-client/src/connection.rs:191-255 | Reads a block under the three limits and the cancel flag, exactly as the bytes to come dictate |
| Connections.Connection.SendBlock | crates/nntp-client/src/connection.rs:135-156 | Writes the same encoding as the server's writer, and nothing at all when out of step |
| Connections.Connection.Perform | crates/nntp-client/src/connection.rs:135-320 | Any sequence of operations depends only on the bytes to come |
| Connections.FailureLoses | crates/nntp-client/src/connection.rs:135-320 | An operation fails if and only if it leaves the connection out of step, and a failing one writes nothing |
| Connections.FailureLasts | crates/nntp-client/src/connection.rs:135-320 | After the first failure of a run every operation fails and nothing more is written, so no later byte is taken for an answer |
| Connections.LostStaysLost | crates/nntp-client/src/connection.rs:313-320 | Once out of step every operation fails and nothing more is written |
| Connections.LineReadIff | crates/nntp-client/src/connection.rs:258-311 | A line followed by its ending is read if and only if what comes before the line feed, carriage return included, is within the limit; the outcome is given for every line, ending and limit |
| Connections.FullLineRefused | crates/nntp-client/src/connection.rs:258-311 | A line of exactly the limit is refused when a carriage return and a line feed end it, and read when a line feed does |
| Connections.EncodedBlockArrives | crates/nntp-client/src/connection.rs:191-255 | A block of surviving lines is read if and only if its lines, its terminator and its two counts are within the limits; then it is read back and exactly what follows it is left, so back-to-back responses are read one by one |
| Connections.DecodersAgree | crates/nntp-client/src/connection.rs:215-255 | Whatever the bytes: if the connection reads a block, the other two decoders read the same lines and leave the same rest |
| Connections.BlockReadIff | crates/nntp-client/src/connection.rs:191-255 | Whatever the bytes: the connection reads a block if and only if a terminator line arrives, every line up to it is within the line limit, those before it are within the two counts, and the cancel flag is not found raised by then |
| Connections.LineFailure | crates/nntp-client/src/connection.rs:258-311 | Which failure a line meets: too long if more octets than the limit come without a line feed, closed if fewer do |
| Connections.BlockFailure | crates/nntp-client/src/connection.rs:215-255 | Which failure a block meets, at the line where it comes: a raised flag first, then the line, then the number of lines, then the octets |
| ReadSets.ReadSet.Count | crates/nntp-tui/src/readstate/set.rs:54-56 | The exact number of members, with no overflow |
| ReadSets.ReadSet.Contains | crates/nntp-tui/src/readstate/set.rs:72-87 | Membership, for every number |
| ReadSets.ReadSet.ReadIn | crates/nntp-tui/src/readstate/set.rs:220-234 | The exact number of members in a window |
| ReadSets.ReadSet.UnreadIn | crates/nntp-tui/src/readstate/set.rs:210-217 | The exact number of positive numbers in a window that are not members |
| ReadSets.ReadSet.InsertRange | crates/nntp-tui/src/readstate/set.rs:99-133 | Union with the named range, either way round and up to the largest number, keeping ranges sorted, disjoint and apart |
| ReadSets.ReadSet.Insert | crates/nntp-tui/src/readstate/set.rs:90-92 | Adds one number, unless it is zero |
| ReadSets.ReadSet.RemoveRange | crates/nntp-tui/src/readstate/set.rs:176-201 | Difference with the named range, same invariant |
| ReadSets.ReadSet.Remove | crates/nntp-tui/src/readstate/set.rs:140-173 | Removes one number, splitting a range if need be |
| ReadSets.RangesUnique | crates/nntp-tui/src/readstate/set.rs:29-46 | Equal sets have equal ranges |
| ReadSets.ClipSumExact | crates/nntp-tui/src/readstate/set.rs:220-234 | The clipped sizes add up to the members in the window, and to no more than the window |
| Newsrc.Parse | crates/nntp-tui/src/readstate/set.rs:254-295 | The set of all numbers some readable piece names, and the unreadable pieces in order |
| Newsrc.Display | crates/nntp-tui/src/readstate/set.rs:302-317 | Prints the ranges, joined by commas |
| Newsrc.PrintThenParse | crates/nntp-tui/src/readstate/set.rs:254-317 | Parsing what was printed gives the same ranges and nothing unreadable |
| Newsrc.DashedPiece | crates/nntp-tui/src/readstate/set.rs:277-295 | A piece with a dash is read if and only if both sides are numbers |
| Newsrc.PlainPiece | crates/nntp-tui/src/readstate/set.rs:277-281 | A piece without a dash is one number |
| Newsrc.MissingBound | crates/nntp-tui/src/readstate/set.rs:283-292 | A piece whose upper bound is missing is never read |
| Newsrc.SingleAlone | crates/nntp-tui/src/readstate/set.rs:302-317 | A range of one number is printed as that number, without a dash |
| Newsrc.UnreadableIff | crates/nntp-tui/src/readstate/set.rs:254-275 | The pieces returned are exactly those that are neither blank nor readable |
| Decimals.PrintedNumberParses | crates/nntp-tui/src/readstate/set.rs:277-295 | Every 64-bit number parses back from its digits |
| Decimals.ParseNumberIff | crates/nntp-tui/src/readstate/set.rs:277-295 | A number is read from digits below 2^64, after a plus sign or not, and from nothing else |
| Decimals.DigitChars | crates/nntp-tui/src/readstate/set.rs:302-317 | The digit of each number below ten, and back |
| Decimals.TrimIs | crates/nntp-tui/src/readstate/set.rs:254-295 | Trimming leaves what stands between the white space at both ends |
| Decimals.SpacesAre | crates/nntp-tui/src/readstate/set.rs:254-295 | White space is what Unicode calls so, character by character |
| Strings.NameOrder | crates/nntp-tui/src/readstate/store.rs:307-322 | Names are in order if one starts the other or the first characters that differ are |
| ReadStores.ReadStore.Load | crates/nntp-tui/src/readstate/store.rs:191-225 | Merges the readable lines by group, a group being subscribed if any of its lines says so, and reports each problem with its line |
| ReadStores.LineEnds | crates/nntp-tui/src/readstate/store.rs:191-225 | A line ends at a line feed, with a carriage return before it or not, and the last one need not |
| ReadStores.IgnoredIff | crates/nntp-tui/src/readstate/store.rs:194-201 | A line is ignored if it is blank or the first thing on it is `#`, and otherwise not |
| ReadStores.MalformedNumbers | crates/nntp-tui/src/readstate/store.rs:203-206 | A line number is reported if and only if that line is neither ignored nor readable |
| ReadStores.MalformedPieces | crates/nntp-tui/src/readstate/store.rs:208-214 | Pieces are reported for a group if and only if they are the unreadable ones, at least one, of a readable line of it |
| ReadStores.ReadStore.MarkRead | crates/nntp-tui/src/readstate/store.rs:253-256 | Adds one number to one group, created as subscribed if new; every other group is untouched |
| ReadStores.ReadStore.MarkRangeRead | crates/nntp-tui/src/readstate/store.rs:259-262 | Adds a range to one group |
| ReadStores.ReadStore.MarkUnread | crates/nntp-tui/src/readstate/store.rs:265-268 | Removes one number from one group |
| ReadStores.ReadStore.ForgetExpired | crates/nntp-tui/src/readstate/store.rs:281-295 | Keeps exactly the numbers at or above the low watermark, and becomes dirty if and only if something changed |
| ReadStores.SameCountSame | crates/nntp-tui/src/readstate/store.rs:289-294 | A subset with as many members is the same set, which is why comparing counts detects every change |
| ReadStores.ReadStore.ToNewsrc | crates/nntp-tui/src/readstate/store.rs:307-322 | One line a group in ascending order, leaving out subscribed groups with nothing read |
| ReadStores.AcceptedIsGood | crates/nntp-tui/src/readstate/store.rs:369-387 | Every group a line yields has a name a line can carry |
| ReadStores.StoreRoundTrip | crates/nntp-tui/src/readstate/store.rs:154-322 | Loading what was written restores exactly the written groups if and only if each has a name a line can carry; then there are no problems, exactly the groups with something read or not subscribed are in the file, and every group is again as it was, one without a line counting as subscribed with nothing read |
| Base64.Base64RoundTrip | crates/nntp-proto/src/mime.rs:286-291 | The lenient decoder undoes the padded encoder |
| Base64.Alphabet | crates/nntp-proto/src/mime.rs:98-104 | The digits are the letters, the numbers, `+` and `/`, in that order |
| Base64.OnlyAlphabet | crates/nntp-proto/src/mime.rs:286-291 | Only its characters are read as digits |
| Base64.QuadSpells | crates/nntp-proto/src/mime.rs:98-104 | Three octets and their four digits spell one number |
| Base64.EncodedFours | crates/nntp-proto/src/mime.rs:98-104 | Encoded text comes in fours, what is left over filled up with zero bits and padded |
| Base64.PaddingOptional | crates/nntp-proto/src/mime.rs:286-291 | Decoding takes padding in part, whole or not at all, and refuses more than belongs |
| Utf8.Utf8RoundTrip | crates/nntp-proto/src/mime.rs:126-131 | Decoding gives back the text |
| Utf8.ValidMeansEncoded | crates/nntp-proto/src/mime.rs:126-131 | Bytes are valid only as the encoding of some text |
| Utf8.CharBits | crates/nntp-proto/src/mime.rs:126-131 | How many octets a character takes and how its number is spread over them |
| Utf8.Examples | crates/nntp-proto/src/mime.rs:126-131 | Characters of one to four octets |
| EncodedWords.EncodeHeaderValue | crates/nntp-proto/src/mime.rs:69-104 | The loop returns what the value is sent as: ASCII unchanged, anything else as one encoded word for each chunk of the value |
| EncodedWords.SentIsAscii | crates/nntp-proto/src/mime.rs:69-104 | Whatever the value, only ASCII is sent |
| EncodedWords.CutIsCut | crates/nntp-proto/src/mime.rs:69-104 | The chunks of a value hold it whole, in whole characters, at most 45 bytes each and each as long as can be |
| EncodedWords.OnlyCut | crates/nntp-proto/src/mime.rs:69-104 | No other chunks do, so the value determines them |
| EncodedWords.DecodeHeaderValue | crates/nntp-proto/src/mime.rs:36-53 | Shows encoded words and the runs between them, dropping blank runs between two words |
| EncodedWords.SplitEncodedWords | crates/nntp-proto/src/mime.rs:160-198 | The cursor loop finds the leftmost encoded words |
| EncodedWords.DecodeQ | crates/nntp-proto/src/mime.rs:248-274 | The loop decodes front by front, keeping malformed escapes |
| EncodedWords.DecodeQInverts | crates/nntp-proto/src/mime.rs:248-274 | Recovers what any "Q" encoding stands for |
| EncodedWords.MalformedStays | crates/nntp-proto/src/mime.rs:248-274 | An equals sign without two hexadecimal digits stays, with what was looked at |
| EncodedWords.EncodingLetters | crates/nntp-proto/src/mime.rs:224-228 | The encodings are told by the letters Q and B in either case, and there is no other |
| EncodedWords.OtherCharset | crates/nntp-proto/src/mime.rs:110-131 | Under a label that is not UTF-8 its table decodes, and without one UTF-8 if valid, else Windows-1252 |
| EncodedWords.LabelDressed | crates/nntp-proto/src/mime.rs:110-112 | A language suffix on a label and quotation marks around it do not matter |
| EncodedWords.Utf8Names | crates/nntp-proto/src/mime.rs:114-117 | The labels of UTF-8, in any case |
| EncodedWords.WordParses | crates/nntp-proto/src/mime.rs:204-239 | How a well-formed word is read, whatever follows it |
| EncodedWords.AloneThenMore | crates/nntp-proto/src/mime.rs:204-239 | What follows a word does not change how it is read |
| EncodedWords.SpacedWordsShow | crates/nntp-proto/src/mime.rs:36-53 | Any encoded words with white space between them show as their texts and nothing else |
| EncodedWords.BlankIff | crates/nntp-proto/src/mime.rs:141-147 | Blank is a run of spaces, tabs, carriage returns and line feeds, and nothing else |
| EncodedWords.WordAmongText | crates/nntp-proto/src/mime.rs:36-53 | Text before and after a word is shown as it is, blank or not |
| EncodedWords.EncodedWordStandsAlone | crates/nntp-proto/src/mime.rs:69-104 | Each word emitted is at most 75 characters and decodes on its own |
| EncodedWords.NoFirstWord | crates/nntp-proto/src/mime.rs:160-239 | The search for a first encoded word finds one if and only if the bytes hold one somewhere, as spelt out position by position |
| EncodedWords.NoWordShown | crates/nntp-proto/src/mime.rs:36-53 | Text without an encoded word in it shows as it is |
| EncodedWords.WordShortens | crates/nntp-proto/src/mime.rs:36-53 | Bytes with an encoded word in them show fewer characters than there are bytes, with tables that turn no byte into more than one character |
| EncodedWords.ChunksRoundTrip | crates/nntp-proto/src/mime.rs:36-104 | The words made of a value decode to it if and only if none of its chunks starts with a byte order mark; no word is over 75 octets |
| EncodedWords.HeaderRoundTrip | crates/nntp-proto/src/mime.rs:36-104 | Over what the encoder returns: a value that is not ASCII comes back if and only if none of its chunks starts with a byte order mark; one that is comes back if nothing in it reads as an encoded word, and only then, with tables that turn no byte into more than one character |
| EncodedWords.UnmarkedRoundTrip | crates/nntp-proto/src/mime.rs:36-104 | Every value comes back that holds no byte order mark and, if it is ASCII, nothing that reads as an encoded word |
| EncodedWords.LeadingMarkLost | crates/nntp-proto/src/mime.rs:36-104 | A value that starts with a byte order mark and comes back without it |
| EncodedWords.LookalikeDecoded | crates/nntp-proto/src/mime.rs:69-72 | An ASCII value without a byte order mark that looks like an encoded word and comes back decoded |
| QuotedPrintable.DecodeQuotedPrintable | crates/nntp-proto/src/mime.rs:307-361 | The single protected position does for a mark on every byte: blanks are trimmed exactly as if each byte said whether it was escaped |
| QuotedPrintable.TrimTrailingBlanks | crates/nntp-proto/src/mime.rs:365-369 | Drops trailing blanks, all of them, and never below the protected position |
| QuotedPrintable.ProtectedTrim | crates/nntp-proto/src/mime.rs:365-369 | Trimming down to the protected position is trimming the literal blanks |
| QuotedPrintable.DecodeInverts | crates/nntp-proto/src/mime.rs:307-369 | Recovers what an encoding stands for, soft breaks anywhere, if and only if no hard break follows an unescaped blank |
| QuotedPrintable.WireOfPieces | crates/nntp-proto/src/mime.rs:307-361 | Any input whatsoever is accounted for piece by piece |
| QuotedPrintable.HexDigits | crates/nntp-proto/src/mime.rs:276-283 | The value of each hexadecimal digit, in either case |
| QuotedPrintable.OnlyHexDigits | crates/nntp-proto/src/mime.rs:276-283 | There are no other digits |
| QuotedPrintable.MalformedEscape | crates/nntp-proto/src/mime.rs:307-361 | An equals sign that neither two digits nor a line ending follow stands for itself |
| Flowed.Unflow | crates/nntp-proto/src/body.rs:568-657 | Paragraphs are the maximal runs of flowed lines at one quote depth, each shown on a line after its quote marks |
| Flowed.SplitQuotePrefix | crates/nntp-proto/src/body.rs:633-641 | Counts the leading quote marks and leaves the rest |
| Flowed.UnflowInverts | crates/nntp-proto/src/body.rs:568-657 | Undoes every encoding, quoted or not, with deleted spaces or not, however it was broken and stuffed |
| Flowed.PlainTextSurvives | crates/nntp-proto/src/body.rs:568-657 | Unquoted lines come back unchanged wherever they were broken |
| Flowed.JoinedIff | crates/nntp-proto/src/body.rs:577-606 | A line is joined to the next if and only if it ends in a space, is not `-- `, and the next is at the same quote depth |
| Flowed.ShownApart | crates/nntp-proto/src/body.rs:568-624 | Where a line is not joined to the next, what is shown of the body falls apart there at a line feed |
| Flowed.SignatureStands | crates/nntp-proto/src/body.rs:566-581 | A signature stays below its separator |
| Flowed.OpenTrimmed | crates/nntp-proto/src/body.rs:589-620 | A paragraph left open loses the spaces at its end, all of them and nothing else |
| Flowed.FinalFeed | crates/nntp-proto/src/body.rs:572-575 | One final line feed says nothing |
| Flowed.DisplayIff | crates/nntp-proto/src/body.rs:568-624 | Paragraphs are shown one a line if and only if the last, coming after another, is not an open, unquoted one that holds only spaces |
| Flowed.UnflowedIff | crates/nntp-proto/src/body.rs:568-657 | The same for every text |
| Flowed.BlankEndLost | crates/nntp-proto/src/body.rs:568-624 | A text whose last line feed is lost |
| Ranges.MakeBetween | crates/nntp-proto/src/spec.rs:75-84 | The numbers between two bounds, whichever way round |
| Ranges.CountExactIff | crates/nntp-proto/src/spec.rs:109-115 | Counting stays within 64 bits if and only if the bounds are in order and are not those of all 64-bit numbers, and then it is the number of numbers in the range |
| Ranges.WrappedCountExactIff | crates/nntp-proto/src/spec.rs:109-115 | With arithmetic that wraps around, the count is right exactly then and for bounds one step out of order |
| Ranges.CountCanFail | crates/nntp-proto/src/spec.rs:109-115 | A reversed range and the full range, which cannot be counted, and what wrapping makes of them |
| Ranges.Chunks | crates/nntp-proto/src/spec.rs:122-145 | Consecutive chunks in order, none over the size, all but the last full, with no overflow at the largest number |
| Ranges.ChunksPartition | crates/nntp-proto/src/spec.rs:122-145 | Every number of the range is in exactly one chunk and no other number is in any |
| Ranges.ChunksExactIff | crates/nntp-proto/src/spec.rs:122-145 | The chunks hold exactly the numbers of the range if and only if its bounds are in order |
| Ranges.ReversedIsSwapped | crates/nntp-proto/src/spec.rs:122-145 | A reversed range whose one chunk holds numbers that the range does not |
| Workers.Worker.EnsureClient | crates/nntp-tui/src/tui/worker.rs:136-168 | Connects only when there is no connection, and fails only fatally |
| Workers.Worker.FetchActive | crates/nntp-tui/src/tui/worker.rs:170-211 | The groups are those in the answers to one `LIST` a batch, said in order since the start; or, only after the server refused the pattern of a batch and the connection went on, those of the whole catalogue it then answered with that pass the filter here |
| Workers.Worker.FetchDescriptions | crates/nntp-tui/src/tui/worker.rs:225-246 | The descriptions are those in the answers to one command a batch, each at its place in the transcript since the start; a refusal is ignored, a fatal error is not |
| Workers.DescribedIs | crates/nntp-tui/src/tui/worker.rs:225-246 | A group has the description of the last answer that describes it, or none |
| Workers.Worker.DoLoadGroups | crates/nntp-tui/src/tui/worker.rs:170-265 | The rows are made of the answers to this request's own questions, strictly ascending, each with the description of the last answer that describes it; from a server that answers out of one catalogue they are exactly the groups that some batch asks for, or those filtering here keeps, and the two are the same if and only if every catalogue group some pattern chooses is asked for by some batch |
| Workers.Worker.FetchOverview | crates/nntp-tui/src/tui/worker.rs:354-394 | On success the ranges asked for are exactly the chunks of the range, newest first, and each was delivered under the group and the token of the request; success or not, each was asked for with the group selected that was selected before |
| Workers.Worker.FetchChunk | crates/nntp-tui/src/tui/worker.rs:372-386 | Delivers a record for every readable line of the answer, as often as it came, in order of article number and otherwise as they came, and counts the other lines |
| Workers.ParsedCount | crates/nntp-tui/src/tui/worker.rs:372-386 | Every readable line gives its record as often as it came, and with the unreadable ones they are all the lines |
| Workers.ParsedConcat | crates/nntp-tui/src/tui/worker.rs:372-378 | Lines are read one by one: a record for a readable line, nothing for another |
| Sequences.SortStable | crates/nntp-tui/src/tui/worker.rs:379 | Records with one number stay in the order they came in |
| Workers.Worker.DoOpenGroup | crates/nntp-tui/src/tui/worker.rs:297-321 | Asks for the group of the request, reports what the server said of it right after, and covers the newest articles the request asked for, or nothing for an empty group |
| Workers.FirstOfNewest | crates/nntp-tui/src/tui/worker.rs:319-320 | Exactly the newest numbers asked for, cut off at the low watermark, without underflow |
| Workers.Worker.Reselect | crates/nntp-tui/src/tui/worker.rs:323-340 | The group is selected afterwards, if the server names the group it selected; if it was selected already nothing is sent |
| Workers.Worker.DoLoadOverview | crates/nntp-tui/src/tui/worker.rs:323-340 | Failing or not, with a server that names the group it selected, every part of the overview is asked for with the group of the request selected since the last connection |
| Workers.Worker.DoLoadArticle | crates/nntp-tui/src/tui/worker.rs:396-414 | On success the article was asked for with the group of the request selected, if the server names the group it selected, and by number or as the current one only with some group selected |
| Workers.LostIsFatal | crates/nntp-client/src/error.rs:228-257 | Whenever the connection has lost its place in the stream, the error it gives is fatal |
| Workers.RefusalsAreNotFatal | crates/nntp-client/src/error.rs:228-257 | The twelve errors that leave the connection where it was are not, and all others are |
| Workers.Worker.Dispatch | crates/nntp-tui/src/tui/worker.rs:86-133 | Exactly one event ends the request; the connection is lost by a cancellation or a fatal error and by nothing else |
| Workers.Worker.Handle | crates/nntp-tui/src/tui/worker.rs:73-84 | The cancel flag is down afterwards, and a request is cancelled only if the flag was raised while it waited or ran; an answer abandoned with the flag up is followed by the cancellation and by nothing else |
| Workers.Worker.Run | crates/nntp-tui/src/tui/worker.rs:57-71 | Over every run: each request before the first shutdown is ended by exactly one event of the right kind, in order; `Stopped` comes last and once; no command goes out without a connection; what is reported is what the server answered just before; a failure is the fault in the answer to the last command; a cancellation comes exactly when the user has abandoned the answer to the command just sent, with the flag raised since the request was taken up; each success did what it was asked, group lists as stated for `DoLoadGroups`; and, for a server that names the group it selected, parts of an overview are asked for only by a request for one and only with its group selected since the last connection |
| Calendar.NextIsOneMore | crates/nntp-testserver/src/session.rs:1148-1159 | The successor of a valid date, across month ends, leap years, eras and negative years, has the next day number |
| Calendar.EpochIsZero | crates/nntp-testserver/src/session.rs:1148-1159 | 1 January 1970 is day 0 |
| Calendar.EarlierIsLess | crates/nntp-testserver/src/session.rs:1148-1159 | Dates and day numbers are in the same order, both ways |
| Calendar.OnlyDayCount | crates/nntp-testserver/src/session.rs:1148-1159 | No other function counts days from the epoch |

## Left out

- Sockets, TLS, timeouts, address resolution, threads and channels: the transport is a byte sequence in
  segments, and the worker's channels are a list of requests and a transcript.
- Transport errors and timeouts: they fail an operation without marking the connection, and the part of
  a line already taken from the stream is dropped; the connection here meets only bytes, the end of the
  stream and a cancellation.
- The cancel flag of a connection is a countdown of the looks taken at it, one before each line of a
  block; who raises it, and when, is otherwise left open.
- The file system side of the store: paths, the size limit, saving by rename; the store's text is read
  and written as characters, so the lossy decoding of the file is not part of the model.
- Subject normalisation, message-id parsing and overview parsing: threading takes any normaliser, and
  the worker's server answers with parsed records or unreadable lines.
- The `OVER` and `XOVER` memory, status codes, authentication and posting in two steps: each command is
  one question with one answer.
- Charset tables other than UTF-8, and what a decoder makes of invalid UTF-8, are functions left open in
  `EncodedWords.Tables`; the label is compared with the names of UTF-8 only, and a byte order mark of
  another encoding is part of those tables.
- EncodedWords.HeaderRoundTrip: that an ASCII value with an encoded word in it never comes back is stated
  for tables that turn no byte into more than one character, because the tables are left open.
- The base64 decoder is the part of the library that is used: standard alphabet, padding optional,
  trailing bits ignored.
- Header values are given as bytes; folding long headers is not modelled.
- `unfold` of header lines, MIME part trees and attachments.
- The largest index in the tables of the arena is unbounded; threading assumes no more records than the
  largest index, which stands for "no article".
- Calendar.DaysFromCivil: takes any year, so it does not model the overflow of the smallest 32-bit year
  in January or February.
- Parsing of `NEWGROUPS` dates, the fake server's quirks and its other commands.
- Group names, article text and statuses in group lists are plain strings; posting status is dropped.
- The words of progress and error messages: a failure carries its request and its error instead.
- `walk`, `is_empty`, `highest`, `set_read` of the store and other members settled by reading one line.
