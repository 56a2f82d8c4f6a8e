# CodeCortex: verification of its core algorithms

These modules model the parts of CodeCortex that compute something or keep
state of their own, and prove what each of them promises over every input, every
run or every disk state. Each module follows one component of the Python code:
loops stay loops, objects with fields stay classes, and every method is tied by
its contract to a function about which the lemmas then speak.

| modules | component |
|---|---|
| `RegexText`, `IgnoreGlob`, `IgnoreRules`, `IgnoreComponents` | ignore globs: the compiler to pattern text, how that text is read back, what rules match, which rule decides, when the components of a path decide alone |
| `ContentMask`, `SecurityFilters` | masking secrets by right-to-left splicing, and the verdict on a file |
| `PrunedWalk`, `FileSearch`, `WalkOrder` | the pruned directory walk and the two capped loops over it |
| `SearchPages` | fan-out over providers, one re-index, stable sort, filter, pages |
| `RelayTime`, `RelayStore`, `RelayRuns`, `RelayDelivery`, `RelayClient` | the relay: time as text, its tables, invariants of all runs, delivery, the tunnel client |
| `RepoTransfer` | dump, clean-up and restore of one repository |
| `StagedWrite` | the staged file write, with every disk state on the way |
| `Safeguard` | killed-PID cache and lock file over starts and exits |
| `Redaction`, `EnvFile` | redaction of nested values; the `.env` writer and reader |

`dafny verify dfyconfig.toml` checks everything.

## What the code does not keep

Where a promise fails, the model follows the code, gives the input that shows it,
and says for which inputs the promise holds; most of these conditions are exact.

- **Sends are never stored.** `enqueue_request` lists seven columns and binds six
  values: the path is missing (`relay/storage.py:158-163`). SQLite refuses such a
  statement, so the shipped endpoint stores nothing (`ShippedSendFails`,
  `ShippedRunsStoreNothing`). Results about runs therefore quantify over any tuple
  a send may bind; `StoredIffListed` says which ones are stored.
- **Bracket classes.** A pattern text reads back as intended exactly when every
  class body is non-empty, is not a lone `^` and has no dangling backslash
  (`TextReadsBack`); for `[]a]` it does not (`EmptyClassReadsDifferently`).
- **`**` and the whole path.** The rule `a**b` ignores `ax/yb` although it finds
  neither component (`DoubleStarCrossesComponents`). On all normalised paths a rule
  without inner slash is decided by the components exactly when no `**` stands
  between two pieces that need a character, or the rule is a first dot followed, but
  for runs, by one piece that takes whatever may come, as in `.**?`
  (`DecidedByComponents`). The mirror image `?**.` is no such exception: a component
  may be a dot and a newline, and `$` overlooks the newline.
- **Masking.** Texts over 500000 characters, and texts in which every match is
  shorter than six characters, pass unchanged (`ProcessContent`,
  `MaskedIffLongHit`). Otherwise a character is gone exactly when some pass masked
  it (`LeftIffNeverMasked`), and a pass searches what the passes before it have left.
  So a match around another one may no longer be found: in
  `api_key=AKIAABCDEFGHIJKLMNOPsecrettail123` the access key is masked first and
  `secrettail123` is shown (`OverlapLeavesARest`). The exact condition on the matches
  in the given text: let f be the first pattern with a match of six or more
  characters, and let its pass change the text. Then all such matches are gone,
  whatever the patterns find in the texts that follow, if and only if every one of
  them lies within those of f (`HiddenIffFirstHasAll`). With one such pattern that is
  always so (`LonePatternHidesAll`).
- **Walk depth.** The depth is counted after deleting every occurrence of the root
  path, so a path that repeats the root's own text counts as shallower
  (`DepthIsTrueIff`, `RepeatedRootHidesDepth`).
- **Pages.** Every provider is asked only for its share of one page. When providers
  keep to it, a second page is possible exactly when there are more of them than the
  limit (`SecondPageIffMoreProviders`, `NoSecondPage`), although paging as such is
  exact (`PagingPartitions`).
- **Dump and restore.** The trip is the identity on the dumped tables exactly when
  no blob is among the repository's rows, because the dump turns blobs into text
  (`RoundTrip`, `BlobComesBackAsText`). The other ten cleaned tables and the
  repository's own entry do not come back (`OtherTablesStayCleaned`). Restoring twice
  equals restoring once exactly when every dumped row that fits has some unique key
  filled in (`RestoreTwice`, `KeylessRowComesTwice`).
- **Staged write.** A file that another process creates between the existence
  check and the touch is replaced, even with `overwrite` off; without `atomic` the
  target passes through empty content (`FsWrite`).
- **Safeguard.** Two recorded kills of one PID are at least 30 seconds apart in every
  run in which no scan lists a PID twice (`KillsAreSpaced`). Nothing in the code
  removes duplicates; what they may do is said exactly by `SpacedIffOrderly`.
- **Delivery.** The bound on polls holds for a client that answers before it polls
  again (`ClientIsHandedTheRequest`). The client starts its tasks and polls at once,
  so nothing makes it do so, and an unanswered batch may be handed out again any
  number of times, while a request behind it waits (`PassedOverForever`).
- **Stopping.** `stop` only keeps the client from sending another poll. One that is in
  flight may still be served and answered, and its tasks are then started
  (`NoPollAfterStop`, `InFlightIsStillAnswered`).
- **Request ids.** `save_response` stores answers to ids it does not know, so a new
  request keeps the invariant exactly when no stored response already carries its
  id (`SendKeepsInvIffUnanswered`, `StaleAnswerBreaksInv`).
- **`.env`.** An earlier `export KEY=` or `KEY =` line still decides after an
  installation, since the writer does not see it and the reader does
  (`ExportLineStillDecides`, `InstallThenParse`). `RoundTrip` says exactly which
  values are read back.

## Model

| member | source | states |
|---|---|---|
| `IgnoreGlob.GlobToRegex` | src/services/security_filter.py:310-346 | the index loop ends and leaves, for every glob, the text of the pieces a left-to-right scan cuts it into |
| `IgnoreGlob.SingleGlobs` | src/services/security_filter.py:316-345 | in the glob semantics `?` is one character but no slash, `*` a run without slash, `**` any run with one slash after it absorbed, any other character itself |
| `IgnoreGlob.EmitNeverStartsAQuantifier` | src/services/security_filter.py:314-346 | whatever pieces follow, their text does not begin with a quantifier, so no fragment changes its left neighbour |
| `IgnoreGlob.TextReadsBack` | src/services/security_filter.py:310-346 | reading the compiled text gives back exactly the intended items if and only if every bracket class closes where the scanner closed it |
| `IgnoreGlob.ClassFreeCloses` | src/services/security_filter.py:328-345 | a glob without `[` always meets that condition |
| `IgnoreGlob.EmptyClassReadsDifferently` | src/services/security_filter.py:331-339 | the glob `[]a]` is scanned as an empty class and two characters but read as one class of two |
| `IgnoreGlob.ItemsMeanTheGlob` | src/services/security_filter.py:310-346 | the items accept a string if and only if the direct glob semantics does, for every glob and string |
| `IgnoreGlob.CompiledGlobMeansTheGlob` | src/services/security_filter.py:310-346 | for closing classes, searching the compiled text finds a string iff the glob stands for it, or for it without one final newline |
| `IgnoreGlob.CompiledGlobOnPaths` | src/services/security_filter.py:310-353 | on newline-free paths the compiled rule and the glob semantics agree, end to end |
| `IgnoreRules.NewRule` | src/services/security_filter.py:296-307 | directory flag, anchoring and pattern of a raw line; no rule where compiling raises |
| `IgnoreRules.PartsOfPath` | src/services/security_filter.py:358-361 | the components of a normalised path are the components it was joined from |
| `IgnoreRules.MatchesPath` | src/services/security_filter.py:348-361 | the loop over components returns whether the whole path or, for unanchored rules, some component matches, under the directory flag |
| `IgnoreRules.RuleMeaning` | src/services/security_filter.py:296-361 | what a raw line matches, in terms of the glob semantics only, for every line whose classes close |
| `IgnoreRules.LineMeaning` | src/services/security_filter.py:296-361 | of a glob with perhaps a slash before and slashes after it: slashes after it restrict it to directories, a slash before or inside it ties it to the whole path, otherwise some component may match |
| `IgnoreComponents.DecidedByComponents` | src/services/security_filter.py:299-361 | on all normalised paths a rule without inner slash, with inhabited slash-free classes, is decided by the components and the directory flag iff no `**` stands between two pieces that need a character, or it is a dot rule |
| `IgnoreComponents.ComponentsSuffice` | src/services/security_filter.py:348-361 | under that condition a whole path that is found has a component that is found |
| `IgnoreComponents.ComponentsFail` | src/services/security_filter.py:348-361 | otherwise some path is found as a whole while none of its components is |
| `IgnoreComponents.DotRuleCrosses` | src/services/security_filter.py:317-326 | `.**?` is such a dot rule |
| `IgnoreComponents.DoubleStarCrossesComponents` | src/services/security_filter.py:317-361 | the rule `a**b` matches `ax/yb` and its pattern finds neither `ax` nor `yb` |
| `IgnoreRules.LaterFileOverrides` | src/services/security_filter.py:672-680 | the `.aiignore` rules decide whatever any of them matches; the `.gitignore` rules decide the rest |
| `SecurityFilters.SecurityFilter.IsIgnored` | src/services/security_filter.py:662-680 | the two loops return true iff a last matching rule exists over both files and it is not a negation |
| `ContentMask.SpliceBackwards` | src/services/security_filter.py:593-599 | splicing right to left equals the left-to-right rewrite of all matches of at least six characters; the flag tells whether there was one |
| `ContentMask.MaskedLength` | src/services/security_filter.py:594-599 | each masked match trades its length for exactly twelve characters |
| `ContentMask.MaskSensitiveContent` | src/services/security_filter.py:576-605 | over any list of patterns, raising ones included, text, flag and findings are those of the history of passes |
| `ContentMask.RenderRewrite` | src/services/security_filter.py:593-598 | rewriting where characters come from commutes with rewriting the text itself |
| `ContentMask.OneHistory` | src/services/security_filter.py:591-603 | the patterns determine that history |
| `ContentMask.SurvivorsKeepOrder` | src/services/security_filter.py:591-605 | after any pass the original characters left are in their original order and all others are placeholder characters |
| `ContentMask.SurvivesPass` | src/services/security_filter.py:591-605 | one pass removes exactly the original characters inside the matches it masked |
| `ContentMask.MaskedStaysMasked` | src/services/security_filter.py:591-605 | an original character once masked appears in no later text |
| `ContentMask.MaskedIffLongHit` | src/services/security_filter.py:587-605 | something is masked iff some pattern has a match of six or more characters in the original text |
| `ContentMask.LeftIffNeverMasked` | src/services/security_filter.py:591-605 | over the whole history an original character is left iff no pass masked it |
| `ContentMask.FirstLongHitIsMasked` | src/services/security_filter.py:591-605 | the long matches of the first pattern that has any in the given text are gone at the end |
| `ContentMask.HiddenIffFirstHasAll` | src/services/security_filter.py:591-605 | for any sound patterns whose first one with a long match changes the text: all patterns with these matches in the given text leave no character of a long match, iff every long match lies within those of that first pattern |
| `ContentMask.FirstHidesAll` | src/services/security_filter.py:591-605 | under that condition on the given text nothing of any long match is left |
| `ContentMask.LonePatternHidesAll` | src/services/security_filter.py:576-605 | in particular if at most one pattern has a long match |
| `ContentMask.OverlapLeavesARest` | src/services/security_filter.py:591-605 | two patterns, one match inside the other: everything outside the inner match is left, though sensitive |
| `ContentMask.CellsShowMaskedText` | src/services/security_filter.py:591-605 | the history shows the text that each pattern, searching what the one before has left, makes of it |
| `SecurityFilters.SecurityFilter.ContainsVulgarContent` | src/services/security_filter.py:525-541 | found iff the text is within the limit and some pattern hits; one message per hitting pattern in order |
| `SecurityFilters.SecurityFilter.DetectSensitiveContent` | src/services/security_filter.py:545-567 | the same for sensitive patterns |
| `SecurityFilters.SecurityFilter.ProcessContent` | src/services/security_filter.py:609-658 | block and mask exactly characterised by the matches in the given text, with text, reasons and findings of each outcome |
| `SecurityFilters.BlocksAndMasksExactly` | src/services/security_filter.py:525-658 | in figures: texts of 1 to 500000 characters, matches of at least six, vulgar or strict blocks, otherwise masked |
| `SecurityFilters.MessagesInOrder` | src/services/security_filter.py:534-567 | one message for every pattern that hits, in pattern order |
| `SecurityFilters.SecurityFilter.CheckFile` | src/services/security_filter.py:684-740 | a file is allowed iff path, name, ignore rules and content all allow it; all reasons in order, all details and the masked content of every outcome |
| `PrunedWalk.DepthFormula` | src/services/unified_search.py:675 | the computed depth is the separators below the root less those of every further occurrence of the root's text |
| `PrunedWalk.DepthIsTrueIff` | src/services/unified_search.py:714-717 | the computed depth is the true one iff the root has no final separator and holds none or does not recur; it never exceeds the true one |
| `PrunedWalk.RepeatedRootHidesDepth` | src/services/unified_search.py:714-715 | below the root `/a`, the directory `/a/a/a` has computed depth 0 |
| `PrunedWalk.VisitedExactly` | src/services/unified_search.py:713-720 | over every tree, the directories visited are those with an unpruned way down within the depth limit |
| `PrunedWalk.ReachedExactly` | src/services/unified_search.py:713-721 | over every tree, the files reached are those in a directory all of whose ancestors are shallow enough and neither skipped, dot-named nor ignored |
| `PrunedWalk.NoReturnBelowPruned` | src/services/unified_search.py:720-721 | no rule brings a file back below an ignored directory |
| `FileSearch.PruneDirs` | src/services/unified_search.py:718-720 | editing the list of sub-directories in place keeps exactly the ones to visit, in order |
| `FileSearch.CollectFrom` | src/services/unified_search.py:721-812 | the file loop of one directory extends the capped list of accepted files |
| `FileSearch.CollectFiles` | src/services/unified_search.py:713-812 | the walk terminates and collects the first so many accepted files of those reached, in walk order |
| `FileSearch.CollectDirs` | src/services/unified_search.py:672-696 | the folder walk finds the first matching kept sub-directory of every visited directory |
| `FileSearch.SearchFilesystem` | src/services/unified_search.py:672-816 | the answer is the first so many of all folder and file hits |
| `FileSearch.FewerResultsAreAPrefix` | src/services/unified_search.py:722-723 | a smaller cap gives a prefix of the answer under a larger one |
| `FileSearch.ReadFile` | src/services/unified_search.py:736-812 | the second check: blocked content gives no result, and the result carries what is shown of the content |
| `FileSearch.OnlyPermittedIsShown` | src/services/unified_search.py:729-812 | every file in an answer was reached and permitted; its content is not blocked and shown masked where it must be |
| `FileSearch.FileHitsExactly` | src/services/unified_search.py:712-812 | a file with its shown text is among the hits iff it is reached, fits, is permitted and not too large, and is unreadable with a matching name, or has content that may be shown and matches by name or shown text, or nothing is asked for |
| `FileSearch.FolderHitsExactly` | src/services/unified_search.py:672-710 | a folder is among the hits iff there is a query and it is the first sub-directory, enterable and with a matching name, of a directory the folder pass comes to |
| `FileSearch.NothingFromClosedDirs` | src/services/unified_search.py:651-652 | no file of an answer lies below a dot-named directory or one of the thirteen never entered |
| `FileSearch.Capped` | src/services/unified_search.py:722-723 | the cap gives a prefix of just the length it allows |
| `WalkOrder.WalkTopDown` | src/services/unified_search.py:713-721 | a directory's own files come before those below it |
| `WalkOrder.WalkInListingOrder` | src/services/unified_search.py:713-720 | sub-directories are walked in listing order |
| `WalkOrder.NoFileTwice` | src/services/unified_search.py:713-721 | over a tree in which no directory lists a name twice, no file is reached twice |
| `SearchPages.ApplyResultFilter` | src/services/unified_search.py:469-484 | the loop keeps exactly the items that pass every given condition, in order |
| `SearchPages.SortDescSorts` | src/services/unified_search.py:2176 | the sort is descending and keeps, score by score, the given items in the given order |
| `SearchPages.SortKeepsAll` | src/services/unified_search.py:2176 | the sort loses and invents nothing |
| `SearchPages.OneStableOrder` | src/services/unified_search.py:2176 | a descending list is determined by its items of each score: stable sorting has one answer |
| `SearchPages.FilterCommutesWithSort` | src/services/unified_search.py:2176-2177 | filtering after the sort equals sorting the filtered list |
| `SearchPages.PagingPartitions` | src/services/unified_search.py:2178-2190 | following `next_offset` from 0 ends after the rounded-up number of pages, at least one, whose concatenation is the list; all but the last are full |
| `SearchPages.HasMoreIffLaterItems` | src/services/unified_search.py:2183-2190 | `has_more` holds iff some later page is non-empty |
| `SearchPages.PageHolds` | src/services/unified_search.py:2178-2190 | total, items, `has_more` and `next_offset` of a page at any offset |
| `SearchPages.NegativeOffset` | src/services/unified_search.py:2179 | a negative offset counts from the end |
| `SearchPages.Gather` | src/services/unified_search.py:2116-2127 | used providers and errors add up to the targets; merged items, messages and metrics are those of the answers, in order |
| `SearchPages.MergedOne` | src/services/unified_search.py:2116-2127 | a provider that raised adds its message, one that reports an error the error, any other all its items in order |
| `SearchPages.MergedConcat` | src/services/unified_search.py:2116-2127 | the merge of two lists of answers is that of the first, then that of the second |
| `SearchPages.MetricsAre` | src/services/unified_search.py:2116-2126 | the metric of a target is what its last outcome that did not raise says it found, none for an error |
| `SearchPages.PagesHoldAllItems` | src/services/unified_search.py:2113-2190 | without a filter the pages hold every item of every answer without error as often as it was given, and nothing else |
| `SearchPages.PagesHoldFilteredItems` | src/services/unified_search.py:469-484 | with a filter exactly those of them that meet every condition given |
| `SearchPages.PerTarget` | src/services/unified_search.py:2083 | the largest share that all targets can have, and at least one |
| `SearchPages.FanOutBudget` | src/services/unified_search.py:2083-2127 | if every provider keeps its share, the merged list is within the limit or the number of providers |
| `SearchPages.NoSecondPage` | src/services/unified_search.py:2083-2190 | if no more providers than the limit all keep to their share, there is never a second page |
| `SearchPages.SecondPageIffMoreProviders` | src/services/unified_search.py:2083-2190 | providers within their shares can fill a second page iff there are more of them than the limit |
| `SearchPages.CheckData` | src/services/unified_search.py:2130-2135 | true iff no database provider is among the targets or one of them found something |
| `SearchPages.SearchEngine.SearchWithContext` | src/services/unified_search.py:2007-2203 | the recursion ends; it re-runs iff auto-indexing applies on the first attempt; the answer is the page of the sorted, filtered merge of the last fan-out |
| `SearchPages.SearchEngine.Search` | src/services/unified_search.py:2004-2005 | at most one rebuild and two fan-outs |
| `RelayTime.DecimalOrder` | relay/models.py:88 | zero-padded fields of one width compare as text exactly as their numbers do |
| `RelayTime.CalendarOrder` | relay/models.py:87-97 | calendar order is the order of instants, and one instant has one calendar reading |
| `RelayTime.StampOrder` | relay/models.py:87-97 | for four-digit years, comparing the stored texts is comparing the instants (section 5.1 of RFC 3339) |
| `RelayTime.StampShape` | relay/models.py:88 | where the fields and marks of the text stand |
| `RelayTime.YearLength` | relay/models.py:87-97 | lengths of months and years, leap years spelled out |
| `RelayTime.NextSecondIsNext` | relay/models.py:95-97 | calendar succession, over months, leap days and years, is one second on the timeline |
| `RelayTime.AddSeconds` | relay/models.py:95-97 | a valid calendar time exactly that much later, none iff that is later than every four-digit-year time |
| `RelayTime.SecondBeforeIsBefore` | relay/models.py:95-97 | going back a second is undone by going on one |
| `RelayTime.Expiry` | relay/models.py:95-97 | the time that many hours later, or earlier for a negative number, none iff it is out of range |
| `RelayStore.RelayStore.RegisterTunnel` | relay/storage.py:100-118 | a new row with zero count and the stamped expiry, for any number of hours; no change on overflow, which is said exactly, or a taken id |
| `RelayStore.RelayStore.DeleteTunnel` | relay/storage.py:134-139 | only the tombstone of that tunnel is set |
| `RelayStore.RelayStore.CleanupExpired` | relay/storage.py:141-149 | exactly the expired unmarked tunnels are marked, and counted |
| `RelayStore.RelayStore.EnqueueRequest` | relay/storage.py:153-169 | as shipped, always the binding error, and no change |
| `RelayStore.RelayStore.ExecuteEnqueue` | relay/storage.py:158-168 | insert and count happen together or not at all |
| `RelayStore.RelayStore.PollRequests` | relay/storage.py:171-184 | the rows of the query, in order, turned into what the client receives |
| `RelayStore.RelayStore.SaveResponseRow` | relay/storage.py:186-203 | replaces any answer of the same request and marks the request |
| `RelayStore.StoredIffListed` | relay/storage.py:158-163 | with its generated id a bound tuple is stored iff it fills all seven columns, none but the body NULL, and the id is new |
| `RelayStore.ShippedSendFails` | relay/storage.py:158-163 | the shipped tuple is the listed one without the path, and always fails; the listed one succeeds |
| `RelayStore.SentIsPolled` | relay/storage.py:153-184 | what a complete tuple stores is pending and is what a poll hands out, field for field |
| `RelayStore.QueryHasAnswer` | relay/storage.py:171-175 | the polling query has an answer in every state for every limit |
| `RelayRuns.SendKeepsInvIffUnanswered` | relay/storage.py:153-169 | a stored send keeps the invariant iff no stored response carries its id |
| `RelayRuns.StepKeepsInv` | relay/main.py:105-169 | every endpoint step, with any tuple a send may bind, keeps counts, uniqueness of answers and responded-iff-answered |
| `RelayRuns.RunKeepsInv` | relay/main.py:105-169 | so does every run, in each of its states |
| `RelayRuns.ReachableIsInv` | relay/main.py:105-169 | so every state reachable from empty tables has these properties |
| `RelayRuns.PendingOrAnsweredOnce` | relay/storage.py:171-203 | every request is pending with no response row, or responded with exactly one |
| `RelayRuns.RepeatedResponse` | relay/storage.py:193-203 | a repeated response changes neither requests, tunnels nor the row count nor other answers, only its own stored answer |
| `RelayRuns.StaleAnswerBreaksInv` | relay/storage.py:193-203 | an answer to an unknown id is stored, and a request that later takes this id breaks the invariant |
| `RelayRuns.ShippedRunsStoreNothing` | relay/storage.py:153-169 | with the shipped send no run ever adds a request, and every poll is empty |
| `RelayRuns.CleanupIsUnobservable` | relay/storage.py:120-149 | no later look-up can tell whether a clean-up took place |
| `RelayRuns.CleanupTwice` | relay/storage.py:141-149 | a second clean-up at the same time counts 0 and changes nothing |
| `RelayRuns.DeathIsPermanent` | relay/storage.py:120-149 | a tunnel once invisible is invisible in every later state of every run |
| `RelayRuns.RegisteredForADay` | relay/storage.py:100-132 | a registered tunnel is visible exactly until its deletion or 24 hours later, over any run |
| `RelayDelivery.PollTakesEarliest` | relay/storage.py:171-175 | a poll hands out the smaller of limit and queue, earliest stamps first |
| `RelayDelivery.HandedOutInTime` | relay/storage.py:171-203 | among more than K div limit polls, K the unanswered requests stamped no later, one hands a still pending request out |
| `RelayDelivery.NoNewRivals` | relay/storage.py:153-175 | once the clock has left a request's second, no step of any run adds a request stamped no later |
| `RelayDelivery.HandedOutByPosition` | scripts/server/tunnel.py:76-86 | with k others pending and stamped no later, k div limit + 1 polls suffice |
| `RelayClient.TunnelClient.ServePoll` | scripts/server/tunnel.py:78-80 | the relay puts the rows of its query on the wire |
| `RelayClient.TunnelClient.TakeBatch` | scripts/server/tunnel.py:80-86 | the answer adds one task for every request of the batch, whether or not stop was called meanwhile |
| `RelayClient.TunnelClient.EndTask` | scripts/server/tunnel.py:93-126 | the end of a task, in whatever order tasks end: its reply is stored if it reaches a live tunnel |
| `RelayClient.TunnelClient.Run` | scripts/server/tunnel.py:50-91 | the loop, which looks at the flag only before it sends a poll, with its tasks, other parties and stop in any interleaving, ends as the moves make it |
| `RelayClient.MovesAreARun` | scripts/server/tunnel.py:50-129 | every interleaving, stop between a poll and its answer included, is a run of the relay in which the client's polls are polls |
| `RelayClient.BatchesAreAnswered` | scripts/server/tunnel.py:76-126 | a client that answers first has every batch answered when its next poll is served, whatever others do |
| `RelayClient.ClientIsHandedTheRequest` | scripts/server/tunnel.py:76-126 | for such a client k div 10 + 1 polls hand out a request that waits behind k others |
| `RelayClient.UnansweredBatchComesAgain` | scripts/server/tunnel.py:76-91 | without that, a batch may be handed out again any number of times, and nothing else changes |
| `RelayClient.PassedOverForever` | scripts/server/tunnel.py:76-91 | a request outside that batch is then pending at every one of any number of polls and handed out by none |
| `RelayClient.RepliesAnswerExactly` | scripts/server/tunnel.py:93-126 | in any order of the tasks' ends, exactly the requests with an accepted reply are answered; all else of a request stays |
| `RelayClient.RepliesAreStored` | scripts/server/tunnel.py:104-126 | an accepted reply is stored with the local status and body, or status 502 and the error text, unless a later one answers the same request |
| `RelayClient.NoPollAfterStop` | scripts/server/tunnel.py:76-129 | after a call of stop no poll is sent; at most the one on its way is served, at most the one in flight is answered |
| `RelayClient.InFlightIsStillAnswered` | scripts/server/tunnel.py:80-86 | the poll in flight at the stop can still be answered, and its tasks are started |
| `RepoTransfer.RepoDatabase.Cleanup` | src/api/orchestration.py:405-437 | the new tables and the reply for every outcome, a missing repository and a dry run included |
| `RepoTransfer.CleanTakesExactly` | src/api/orchestration.py:421-433 | from the list of repositories as from the fourteen other tables exactly the repository's rows go; every other row is there as often as before, and NULL takes nothing |
| `RepoTransfer.CleanKeepsOrder` | src/api/orchestration.py:421-433 | the rows that stay keep their order |
| `RepoTransfer.RepoDatabase.DumpRepository` | src/api/orchestration.py:466-481 | the repository's rows of the four tables as JSON carries them; nothing changes |
| `RepoTransfer.DumpHoldsExactly` | src/api/orchestration.py:467-474 | each of the four tables is dumped with exactly the repository's rows |
| `RepoTransfer.RepoDatabase.Restore` | src/api/orchestration.py:530-546 | the nested insert loops leave the restored tables; a dry run leaves all as is |
| `RepoTransfer.RestoreOnlyAdds` | src/api/orchestration.py:536-543 | no stored row is altered, moved or removed |
| `RepoTransfer.InsertedAsGiven` | src/api/orchestration.py:535-541 | a row not refused is stored last with its own values and NULL elsewhere |
| `RepoTransfer.RestoreTwice` | src/api/orchestration.py:533-543 | restoring twice equals once iff every dumped row that fits has a complete unique key |
| `RepoTransfer.KeylessRowComesTwice` | src/api/orchestration.py:533-543 | a row whose only key is NULL is there twice after two restores |
| `RepoTransfer.TableRoundTrip` | src/api/orchestration.py:420-544 | one table keeps its rows through the trip iff none of the repository's rows holds a blob |
| `RepoTransfer.BlobComesBackAsText` | src/api/orchestration.py:470-481 | a row with a blob comes back with the text of it |
| `RepoTransfer.RoundTrip` | src/api/orchestration.py:420-544 | the same for each of `files`, `directories`, `symbols` and `edges` in the whole database |
| `RepoTransfer.OtherTablesStayCleaned` | src/api/orchestration.py:421-433 | all other tables end as the clean-up left them |
| `RepoTransfer.OtherEntriesStay` | src/api/orchestration.py:421-544 | the trip leaves every other entry of the list of repositories as often as it was |
| `RepoTransfer.OthersUntouched` | src/api/orchestration.py:421-544 | throughout, after any number of restored rows, other repositories' rows are the same in the same order |
| `StagedWrite.CheckParentWriteChain` | src/api/orchestration.py:729-790 | finds the nearest existing ancestor and the missing levels, and passes iff that ancestor is writable |
| `StagedWrite.MakeParents` | src/api/orchestration.py:1066-1102 | the missing parents are made iff they hang on a writable folder and nothing fails; only folders above the target appear |
| `StagedWrite.Touch` | src/api/orchestration.py:1116-1139 | the target is empty, or holds what another process put there, or the error code of the failure |
| `StagedWrite.PrepareNew` | src/api/orchestration.py:1053-1139 | a new target is there after the touch iff its parents, access and the touch allow it; every state on the way is safe |
| `StagedWrite.MakeBackup` | src/api/orchestration.py:1141-1156 | on success the backup equals the target, which never changes |
| `StagedWrite.WriteAtomic` | src/api/orchestration.py:1158-1181 | success, exactly when open, write and swap succeed, is the whole new content and no temporary file; failure leaves the target alone; every state is safe |
| `StagedWrite.WriteDirect` | src/api/orchestration.py:1182-1184 | success, exactly when open and write succeed, is the whole new content, after a state in which the target is empty; code of each failure |
| `StagedWrite.FsWrite` | src/api/orchestration.py:1015-1187 | at every recorded state, whichever call fails, an existing target is whole old or whole new when atomic and a new one absent, empty or whole; exactly when it succeeds; success is the new content; backup is the old one; a file there without overwrite is refused unchanged |
| `Safeguard.UnknownIsOld` | src/main.py:373-397 | a PID that reading the cache does not list was last killed at least 30 seconds ago |
| `Safeguard.FreshRemembers` | src/main.py:399-410 | what writing the cache drops is no kill that is young then or later |
| `Safeguard.Files.KillScanned` | src/main.py:522-552 | the scanning loop's kills, new cache and flag for any scan |
| `Safeguard.Files.SafeguardInstance` | src/main.py:487-594 | cache, lock, kills and clock after a start in either mode |
| `Safeguard.Files.Cleanup` | src/main.py:597-609 | the lock goes iff it names the exiting process |
| `Safeguard.KillsAreSpaced` | src/main.py:373-584 | over any run of starts and exits whose scans list no PID twice, recorded kills of a PID are at least 30 seconds apart |
| `Safeguard.StartKillsLawfully` | src/main.py:487-584 | a start kills neither itself nor its Node parent, and nothing at all in shared mode; earlier kills stay on record |
| `Safeguard.StartKillsExactly` | src/main.py:518-584 | phase 1 kills, in scan order, exactly the scanned processes that are neither the starter, its Node parent, recently killed, young nor a Node child; phase 2 exactly a live lock owner of that kind if no kill of phase 1 succeeded; nobody else |
| `Safeguard.CacheListsKills` | src/main.py:518-584 | what the cache lists after a start it listed before, or the start has just killed |
| `Safeguard.ExitTakesOwnLock` | src/main.py:497-509 | an exit removes exactly a lock that names the exiting process and touches nothing else |
| `Safeguard.StartKeepsInv` | src/main.py:518-584 | an orderly start keeps kills spaced and all young kills remembered in the cache |
| `Safeguard.SpacedIffOrderly` | src/main.py:373-584 | over any run of starts and exits, the same iff no start so far had one process fall twice too soon |
| `Safeguard.RepeatedPidIsKilledTwice` | src/main.py:523-552 | a scan that lists a PID twice can have it killed twice within a second |
| `Safeguard.LockNamesLatest` | src/main.py:487-611 | once anything has started, the lock file is absent or names the latest starter |
| `Redaction.SensitiveIffMarked` | scripts/server/http.py:34 | a key is sensitive iff one of the six markers is in it after lower-casing |
| `Redaction.RedactSensitive` | scripts/server/http.py:39-55 | the recursion with its dict loop builds the redacted value, key by key in order |
| `Redaction.NothingShows` | scripts/server/http.py:39-55 | values that differ only below sensitive keys redact to equal values |
| `Redaction.RedactTwice` | scripts/server/http.py:39-55 | redaction is idempotent |
| `Redaction.ClearPlacesAreKept` | scripts/server/http.py:39-55 | at every place reached through no sensitive key stands the redaction of what stood there, leaves unchanged |
| `Redaction.SensitivePlacesAreHidden` | scripts/server/http.py:45-48 | under a sensitive key stands the marker and nothing below it |
| `EnvFile.EnvStore.InstallToEnv` | scripts/server/keygen.py:30-51 | refuses, unchanged, iff the key is assigned and force is off; otherwise replaces or appends the assignment |
| `EnvFile.InstalledKeepsLines` | scripts/server/keygen.py:44-48 | only the first assigning line changes, or one is added at the end |
| `EnvFile.WrittenHasLines` | scripts/server/keygen.py:50 | the file then has these lines but for trailing blanks |
| `EnvFile.EnvStore.ParseEnvValue` | scripts/server/setup.py:192-209 | the first line that speaks of the key decides; an empty value reads as missing |
| `EnvFile.QuotedIsReadBare` | scripts/server/setup.py:207 | a value in quotes of either kind is read without them |
| `EnvFile.CommentSaysNothing` | scripts/server/setup.py:198-199 | a comment says nothing of any key |
| `EnvFile.SplitAtReturn` | scripts/server/setup.py:196 | a carriage return ends a line, alone or before a newline |
| `EnvFile.WrittenReads` | scripts/server/keygen.py:50 | joining the lines and trimming the end of the file changes no value that is read back |
| `EnvFile.InstallThenParse` | scripts/server/setup.py:192-209 | after an installation: the earlier variant line's value if any, else the installed value stripped; every other key reads as before |
| `EnvFile.RoundTrip` | scripts/server/keygen.py:30-51 | the value is read back as given iff it is non-empty and either an earlier variant line says just this value, or there is none and it has no blank or quote at either end |
| `EnvFile.ExportLineStillDecides` | scripts/server/keygen.py:36-50 | with `export KEY=old` in the file the installation succeeds without force and the old value is still read |
| `EnvFile.KeyNameIsGood` | scripts/server/keygen.py:23 | the shipped key name meets what the round trip asks of names |

## Left out

- HTTP routing, tool registration, command lines, logging and tracing; API keys and cloud sync of the relay.
- `RelayDelivery.HandedOutInTime`: assumes that a batch is answered before the next of the counted polls, as does `RelayDelivery.HandedOutByPosition`; `BatchesAreAnswered` says which clients see to it.
- `RelayDelivery.HandedOutByPosition`: assumes also that the first poll comes after the second in which the request was stamped, since stamps have no finer grain.
- `RelayStore.StoredIffListed`: does not speak of tuples whose id is NULL, which SQLite would store; ids are generated (`relay/models.py:91-92`) and never are.
- `RelayStore.RelayStore.RegisterTunnel`: an expiry before the year 1000 is not modelled.
- `RelayStore.RelayStore.PollRequests`: takes the rows as any answer the query allows; SQLite promises no order among equal stamps.
- `RelayTime.StampOrder`: holds for the years 1000 to 9999; `strftime` does not pad earlier years on every platform.
- SQLite beyond the statements themselves: locks and other failing statements, NOT NULL and foreign keys in restored tables, type affinity; the table schema of the repository database is not part of this model, so columns and unique keys are parameters.
- `RepoTransfer.RepoDatabase.DumpRepository`: the look-up of the repository by path, the dry run, file names and output directory are outside; so are `RegistryManager` and the choice among several dump files of a directory in a restore.
- JSON encoding and decoding as such; relay bodies and headers are carried as the text stored.
- The secret and vulgarity patterns themselves: any function giving ordered, disjoint matches, or raising; that `search` finds something iff `finditer` does is taken for granted.
- Python's pattern engine beyond the reader of `RegexText`: what a bracket class contains is an arbitrary function, and groups, alternation, counted and possessive repeats count as unreadable.
- `IgnoreGlob.TextReadsBack`: a class whose content Python rejects, such as `[z-a]`, counts as read, because contents are left open; `re.compile` raises for it.
- `IgnoreRules.RuleMeaning`: promises a rule for such a line too.
- `IgnoreRules.NewRule`: for the same reason gives a rule for such a line, where the source raises.
- `IgnoreComponents.DecidedByComponents`: leaves open the rules with a class that takes a slash, such as `[^a]`, or no character at all.
- `parse_ignore_file` and the loading of ignore files; rules start from their raw lines.
- `is_path_allowed` and the tables of sensitive names: arbitrary functions of the path; path separators other than `/`.
- `FileSearch.CollectFiles`: the name pattern, the size limit, the text read and the matches of names and texts are arbitrary functions; how a snippet is cut from the shown text, scores, folder file counts, and symbolic links to directories are outside.
- Provider bodies, the table of targets, latencies and index status; scores that are not numbers; result filters whose conditions are strings rather than lists.
- `Redaction.RedactSensitive`: dataclasses, models and other objects, and keys that are not strings.
- Tunnel registration by the client; a client is modelled once it holds its tunnel id. The local call a task makes is an input.
- `Safeguard.Files.SafeguardInstance`: process probes, the scan, kill results and clock readings are inputs; a start or an exit is one step, cache and lock writes succeed, exits are clean, and cached times survive JSON exactly.
- `StagedWrite.FsWrite`: path resolution, the health check before the write that may restore or remove a corrupted file, encodings and other processes apart from the one race at the touch; the random backup name is assumed not to be a folder.
- `EnvFile.EnvStore.InstallToEnv`: encoding and newline translation of the file; a `.env` that is a directory.
- Index building, encryption, insight generators, scaffolding, bridges and development scripts: input, output, tables or libraries rather than logic of their own.
