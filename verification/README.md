# softwareGateway: verified models of its self-contained algorithms

A Dafny 4.11 project that models the algorithms and small stateful components of
the software gateway that do not depend on its database, queue or registries, and
proves what each of them is for. `dafny verify dfyconfig.toml` checks all of it.

One module per component:

| module | component |
|---|---|
| `EventHub` | subscriber hub: a state machine over subscribe, cancel, publish and read, and the classes that refine it |
| `ChangeFeed` | the poller that turns snapshots of the live transfers into hints, and its connection to the hub |
| `WidthAllocator` | fitting a table to a terminal: the allocator and the in-place rewrite |
| `LineBreaker` | the greedy line breaker |
| `Fingerprint` | the canonical byte stream of a staged tree |
| `ArtifactTree` | the forest printer |
| `ByteSize` | the byte-size printer and parser |
| `Paging` | both halves of page tokens |
| `RateTracker` | the throughput estimator |
| `CompareTracker` | the bounded progress registry |
| `Workbook` | the compliance workbook's grouped sheets |
| `SecurityJoin` | the group-and-scatter join of a listing |
| `ManifestCache` | the read-through cache of manifests by digest |
| `Text`, `Sequences` | shared: numerals, byte order, sorting as a promise |

Code that works step by step is modelled as methods and classes, each proved
equal to a specification function; the lemmas then say what that function means.
A run is an arbitrary sequence of steps, a snapshot an arbitrary map, a clock an
arbitrary number. Map iteration picks any remaining key, so nothing proved depends
on its order. Library sorts are one sort plus a proof (`Sequences.SortedUnique`)
that the order determines the result.

## What does not hold, and exactly when it does

- A size of 1 PiB or more, or a negative one, prints to a text the parser rejects;
  `ByteSize.RoundTrip` gives the range in which it is accepted. A size just below
  the next unit prints as `1024.0` and does not print the same again:
  `ByteSize.PrintIsStable` has the exact bound and `ByteSize.RoundsUpWitness` a size
  that meets it.
- The tree printer ends if and only if no way down from a root meets one ID twice:
  `ArtifactTree.EndsExactly`, which `ArtifactTree.WalkDecides` turns into one walk a
  caller can make first. Distinct IDs are enough, not necessary.
- A transfer that appears with an empty version is not published, because a
  missing map entry reads as the empty string: `ChangeFeed.BlankAppearanceIsLost`
  and the exception in `ChangeFeed.NoLostChange`. Here the version is whatever the
  query answers; the table it reads cannot answer that, since `updated_at` is
  NOT NULL (db/migrations/postgres/00001_initial_schema.sql:193).
- The progress registry looks an entry up by token alone, so a report or finish
  can find the entry of a later start of its token. Every entry shows the calls of
  its own comparison and no others if and only if no such late call changes the
  entry it finds (`CompareTracker.EntriesShowTheirOwn`); while the clock advances,
  if and only if there is no such late call (`CompareTracker.OwnWhenClockAdvances`).
  Never starting a token twice is enough (`CompareTracker.StartedOnceIsEnough`). In
  `CompareTracker.LateFinishWitness` a running comparison is marked done.
- The comment at cmd/transferctl/watch.go:85-88 says different intervals describe
  the same history. Over the same stretch a division into samples forgets strictly
  more than any it refines, except when there is no error or no average yet:
  `RateTracker.FinerSamplingForgetsMore`. The thirty-second bound holds for all.

## Model

| member | source | states |
|---|---|---|
| EventHub.Hub.Subscribe | internal/api/events.go:71-89 | the new channel is registered under the next ID; the hub's state is the protocol's next state |
| EventHub.Hub.Cancel | internal/api/events.go:81-88 | removes and closes a registered subscriber, does nothing for any other; no channel is closed twice |
| EventHub.Hub.Publish | internal/api/events.go:97-106 | every registered channel with room gains the ID, a full one is skipped, in whatever order the map is visited; nothing is sent on a closed channel |
| EventHub.Hub.Subscribers | internal/api/events.go:108-112 | the number of registered subscribers |
| EventHub.Hub.Receive | internal/api/events.go:212-215 | a reader takes the oldest waiting ID |
| EventHub.Lifecycle | internal/api/events.go:71-106 | over every run: the k-th subscriber has ID k, its channel is closed at most once and exactly when it is unregistered, and nothing is sent on it afterwards |
| EventHub.CancelTwice | internal/api/events.go:81-88 | helper: cancelling again changes nothing |
| EventHub.RunWellFormed | internal/api/events.go:71-106 | in every reachable state an open channel is a registered one and at most 64 IDs wait |
| EventHub.Delivery | internal/api/events.go:91-106 | read plus waiting is, in order and once each, exactly the published IDs that did not meet a queue of 64 |
| EventHub.LossIsOverflow | internal/api/events.go:91-106 | that is a subsequence of what was published while registered; the missing are those that met a full queue, and it is complete if and only if there were none |
| EventHub.AttentiveReader | internal/api/events.go:91-106 | a registered reader that stays and loses nothing is sent, after what it already had, exactly what is published meanwhile |
| EventHub.Isolation | internal/api/events.go:93-96 | taking away every other reader's reads and cancellations leaves a subscriber's stream as it was |
| ChangeFeed.WatchTransfers | internal/api/events.go:120-166 | each tick of any run publishes what the specification of a tick allows for the snapshot remembered so far |
| ChangeFeed.Compare | internal/api/events.go:147-153 | the new snapshot, and the rows whose version is not the remembered one |
| ChangeFeed.Departed | internal/api/events.go:159-163 | each remembered ID that is gone, once |
| ChangeFeed.SnapshotIsLastRow | internal/api/events.go:147-149 | a snapshot has the IDs the query returned, each with the version of its last row |
| ChangeFeed.MovedIsByRow | internal/api/events.go:148-152 | an ID is published for a row exactly when the row's version is not the one remembered, repeated IDs included |
| ChangeFeed.MovedRowByRow | internal/api/events.go:148-152 | one hint for each such row, in the query's order |
| ChangeFeed.SeenIsLastAnswer | internal/api/events.go:130-165 | what is remembered is the last answer got while somebody was subscribed |
| ChangeFeed.NoAnswerNoChange | internal/api/events.go:130-145 | before the first such answer nothing is remembered, and a tick without one publishes nothing |
| ChangeFeed.TickMissesNothing | internal/api/events.go:147-164 | an ID that a successful tick does not publish has the version and presence it had, or appeared without a version; repeated IDs included |
| ChangeFeed.TickIsExact | internal/api/events.go:147-164 | with unique IDs, exactly the changed, new and departed IDs are published, each once |
| ChangeFeed.NoLostChange | internal/api/events.go:120-166 | a transfer that differs between two points of a run was published between them, across idle ticks and failed queries |
| ChangeFeed.BlankAppearanceIsLost | internal/api/events.go:148-152 | the one exception, as a concrete run |
| ChangeFeed.ChangeReachesReader | internal/api/events.go:91-166 | a reader registered before, not cancelled, and losing nothing while the hints of ticks a to b are published, is sent meanwhile the ID of every transfer that changed between them; others may come, read and go |
| WidthAllocator.FitCells | cmd/transferctl/output.go:135-174 | the table in place becomes the fitted table; untouched for an unknown width, no rows or no feasible fit, whatever the elastic indices then are |
| WidthAllocator.Measure | cmd/transferctl/output.go:140-148 | the widest cell of each column of the first row |
| WidthAllocator.Fits | cmd/transferctl/output.go:178-186 | whether the row fits with every elastic column at its floor |
| WidthAllocator.RowWidth | cmd/transferctl/output.go:190-199 | the cells plus the gaps between them |
| WidthAllocator.Shrink | cmd/transferctl/output.go:154-165 | takes from the widest until the row fits; the loop's break is unreachable |
| WidthAllocator.Shorten | cmd/transferctl/output.go:167-173 | one row rewritten, an index listed twice included |
| WidthAllocator.WidestExists | cmd/transferctl/output.go:155-163 | a row that is too wide but can fit has a column that can give |
| WidthAllocator.CanFitExactly | cmd/transferctl/output.go:176-186 | the check made first passes if and only if some allotment that keeps the rigid columns and every floor of 14 fits |
| WidthAllocator.FirstGivesFirst | cmd/transferctl/output.go:155-161 | of equally wide columns the one listed first gives: a column that gave is no narrower than the elastic ones listed before it |
| WidthAllocator.ExactAndFair | cmd/transferctl/output.go:116-165 | the allocation sums with the gaps to exactly the width, only elastic columns give, none below min(original, 14), and every elastic column is at most one wider than any shortened one |
| WidthAllocator.MaxMinFair | cmd/transferctl/output.go:119-122 | any allotment that gives a shortened column more takes from an elastic column that had at most one more |
| WidthAllocator.WidestIsLeast | cmd/transferctl/output.go:119-122 | no allotment that uses the whole width and gives no column more than its measured width has a narrower widest elastic column |
| WidthAllocator.MeasuredIsAllocated | cmd/transferctl/output.go:140-173 | measuring the rewritten table gives the allocation back |
| WidthAllocator.FittedWidth | cmd/transferctl/output.go:116-174 | a table that must and can shrink measures exactly the terminal's width; any other keeps its width |
| WidthAllocator.UntouchedExactly | cmd/transferctl/output.go:124-153 | a table is left as it was if and only if the width is unknown, no allotment fits or it fits already |
| WidthAllocator.PrintsWithin | cmd/transferctl/output.go:54-56 | every full row of a table that can fit prints within the terminal, with three blanks between padded columns |
| WidthAllocator.ColumnMaxAttained | cmd/transferctl/output.go:140-148 | helper: a measured width is some cell's |
| WidthAllocator.CellsKeepTheirEnds | cmd/transferctl/output.go:201-226 | a changed cell is in an elastic column and is a prefix, one ellipsis and a suffix of the original, the tail taking the odd rune, at least 14 wide |
| WidthAllocator.TruncateTwice | cmd/transferctl/output.go:212-226 | helper: truncating again changes nothing |
| WidthAllocator.FitTwice | cmd/transferctl/output.go:135-174 | fitting a fitted table changes nothing |
| LineBreaker.Wrap | cmd/transferctl/calibrate_render.go:185-209 | the loop prints the greedy lines |
| LineBreaker.WrapIsOptimal | cmd/transferctl/calibrate_render.go:184-209 | the lines hold the words in order, each fits or is one word, no such split of the words has fewer, and a line ends only where the next word does not fit |
| LineBreaker.FieldsExact | cmd/transferctl/calibrate_render.go:186 | helper: the words of any text are what its white space separates |
| LineBreaker.GreedyIsSplit | cmd/transferctl/calibrate_render.go:195-207 | the greedy lines are a split of the words |
| LineBreaker.GreedyIsOptimal | cmd/transferctl/calibrate_render.go:195-207 | and need no more lines than any other split |
| LineBreaker.Reflow | cmd/transferctl/calibrate_render.go:185-209 | wrapping printed lines again, at any width, is wrapping the original text |
| Fingerprint.Fingerprint | deploy/chartstage/stage.go:243-278 | the stream is that of the tree below the directory, whatever the walk's order, the directories met and where the tree is |
| Fingerprint.RelativeIsTree | deploy/chartstage/stage.go:260-264 | a tree put below any clean directory, the current one and the root included, has its own relative paths, so two places give one stream |
| Fingerprint.FilesExact | deploy/chartstage/stage.go:244-252 | helper: the files of a walk are its entries that are no directories |
| Fingerprint.NormaliseIsByteWise | deploy/chartstage/stage.go:273 | a CR goes exactly when an LF follows it, and no other byte does |
| Text.LeIsByteOrder | deploy/chartstage/stage.go:256 | helper: the order of sort.Strings is that of the first byte that differs, a prefix first |
| Fingerprint.WriteFiles | deploy/chartstage/stage.go:260-276 | each file is written as path, NUL, length, NUL, normalised bytes |
| Fingerprint.CollectFiles | deploy/chartstage/stage.go:244-253 | the files of a walk, without its directories |
| Fingerprint.StreamIsCanonical | deploy/chartstage/stage.go:240-278 | two trees have one stream if and only if they hold the same paths with the same normalised contents |
| Fingerprint.FramesDecode | deploy/chartstage/stage.go:274-275 | the framing is uniquely decodable, whatever bytes the contents hold |
| Fingerprint.NormaliseForgetsCheckout | deploy/chartstage/stage.go:269-273 | a file and its CRLF checkout normalise to the same bytes, whatever line endings it mixes |
| Fingerprint.CheckoutKeepsStream | deploy/chartstage/stage.go:269-273 | no CRLF checkout, of all files or of some, changes the stream |
| Fingerprint.NormaliseTwice | deploy/chartstage/stage.go:273 | about the replacement alone, which the code applies once: a second pass changes nothing if and only if the file holds no CR CR LF |
| ArtifactTree.RenderArtifactTree | cmd/transferctl/packages.go:468-508 | it ends, and the printed lines are those of the forest's chains, indented by 2 + 4 * depth, on every listing in which no way down meets one ID twice |
| ArtifactTree.Group | cmd/transferctl/packages.go:471-479 | roots and children, each in listing order |
| ArtifactTree.Draw | cmd/transferctl/packages.go:482-504 | an artifact's line, then its children's trees |
| ArtifactTree.LineShows | cmd/transferctl/packages.go:483-501 | a line holds the name and the platform only if there are, and the mark exactly if the artifact was not fetched |
| ArtifactTree.SpacesAreBlank | cmd/transferctl/packages.go:501-503 | helper: the indentation is that many blanks |
| ArtifactTree.ChainIsShort | cmd/transferctl/packages.go:481-507 | then no chain of parents is longer than the listing, cycles and dangling links included |
| ArtifactTree.EndsExactly | cmd/transferctl/packages.go:481-507 | the recursion is bounded at all if and only if no way down from a root meets one ID twice, and then by the length of the listing |
| ArtifactTree.WalkDecides | cmd/transferctl/packages.go:481-507 | one walk that remembers the path decides it |
| ArtifactTree.DistinctIdsAreEnough | cmd/transferctl/packages.go:471-479 | distinct IDs, as the listing's rows have, are enough |
| ArtifactTree.HarmlessRepeat | cmd/transferctl/packages.go:505-507 | and not necessary: two roots may share an ID |
| ArtifactTree.PrintsPreorder | cmd/transferctl/packages.go:467-508 | what is printed is every chain from a root, in preorder with siblings in listing order |
| ArtifactTree.PrintedIfReached | cmd/transferctl/packages.go:467-508 | an artifact is printed exactly when its parent links lead to a root |
| ArtifactTree.PrintedOnce | cmd/transferctl/packages.go:467-508 | with distinct IDs at most once |
| ArtifactTree.RepeatedIdNeverEnds | cmd/transferctl/packages.go:501-503 | a listing of two artifacts with chains of every length |
| ByteSize.HumanBytesOf | cmd/transferctl/packages.go:832-843 | the loop finds the largest unit not above the number; div is 1024^(exp+1), the unit index stays in bounds, and the number is rounded to a float64 before it is divided |
| ByteSize.Float64IsNearest | cmd/transferctl/packages.go:842 | helper: that float64 is a nearest number of 53 bits, and the number itself below 2^53 |
| ByteSize.FloatTieWitness | cmd/transferctl/packages.go:842 | 65 * 2^48 + 1 prints as 16.2 PiB, though 16.3 is nearer |
| ByteSize.EverySuffixIsRead | cmd/transferctl/calibrate.go:219-241 | a decimal with any of the thirteen suffixes, in either case, with or without a sign and a blank, is read with that suffix's own power of 1024 or 1000, truncated, and refused if negative; no earlier suffix shadows a later one |
| ByteSize.BareNumberIsRead | cmd/transferctl/calibrate.go:213-249 | a text ending in a digit is read exactly if it is a natural number in int64, white space around it aside |
| ByteSize.NothingIsZero | cmd/transferctl/calibrate.go:214-217 | helper: nothing but white space is zero bytes |
| ByteSize.RoundTrip | cmd/transferctl/calibrate.go:213-249 | a printed size is read back if and only if it is from 0 up to 1 PiB; exactly below 1 KiB, otherwise within div/20 + 1 |
| ByteSize.PrintIsStable | cmd/transferctl/packages.go:832-843 | printing what was read gives the same text if and only if the first text did not round up to 1024.0 |
| ByteSize.RoundsUpWitness | cmd/transferctl/packages.go:832-843 | 1048575 prints as 1024.0 KiB, is read as 1 MiB and prints as 1.0 MiB |
| Paging.ListPackages | internal/api/packages.go:171-255 | a page is the next rows of the result, a token is given exactly when rows remain, and the total is the size of the result when it is known |
| Paging.PageSizeInRange | internal/api/packages.go:1079-1094 | helper: an accepted page size is from 1 to 500; accepted are the empty string and non-negative int64 numerals |
| Paging.PageSizeMeans | internal/api/packages.go:1079-1111 | no size and zero mean 50, more than 500 means 500, any other natural number itself; a token means its number |
| Paging.RefusedExactly | internal/api/packages.go:176-185 | a request is refused exactly for a size or token that is not a natural number in int64 |
| Paging.TotalIsWhole | internal/api/packages.go:225-237 | the total is that of the whole result, or absent, which it is only when the count failed |
| Text.AtoiExact | internal/api/packages.go:1083-1106 | helper: a text is a number exactly if it is digits with a sign or without, in int64 |
| Paging.ListAll | cmd/transferctl/packages.go:146-165 | following tokens from any valid one yields exactly the next 101 pages of rows, with a token left if and only if rows remain |
| Paging.TokenResumes | internal/api/packages.go:1096-1111 | a token read back is the offset it was made from |
| Paging.PagesEnumerate | internal/api/packages.go:204-220 | from the empty token the pages hold every row once, in order, in max(1, ceil(n/size)) pages, full but the last, which is empty only for an empty result |
| RateTracker.Tracker.Observe | cmd/transferctl/watch.go:60-95 | one sample's effect on all five fields, skipped samples included |
| RateTracker.BaselineIsLastSample | cmd/transferctl/watch.go:61-67 | every sample, skipped or not, is the baseline of the next, from any state |
| RateTracker.AcceptedIsMeasured | cmd/transferctl/watch.go:61-79 | the windows counted are exactly those between neighbouring samples whose first is not at the zero time, whose clock advanced and whose bytes did not go back |
| RateTracker.RunIsItsWindows | cmd/transferctl/watch.go:80-94 | the current rate is the last such window's, and the average blends each window with thirty seconds of the average before; a skipped sample moves neither |
| RateTracker.PeakIsMaximum | cmd/transferctl/watch.go:80-83 | over every run 0 <= current <= peak, and peak is the greatest accepted rate |
| RateTracker.SmoothedBetween | cmd/transferctl/watch.go:85-94 | the average lies between the least and the greatest accepted rate |
| RateTracker.BytesWithinPeak | cmd/transferctl/watch.go:68-83 | bytes counted over accepted windows never exceed peak times their duration |
| RateTracker.Converges | cmd/transferctl/watch.go:41-94 | under a constant rate the error after a total time T is at most 30/(30+T) of the first, however T was divided |
| RateTracker.HalvesInAWindow | cmd/transferctl/watch.go:32-41 | so it at least halves in thirty seconds |
| RateTracker.FinerSamplingForgetsMore | cmd/transferctl/watch.go:85-94 | under a constant rate, leaving samples out leaves at least the error of all of them, and the same if and only if there was no error, no average or nothing was left out |
| RateTracker.OneSampleIsCoarsest | cmd/transferctl/watch.go:85-94 | helper: the single sample at the end is any division with samples left out |
| RateTracker.ErrorOfRun | cmd/transferctl/watch.go:85-94 | the exact error after any division: the first divided by the product of (30+s)/30 over its gaps |
| RateTracker.FinerSamplingWitness | cmd/transferctl/watch.go:85-94 | an idle minute after a rate of 1 leaves 1/3 in one sample and 1/4 in two |
| CompareTracker.Tracker.Start | internal/api/compareprogress.go:72-101 | a new entry after eviction; the empty token gives no reporter and changes nothing |
| CompareTracker.Tracker.Report | internal/api/compareprogress.go:88-101 | updates the side under its key, only if the entry is still there |
| CompareTracker.Tracker.Finish | internal/api/compareprogress.go:104-114 | sets Done, only if the entry is still there |
| CompareTracker.Tracker.Read | internal/api/compareprogress.go:117-135 | a copy of the entry, or nothing |
| CompareTracker.Tracker.EvictLocked | internal/api/compareprogress.go:139-158 | expired entries go; then, only at capacity, entries started no later than any that stays, down to 63 |
| CompareTracker.Tracker.Oldest | internal/api/compareprogress.go:146-155 | without an empty token the scan ends with an earliest entry, and with "" only for an empty map |
| CompareTracker.Bounded | internal/api/compareprogress.go:60-114 | in every reachable state at most 64 entries and no empty token |
| CompareTracker.NoResurrection | internal/api/compareprogress.go:88-114 | no report or finish brings an evicted token back, and only a new start clears Done |
| CompareTracker.EntryIsReplay | internal/api/compareprogress.go:72-114 | in every reachable state an entry is what its token's last start made, with every later report and finish for that token replayed on it in order |
| CompareTracker.EntrySays | internal/api/compareprogress.go:72-114 | in every reachable state an entry has a side exactly for each key reported since its token's last start, with the last progress reported for it; it is done exactly if finished since; its times are the start's and the last call's |
| CompareTracker.EntriesShowTheirOwn | internal/api/compareprogress.go:72-114 | in a run all entries show their own comparison's calls if and only if no call of an earlier start changes the entry it finds |
| CompareTracker.OwnWhenClockAdvances | internal/api/compareprogress.go:72-114 | while the clock advances, if and only if no call of an earlier start finds an entry |
| CompareTracker.StartedOnceIsEnough | internal/api/compareprogress.go:72-114 | tokens never started twice are enough, whatever the clock does |
| CompareTracker.LateFinishWitness | internal/api/compareprogress.go:104-114 | a run in which the finish of a token's first comparison marks its second as done |
| CompareTracker.RunningSurvives | internal/api/compareprogress.go:139-158 | a running comparison stays readable while the entries newer than it and the starts since make at most 63 |
| CompareTracker.OneMoreStartEvicts | internal/api/compareprogress.go:139-158 | with 63 strictly newer entries that have not expired, the next start of another token evicts it |
| CompareTracker.StaysReadable | internal/api/compareprogress.go:64-66 | within those 63 a finished comparison stays readable too, while no start comes more than thirty seconds after its last call |
| CompareTracker.ExpiredGoes | internal/api/compareprogress.go:139-144 | the next start of another token after that drops it |
| CompareTracker.LatestStay | internal/api/compareprogress.go:72-158 | any number of starts of different tokens on an advancing clock leaves exactly the last 64 |
| CompareTracker.OldestGoesFirst | internal/api/compareprogress.go:145-157 | at capacity the strictly oldest entry is evicted |
| Workbook.UniqueSheet | internal/api/complianceexport.go:332-413 | the rows of unique findings: the first failing view, places, number of charts, kinds, owners and examples |
| Workbook.JoinSet | internal/api/complianceexport.go:935-942 | the names of a set sorted and joined, in whatever order the map is visited |
| Workbook.RulebookSheet | internal/api/complianceexport.go:716-763 | the rows of the rulebook, the rate as passes over decided |
| Workbook.RateIgnoresUndecided | internal/api/complianceexport.go:808-823 | a check's rate is passes over decided among its own results, and that of the list with every result that is not decided dropped, wherever it stands |
| Workbook.FindingsSheet | internal/api/complianceexport.go:443-452 | the failed and waived results, in order |
| Workbook.UncheckedSheet | internal/api/complianceexport.go:483-499 | the undecided results, in order |
| Workbook.UniqueIsPerFailingCheck | internal/api/complianceexport.go:326-413 | one row per failing check, and its Places is the number of that check's failures, the rulebook's Failed |
| Workbook.UniqueRowsOrdered | internal/api/complianceexport.go:376-385 | critical rows first, then warning, inform and any other severity; of one severity by places descending, then by ID |
| Workbook.UniqueColumns | internal/api/complianceexport.go:335-367 | a row, read off the results: the check's first failure, how many there are, and the charts, kinds and owners they name |
| Workbook.ExamplesAreFirst | internal/api/complianceexport.go:368-372 | the examples are the check's first three failures in order |
| Workbook.WhereSays | internal/api/complianceexport.go:860-876 | an address is chart, object and place, of those that are known |
| Workbook.JoinedIsSorted | internal/api/complianceexport.go:935-942 | helper: the names of a set in byte order, separated by comma and blank |
| Workbook.RulebookIsPerCheck | internal/api/complianceexport.go:716-763 | one row per check met, sorted, whose Evaluated counts all its results and Failed its failures |
| Workbook.RulebookCounts | internal/api/complianceexport.go:716-763 | each tally is the number of that check's results with that outcome, and the rate is passes over passes and failures |
| Workbook.FilterConcat | internal/api/complianceexport.go:443-499 | helper: the filters keep order, wherever the list is cut |
| Workbook.SheetsReconcile | internal/api/complianceexport.go:443-513 | Evaluated sums to the number of results, the findings rows are the failed and the waived, the unchecked rows the undecided |
| SecurityJoin.AttachSecurityToListing | internal/api/packages.go:350-377 | every row has the answer of its own product, asked for with that product's rows; length, order and other fields unchanged, in any map order |
| SecurityJoin.GroupedIsPerRow | internal/api/packages.go:343-377 | where the stores answer for an ID whatever is asked for with it, that is the per-row join |
| SecurityJoin.AttachSecurity | internal/api/packages.go:384-447 | one product's rows: the stored result, its scanners, whether it stalled and whether the product can sync; untouched when the store is missing or fails |
| SecurityJoin.RowOfPage | internal/api/packages.go:412-477 | a row is never synced exactly when the store has nothing for it, stalled only when no sync of it runs here, and names the per-scanner rows or else the stored scanner |
| SecurityJoin.PageWithoutStore | internal/api/packages.go:387-398 | helper: without a store, or when it cannot be read, the page is as it was |
| SecurityJoin.GroupByProduct | internal/api/packages.go:361-364 | each product's positions in order |
| SecurityJoin.Partition | internal/api/packages.go:361-364 | every position is in exactly one product's list, exactly once |
| ManifestCache.Refines | cmd/coordinator/comparecache.go:61-81 | one read: whenever the live read succeeds the cached one does, with the same digest, the same bytes short of a hash collision, and the same size where the store recorded it rightly or not at all |
| ManifestCache.EveryReadRefines | cmd/coordinator/comparecache.go:55-81 | for every read of every interleaving with inserts, evictions, store errors and registry changes |
| ManifestCache.StoreServes | cmd/coordinator/comparecache.go:68-78 | a held body is served whatever the registry answers, if anything: its bytes, media type, the digest asked for and the recorded size, or the length when none was recorded |
| ManifestCache.KeptIsServed | cmd/coordinator/comparecache.go:55-78 | over every run: a body kept and not evicted since is read back while the database answers |
| ManifestCache.EvictedIsLive | cmd/coordinator/comparecache.go:61-80 | and one evicted and not kept since is read live |
| ManifestCache.LiveReadIsVerified | internal/registry/generic/manifests.go:66-126 | a live read succeeds exactly for a body of at most 8 MiB that hashes to the digest claimed and the digest asked for |
| ManifestCache.TagsAreLive | cmd/coordinator/comparecache.go:41-45 | helper: a tag, or anything when the store cannot answer, is read live |
| ManifestCache.IsDigestExact | cmd/coordinator/comparecache.go:83-90 | a reference passes if and only if it has something before and something after its first colon |
| ManifestCache.DigestsAndTags | cmd/coordinator/comparecache.go:83-90 | helper: every OCI digest passes and no OCI tag does |

## Left out

- HTTP handlers, command wiring, table rendering, staging I/O and the web interface: no deep property.
- The database behind every store read: a read is an arbitrary sequence or map.
- SHA-256: `Fingerprint` stops at the bytes fed to it, `ManifestCache` proves agreement up to a collision it names.
- I/O errors of the walk in `Fingerprint`, a root that is a file, an unclean directory name, and separators other than `/`.
- White space and case outside ASCII in `strings.Fields`, `strings.TrimSpace` and `strings.ToUpper`.
- ByteSize.EverySuffixIsRead: plain decimals only, without the exponents, hexadecimal and infinities `strconv.ParseFloat` also accepts; the decimal and its product with the unit are exact, where the code rounds both to 53 bits before it truncates, so that `1.005KB` is 1004 bytes there; and a size past int64 is converted by the code without a check.
- RateTracker.Converges: rates are exact reals, so IEEE rounding is not part of the bound. In the round trip of `ByteSize` the units are powers of two and float64 rounding does not change the truncated result.
- ManifestCache.Refines: the media type of a cached descriptor comes from the store and may differ from the live one.
- EventHub.Lifecycle: the 64-bit subscriber counter does not wrap.
- Paging.ListAll: the result does not change between pages, no call fails, and the result is no longer than the largest int64.
- WidthAllocator.FitCells: rows are values in an array, so two rows sharing one backing slice are not modelled.
- CompareTracker.Tracker.Read: entries are values in the map, so the aliasing its copy guards against is not modelled.
- Workbook.UniqueSheet: columns that copy a field are the view itself.
- Workbook.RulebookSheet: the rate is the pair it is computed from, because the one decimal it is formatted to depends on binary rounding at ties.
- Deregistration of analyses in internal/api/analysis.go: its comment and its code disagree, and the claim in internal/store/analysis.go that decides whether it matters is not part of this model.
- SecurityJoin.AttachSecurity: the remaining columns of a summary are copied together as one.
