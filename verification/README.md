# A verified model of tripl's protocols and algorithms

tripl watches product-analytics events: it publishes project activity to browsers, decides which
anomalies alert whom, folds JSON documents into properties and templates, orders app versions, and
writes alert messages for chat services. This project models the parts whose correctness spans several
functions or many interleavings, and proves what they are for. `dafny verify dfyconfig.toml` checks it.

| file | what it models |
|---|---|
| `Realtime.dfy` | the Redis commands of one publish, the resume read, publishers one at a time |
| `RealtimeRuns.dfy` | every interleaving of publishers and readers, with aborted calls and lost keys, as a transition system |
| `RealtimeReplay.dfy` | what a replay holds and in which order, with exact conditions and failing runs |
| `Sse.dfy` | the event-stream text, its generator, and a client by the WHATWG HTML Living Standard, sections 9.2.5 and 9.2.6 |
| `ProjectStream.dfy`, `Greetings.dfy` | one reader's whole response, the path from publishers to the events a browser parses, and what two greetings tell |
| `AlertMatching.dfy`, `AlertGate.dfy`, `AlertWhatIf.dfy` | the gate and the rate-limited replay; every reason to be stopped and no other; what an operator may conclude |
| `PropertyFold.dfy`, `Dotted.dfy` | folding leaf paths into object properties; dotted text and segment lists |
| `JsonTemplate.dfy`, `JsonObjects.dfy`, `TemplateBuild.dfy` | JSON objects as values, as dictionaries changed in place, and the template built from a row |
| `Semver.dfy`, `SemverText.dfy`, `SemverStrings.dfy`, `SemverLatest.dfy` | the comparator, the accepted texts, what decides between two strings, the latest and the previous version |
| `AlertText.dfy`, `AlertEscapes.dfy`, `AlertTemplates.dfy` | escaping, links and their readers; which characters are escaped; placeholders |
| `ActivityFeed.dfy`, `Polling.dfy`, `Gathering.dfy`, `GatheringOrder.dfy` | burst grouping, the poll loop, bounded gathering and who gets its permits |
| `Text.dfy`, `Wrappers.dfy` | strings and options |

Times are integers and counts are reals. A path is its list of segments. Redis executes one command
at a time; the clock, the server, fresh UUIDs, disconnect checks and Redis outages are parameters.

## Where the code and its documentation part

The model follows the code. Each of these is proved with a concrete input, and beside it the exact
condition under which the promise holds where there is one.

- A gap the ring covers, in an unchanged epoch, is promised to arrive as replay (`realtime.py:205-217`).
  It does not when a publisher of the gap has its number and has not pushed yet (`UnpushedBreaksTheGap`),
  nor when `BUFFER_SIZE` slow publishers push ids the reader already had after the missed one
  (`StragglersBreakTheGap`). `GapArrivesExactly` and `MissedExactly` say when it does, in every run;
  `CoveredGapArrives` is the promise with the two provisos.
- The replay is in push order, which is not id order when two publishers overlap: `ReplayCanDescend`.
  `AscendsExactly` says when a replay ascends, `OrderlyRunsAscend` which publishers keep it so.
- "A documented object is where its subtree folds, never a shallower ancestor"
  (`json_paths.py:174-177`): of two nested documented objects the outer one wins.
  `DocumentedObjectFolds` is the exact condition, `OuterDocumentedObjectWins` the example.
- A rule that excludes an event type still admits a signal whose type is missing from the lookup, so
  firing implies coverage exactly when the type resolves: `CoverageNeedsTheResolvedType`.
- A Slack link whose URL has a pipe is cut at it: `SlackLinkRoundTrip` is an equivalence.
- `${${a}}` passes validation where only `a` is documented, and can render to text that is itself a
  placeholder: `LiteralsCanMakeAPlaceholder`. `LeavesAPlaceholderExactly` says which templates can.
- A replay with a longer cooldown fires no more often, but may fire on other signals:
  `StricterMayFireOthers`. `FiresWithinExactly` says when it does not.

## Model

| member | source | states |
|---|---|---|
| Realtime.ProjectRedis.PublishProjectEvent | backend/src/tripl/realtime.py:119-139 | the commands, cut short after any of them, leave exactly the state of `Publish`, which `RealtimeRuns` reproduces step by step |
| Realtime.PublishCutShort | backend/src/tripl/realtime.py:119-139 | a publish that ends after any of its commands, key by key: the number is taken by the first, the envelope is at the head of the ring from the second, the ring is cut to 50 from the third, and subscribers have it only from the fourth |
| Realtime.ProjectRedis.AsyncDropProjectKeys | backend/src/tripl/realtime.py:92-105 | sequence, epoch and ring go together, subscriptions stay; an unreachable Redis changes nothing |
| Realtime.ProjectRedis.ReadResumePoint | backend/src/tripl/realtime.py:178-202 | one instant: the epoch is set only if absent and number, epoch and replay are of the same state; a failed read reports no number and changes nothing |
| Realtime.ParseReplay | backend/src/tripl/realtime.py:159-169 | skipping, collecting newest first and reversing gives the decodable entries past the cursor, oldest first |
| Realtime.ReplayMembers | backend/src/tripl/realtime.py:159-169 | an envelope is replayed if and only if the ring holds it and its id is past the cursor |
| Realtime.SequentialStore | backend/src/tripl/realtime.py:133-137 | publishers that neither overlap nor fail leave exactly the newest `min(seq, BUFFER_SIZE)` events in the ring, newest first, and every subscriber has each event once |
| Realtime.SequentialReplay | backend/src/tripl/realtime.py:159-202 | a cursor within `BUFFER_SIZE` of the sequence gets exactly the ids after it, ascending, once each; a wider gap gets the newest `BUFFER_SIZE` |
| RealtimeRuns.FourStepsArePublish | backend/src/tripl/realtime.py:133-137 | the four steps of the transition system, taken in a row, are one whole publish |
| RealtimeRuns.StepsArePublish | backend/src/tripl/realtime.py:133-137 | the first k steps are what one call leaves behind when it ends after k commands |
| RealtimeRuns.RunKeepsInv | backend/src/tripl/realtime.py:119-202 | every run of publishers, readers, aborts and losses keeps the ring, call, push, reader and epoch invariants |
| RealtimeRuns.NoSilentLoss | backend/src/tripl/realtime.py:286-306 | in every interleaving, an id of the reader's generation past its cursor whose publish completed is in the replay, on the subscription, or was followed by at least `BUFFER_SIZE` pushes before the read |
| RealtimeRuns.EpochNamesTheSequence | backend/src/tripl/realtime.py:142-157 | two reads report one epoch if and only if no loss lies between them, and then the sequence number never goes back |
| RealtimeRuns.ReplayIsTheWindow | backend/src/tripl/realtime.py:191-202 | in every run the replay is the newest `BUFFER_SIZE` pushes past the cursor, in push order, nothing else |
| RealtimeReplay.ReplayedExactly | backend/src/tripl/realtime.py:159-202 | in every run an envelope is replayed if and only if it is past the cursor and one of the newest `BUFFER_SIZE` pushes carries it |
| RealtimeReplay.ReplayedExactlyWhenInWindow | backend/src/tripl/realtime.py:133-137 | a push past the cursor is replayed if and only if fewer than `BUFFER_SIZE` pushes followed it, none of them of an equal envelope; pushes of older generations may be among them |
| RealtimeReplay.RunKeepsNumberInv | backend/src/tripl/realtime.py:119-202 | in every run each number handed out, now and up to the number of every past read, belongs to a call of its generation, and reads saw pushes of calls only |
| RealtimeReplay.GapArrivesExactly | backend/src/tripl/realtime.py:205-217 | in every run, every event numbered past the cursor up to the promised `seq` is in the replay if and only if each call of that gap pushed before the read among the newest `BUFFER_SIZE` pushes, or a call left over from a lost generation pushed an equal envelope there |
| RealtimeReplay.MissedExactly | backend/src/tripl/realtime.py:178-202 | a call of the gap fails that condition if and only if it had not pushed when the reader read, or at least `BUFFER_SIZE` pushes overtook it |
| RealtimeReplay.PhaseAtTheRead | backend/src/tripl/realtime.py:133-137 | at the read the call's phase tells which: between INCR and LPUSH it is not in the history, after LPUSH it is |
| RealtimeReplay.CoveredGapArrives | backend/src/tripl/realtime.py:205-217 | a gap of at most `BUFFER_SIZE` arrives whole in every run in which each of its calls pushed before the read and no straggler pushed after it |
| RealtimeReplay.UnpushedBreaksTheGap | backend/src/tripl/realtime.py:205-217 | a run without any loss or straggler in which a reader one id behind does not get the promised id: its publisher has the number and has not pushed |
| RealtimeReplay.StragglersBreakTheGap | backend/src/tripl/realtime.py:205-217 | a run in which a reader one id behind gets nothing although the missed event was published in full: stragglers drove it out of the ring |
| RealtimeReplay.AscendsExactly | backend/src/tripl/realtime.py:159-169 | in every run a replay strictly ascends by id if and only if the newest `BUFFER_SIZE` pushes past the cursor were made in number order |
| RealtimeReplay.OrderlyRunsAscend | backend/src/tripl/realtime.py:133-137 | every replay ascends in every run, with any aborts, losses and readers, in which no call is between its number and its push when the next number is handed out or the keys are lost |
| RealtimeReplay.ReplayCanDescend | backend/src/tripl/realtime.py:159-169 | a run of two overlapping publishers whose replay descends |
| Sse.SseResponseStream | backend/src/tripl/realtime.py:354-401 | the frames are hello, the whole replay and a prefix of the live items, and the prefix ends exactly at the limit, the disconnect or the end of the items |
| Sse.StopsOnce | backend/src/tripl/realtime.py:378-401 | where the stream stops is determined by the items, the disconnect answers and the limit |
| Sse.HeartbeatFrame | backend/src/tripl/realtime.py:349-351 | a heartbeat comment leaves the client's buffers and last event id as they were |
| Sse.EventFrame | backend/src/tripl/realtime.py:336-346 | one frame makes the client dispatch exactly one event with the id, type and data sent |
| Sse.StreamRoundTrip | backend/src/tripl/realtime.py:336-401 | parsing the concatenated frames gives hello, the replay in order and the live events in arrival order; heartbeats leave no trace |
| ProjectStream.ProjectResponseStream | backend/src/tripl/realtime.py:286-330 | subscription first, then the read: the state afterwards in all three cases, and the whole text: a greeting with the slug, the backend, the sequence number and epoch of that state and the buffer size 50 (number and epoch empty if the read failed), the replay, the live items, then a degraded stream with an empty greeting exactly when there is no frame limit and the client is there at the check after; if no check saw it gone, that is after the last live item |
| Greetings.GreetingsAgreeExactly | backend/src/tripl/realtime.py:205-224 | over every run: two greetings of one project carry one epoch if and only if no loss lies between their reads, and then the number has not gone back |
| ProjectStream.ReaderGets | backend/src/tripl/realtime.py:299-306 | whatever was published before the subscription, between it and the read, and after: number, replay and channel together hold every id past the cursor |
| ProjectStream.BrowserSeesEveryId | backend/src/tripl/realtime.py:286-401 | from publish commands to parsed events: a browser within the ring sees every id past its cursor, in two ascending runs, and only those published between subscribing and reading come twice |
| Greetings.LossShows | backend/src/tripl/realtime.py:205-224 | a run in which a loss between two readers gives them two epochs |
| AlertMatching.SimulateRuleFirings | backend/src/tripl/alerting_matching.py:380-493 | the loop with its clocks per partition is the greedy schedule whose properties follow |
| AlertMatching.PartitionsAreIndependent | backend/src/tripl/alerting_matching.py:469-493 | replaying one key's candidates alone gives exactly that key's firings in the whole replay |
| AlertMatching.FiringsAreASchedule | backend/src/tripl/alerting_matching.py:462-493 | the firings of a key are matched candidates of the input, none used twice, pairwise at least the cooldown apart |
| AlertMatching.GreedyStaysAhead | backend/src/tripl/alerting_matching.py:462-493 | from any clock state, no spaced choice among the remaining candidates outnumbers the greedy one |
| AlertMatching.ReplayIsOptimal | backend/src/tripl/alerting_matching.py:462-493 | no schedule for a key has more firings than the replay gives it |
| AlertMatching.SilencedOnlyByCooldown | backend/src/tripl/alerting_matching.py:469-493 | a matched candidate that does not fire follows a firing of its own key by less than the cooldown |
| AlertGate.GateExactly | backend/src/tripl/alerting_matching.py:127-338 | the gate lets a signal through if and only if none of the obstacles, written out scope by scope, field by field and without dividing, stops it |
| AlertGate.FiredPasses | backend/src/tripl/alerting_matching.py:462-493 | whatever fires is from the input and meets no obstacle |
| AlertGate.FiredRespectsRule | backend/src/tripl/alerting_matching.py:176-338 | every firing respects the scan binding, the direction switches, the scope switch, the level and change thresholds and every filter; lifecycle findings are exempt from scan and direction |
| AlertGate.PassingFiresOrCools | backend/src/tripl/alerting_matching.py:462-493 | a signal that meets no obstacle fires, or follows a firing on its own clock by less than the cooldown in microseconds |
| AlertGate.FiringsAreApart | backend/src/tripl/alerting_matching.py:478-493 | two firings on one clock are at least the cooldown apart |
| AlertGate.KeyIsClock | backend/src/tripl/alerting_matching.py:64-66 | signals share a clock if and only if they share scope and reference, and the scan too unless the scope is metric or lifecycle |
| AlertGate.SpikeSwitch | backend/src/tripl/alerting_matching.py:265-269 | the spike switch changes nothing on an input without spikes outside lifecycle |
| AlertGate.DropSwitch | backend/src/tripl/alerting_matching.py:265-269 | nor the drop switch without drops |
| AlertGate.ScopeOffFiresNone | backend/src/tripl/alerting_matching.py:208-263 | each of the eleven scope switches, off, fires none of its scope |
| AlertGate.ScopeSwitch | backend/src/tripl/alerting_matching.py:208-263 | and changes nothing on an input without that scope |
| AlertGate.ScanBinding | backend/src/tripl/alerting_matching.py:201-206 | binding a rule to a scan changes nothing on signals of that scan and lifecycle findings |
| AlertGate.ThresholdsAreForCounts | backend/src/tripl/alerting_matching.py:271-290 | the numeric thresholds change nothing on signals that are not counts against a baseline |
| AlertGate.FilteredFiresNone | backend/src/tripl/alerting_matching.py:127-173 | a filter lets no signal fire that carries its field with a value it rejects |
| AlertGate.AddedFilter | backend/src/tripl/alerting_matching.py:127-173 | and changes nothing on an input of which it rejects nothing |
| AlertGate.TiesKeepTheirOrder | backend/src/tripl/alerting_matching.py:469 | signals of one bucket are replayed in the order they came |
| AlertGate.CoverageExactly | backend/src/tripl/alerting_matching.py:341-377 | an enabled rule covers an event if and only if a signal about it passes the rule with everything open but its scope switches and its filters on event and event type |
| AlertWhatIf.StricterFiresLessPerKey | backend/src/tripl/alerting_matching.py:291-333 | raising the cooldown, the percent threshold or the expected-count floor never adds a firing to any key |
| AlertWhatIf.StricterFiresLess | backend/src/tripl/alerting_matching.py:462-493 | nor to the replay as a whole |
| AlertWhatIf.FiresWithinExactly | backend/src/tripl/alerting_matching.py:462-493 | for two settings with equal thresholds and a rule that admits anything: on every input the firings of the first are among those of the second, with multiplicity, if and only if the second cooldown is zero or the cooldowns are equal |
| AlertWhatIf.StricterMayFireOthers | backend/src/tripl/alerting_matching.py:380-493 | so the fired set is not monotone: an enabled rule, one rising count at three times, and cooldowns of one and two minutes |
| AlertWhatIf.OrderDoesNotMatter | backend/src/tripl/alerting_matching.py:462-493 | the fired (key, bucket) pairs, with multiplicity, are the same for every permutation of the input, ties included |
| AlertWhatIf.MatchImpliesCoverage | backend/src/tripl/alerting_matching.py:127-377 | an event-scope signal an enabled rule admits is about an event the rule covers |
| AlertWhatIf.FiringImpliesCoverage | backend/src/tripl/alerting_matching.py:341-493 | an uncovered event never appears as an event-scope firing |
| AlertWhatIf.CoverageNeedsTheResolvedType | backend/src/tripl/alerting_matching.py:127-173 | over all rules, firing implies coverage of (event, type) if and only if the signal's type resolves to that type |
| AlertWhatIf.ShownPercentClearsGate | backend/src/tripl/alert_templates.py:495-587 | the percentage shown clears the threshold the gate used, and none is shown exactly when there was no baseline, in which case the count moved |
| AlertWhatIf.PercentExactly | backend/src/tripl/alert_templates.py:525-548 | the percentage of the baseline's magnitude is the change, negative levels included |
| AlertWhatIf.GateComparesTheShown | backend/src/tripl/alerting_matching.py:291-333 | with a baseline, the thresholds are cleared if and only if level and change reach theirs and the percentage shown reaches the effective one |
| Semver.CompareTupleScan | backend/src/tripl/semver.py:273-278 | the early-return scan decides by the first segment that differs |
| Semver.ComparePrereleaseScan | backend/src/tripl/semver.py:247-270 | the scan decides by the first identifier that differs, then by length; no prerelease ranks above any |
| Semver.ParsedArePreordered | backend/src/tripl/semver.py:196-231 | SemVer, dotted numbers of any width and free text are in one total preorder: reflexive, antisymmetric in sign, transitive across kinds and widths; versions that compare equal compare alike with every other |
| Semver.VersionsArePreordered | backend/src/tripl/semver.py:97-111 | so `compare_versions` is a total preorder over all strings |
| Semver.ParsedSortIsStrict | backend/src/tripl/semver.py:192-231 | with ties broken the order is strict: transitive, antisymmetric, zero only for one raw text, and it never contradicts the precedence |
| Semver.SortOrderIsStrict | backend/src/tripl/semver.py:192-231 | the sort comparator is a strict total order on raw strings, equal if and only if they are identical, and only breaks ties of the precedence |
| Semver.ParsedMeetsTheStandard | backend/src/tripl/semver.py:234-270 | on two SemVer versions it is exactly the precedence of section 11 of Semantic Versioning 2.0.0, stated independently, both ways |
| Semver.TrailingZeroIsNeutral | backend/src/tripl/semver.py:281-286 | a trailing zero segment never changes a comparison |
| SemverText.ParseOfRender | backend/src/tripl/semver.py:73-94 | printing a version and parsing the text gives the version back |
| SemverText.RenderOfParse | backend/src/tripl/semver.py:10-23 | whatever parses as SemVer is well formed and is its own print, so no two texts without a `v` parse alike |
| SemverText.SemVerIsItsPrint | backend/src/tripl/semver.py:10-94 | a text is SemVer if and only if it is a printed version behind at most one `v` or `V` |
| Text.StripCuts | backend/src/tripl/semver.py:75 | stripping removes surrounding space, all of it and nothing else |
| SemverStrings.SemVerExactly | backend/src/tripl/semver.py:73-94 | a raw string parses to the SemVer k if and only if its stripped text is the print of k behind at most one `v` |
| SemverStrings.KindExactly | backend/src/tripl/semver.py:160-175 | every raw string is of one kind by what it prints: SemVer; else dotted digit groups with their values; else free text |
| SemverStrings.LeadingZero | backend/src/tripl/semver.py:160-175 | leading zeros of a dotted group do not change its value |
| SemverStrings.LowerExactly | backend/src/tripl/semver.py:97-111 | on any two strings: free text is below every numbered version and among itself lexical; numbered versions are decided by the first segment that differs, an absent one reading as 0, then by the prerelease |
| SemverStrings.PrintsCompare | backend/src/tripl/semver.py:234-270 | on the strings of two SemVer versions it is the precedence of section 11 of Semantic Versioning 2.0.0 |
| SemverStrings.DottedCompare | backend/src/tripl/semver.py:281-286 | on two dotted texts the first segment that differs decides |
| SemverStrings.SortExactly | backend/src/tripl/semver.py:192-231 | the sort adds to the precedence: dotted before SemVer, then the stripped texts, then the texts as they came, each lexical |
| SemverLatest.DistinctVersions | backend/src/tripl/semver.py:305-314 | the loop keeps the first raw string of every stripped text, in input order |
| SemverLatest.DistinctRepresents | backend/src/tripl/semver.py:305-314 | deduplication invents nothing and loses no stripped text, so no precedence class |
| SemverLatest.DistinctExactly | backend/src/tripl/semver.py:305-314 | kept are exactly the first strings of their stripped texts, each text once |
| SemverLatest.DistinctInOrder | backend/src/tripl/semver.py:305-314 | and they keep the order of the input |
| SemverLatest.SortByPermutes | backend/src/tripl/semver.py:114-116 | ordering versions loses and doubles none |
| SemverLatest.LatestPreviousVersions | backend/src/tripl/semver.py:135-157 | deduplicating, ordering and scanning back returns a latest no input exceeds and its previous, or nothing for no input; within one precedence the greatest text by the sort order |
| SemverLatest.SelectsLatestAndPrevious | backend/src/tripl/semver.py:135-157 | on every input: the latest is exceeded by no input; the previous is strictly below it and exceeded by no other lower input; there is none if and only if all inputs share one precedence; both are the greatest of theirs under the sort order |
| SemverLatest.OrderOfInputDoesNotMatter | backend/src/tripl/semver.py:135-157 | the tie-break is deterministic: up to surrounding space, latest and previous are the same for every permutation of the input |
| PropertyFold.Folder.Fold | backend/src/tripl/json_paths.py:192-212 | the recursion ends, stays in bounds, and enters exactly the members' roots of the leaf-by-leaf rule, touching no other entry |
| PropertyFold.ObjectPropertyPaths | backend/src/tripl/json_paths.py:149-214 | on the arguments alone: a leaf is mapped to r if and only if r is its shortest prefix with no pinned and no documented observed path at or below it that is documented or has no documented object below it, and no prefix up to r is itself observed; the tree fold also equals the leaf-by-leaf rule |
| PropertyFold.RootIsShallowest | backend/src/tripl/json_paths.py:162-172 | a leaf's root is r if and only if r is its shallowest proper prefix that can fold and no prefix up to there is itself observed |
| PropertyFold.RootOnArguments | backend/src/tripl/json_paths.py:162-187 | the leaf-by-leaf rule says the same, in terms of the paths, pins and documented paths given |
| PropertyFold.RootTakesItsSubtree | backend/src/tripl/json_paths.py:203-210 | every path strictly below a root has that root |
| PropertyFold.RootsAreAntichain | backend/src/tripl/json_paths.py:203-210 | no root lies inside another root's object |
| PropertyFold.NoRootAboveAPin | backend/src/tripl/json_paths.py:169-172 | a pinned path never disappears into an object |
| PropertyFold.DocumentedObjectFolds | backend/src/tripl/json_paths.py:174-177 | exactly when a documented object is where its subtree folds |
| PropertyFold.OuterDocumentedObjectWins | backend/src/tripl/json_paths.py:174-177 | of two nested documented objects the leaf folds into the outer one |
| Dotted.StartsWithIsProperPrefix | backend/src/tripl/json_paths.py:188-206 | on non-empty dot-free segments the text test with the trailing dot is the proper-prefix test on segment lists |
| Dotted.TextIsInjective | backend/src/tripl/json_paths.py:149-214 | two such paths with one dotted text are one path, so sets of texts are sets of paths |
| JsonTemplate.ReadAtWrite | backend/src/tripl/json_paths.py:47-59 | extraction at the written path returns the written value, whatever stood there before |
| JsonTemplate.ReadElsewhere | backend/src/tripl/json_paths.py:47-59 | a path incomparable with the written one reads as before |
| JsonTemplate.ExtractJsonPath | backend/src/tripl/json_paths.py:297-308 | the walk with its early exit is the recursive lookup the laws above are about |
| JsonTemplate.FlattenIsExtract | backend/src/tripl/json_paths.py:246-268 | a pair is in the flattening if and only if extraction at its path returns that non-object value |
| JsonTemplate.FlattenHasNoDuplicates | backend/src/tripl/json_paths.py:246-268 | no path is reported twice |
| JsonObjects.WriteAtHolds | backend/src/tripl/json_paths.py:47-59 | moving a cursor through mutable dictionaries and assigning once turns the document into the written value, creates or replaces what is missing on the way, touches only the document's own dictionaries, and keeps it a tree |
| JsonObjects.Objects.SetNestedValue | backend/src/tripl/json_paths.py:47-59 | the in-place loop does that to the dictionary it is given; every other dictionary is as before |
| JsonObjects.DocIsOneObject | backend/src/tripl/json_paths.py:47-59 | a dictionary in a state is one object only, so the contract above fixes the result |
| TemplateBuild.BuildJsonValue | backend/src/tripl/json_paths.py:217-243 | the loop returns a new dictionary that is the object of all the writes, and changes no dictionary of before unless a preserved value owns it |
| TemplateBuild.WritesSurvive | backend/src/tripl/json_paths.py:236-241 | when no target lies inside another, every write is readable after all the others |
| TemplateBuild.TargetsNeverNest | backend/src/tripl/json_paths.py:149-241 | the roots of the fold and the unfolded leaves of a prefix-free row never lie inside one another, and rows that share a target write the same |
| TemplateBuild.KeptValuesSurvive | backend/src/tripl/json_paths.py:236-239 | a preserved value of any shape on a pinned path is what extraction at its path returns |
| TemplateBuild.LeavesAreWrites | backend/src/tripl/json_paths.py:217-268 | the leaves of a built object are exactly the leaves of what was written, each below its target; a preserved value may be an object |
| TemplateBuild.TemplateRoundTrip | backend/src/tripl/json_paths.py:149-268 | fold, build and flatten: for each path of the row one token, at its object root if it has one and at itself if not, or the leaves of its kept value at and below it; nothing else, and no path twice, for any order of the paths |
| TemplateBuild.WritesExactly | backend/src/tripl/json_paths.py:236-241 | in any plan a path writes its kept value at itself, or else the token of its object root if it has one and of itself if not |
| AlertText.HtmlEscapeIsCharwise | backend/src/tripl/alert_templates.py:450-453 | five replacements one after another are one character-wise substitution |
| AlertText.SlackEscapeIsCharwise | backend/src/tripl/alert_templates.py:458-459 | likewise the three Slack replacements |
| AlertText.EscapingIsReversible | backend/src/tripl/alert_templates.py:450-460 | in every format, undoing the escapes gives the text back |
| AlertEscapes.MarkdownIsSafe | backend/src/tripl/alert_templates.py:348-457 | read with each backslash taking the next character, every reserved character of MarkdownV2 stands escaped in an escaped text, and only such characters are |
| AlertEscapes.SafeIsTheEscape | backend/src/tripl/alert_templates.py:454-457 | that and reading back fix the escaping: a safe text is the escape of what it reads as |
| AlertEscapes.HtmlIsClean | backend/src/tripl/alert_templates.py:452-453 | escaped HTML has no angle bracket and no quote, and an ampersand only as one of five references |
| AlertEscapes.SlackIsClean | backend/src/tripl/alert_templates.py:458-459 | escaped Slack text has no angle bracket, and an ampersand only as one of three references |
| AlertText.HtmlLinkRoundTrip | backend/src/tripl/alert_templates.py:295-306 | an HTML link reads back as its exact label and URL, whatever text follows |
| AlertText.MarkdownLinkRoundTrip | backend/src/tripl/alert_templates.py:273-306 | a MarkdownV2 link reads back as its exact label and its URL with the two closing characters percent-encoded |
| AlertText.MarkdownUrlKeepsTarget | backend/src/tripl/alert_templates.py:285-287 | that encoding does not change the octets the URL stands for |
| AlertEscapes.UrlExactly | backend/src/tripl/alert_templates.py:285-287 | in a MarkdownV2 target the closing parenthesis and the backslash are percent-encoded and every other character stands |
| AlertEscapes.BareLabel | backend/src/tripl/alert_templates.py:295-299 | without a URL, or in a format without links, the escaped label alone |
| AlertText.SlackLinkRoundTrip | backend/src/tripl/alert_templates.py:295-306 | a Slack link reads back if and only if the URL has no pipe; the label may have any |
| AlertTemplates.PartsAreTheTemplate | backend/src/tripl/alert_templates.py:347 | the literals and placeholders found by the grammar are the template, nothing lost or added |
| AlertTemplates.PlaceholderExactly | backend/src/tripl/alert_templates.py:347 | a placeholder starts where the text begins with a dollar sign, a brace, a name of ASCII letters, underscores and later digits, and a brace, and nowhere else |
| AlertTemplates.PartsExactly | backend/src/tripl/alert_templates.py:347 | where a part of the template starts, a placeholder starts if and only if the part is a variable, and then of its name |
| AlertTemplates.NamesExactly | backend/src/tripl/alert_templates.py:347 | the names found are those of all placeholders anywhere in the text: none overlaps another |
| AlertTemplates.NormalizedExactly | backend/src/tripl/alert_templates.py:373-377 | a template is checked and stored stripped, and counts as none when nothing is left |
| AlertTemplates.DecidesExactly | backend/src/tripl/alert_templates.py:407-447 | refused on the format if and only if the destination does not support it, `plain` being the default; then accepted if and only if every name is documented |
| AlertTemplates.RenderKeepsUnknown | backend/src/tripl/alert_templates.py:463-467 | whatever is known, rendering fills it in and leaves exactly the other placeholders standing as they are |
| AlertTemplates.RefusedNamesWouldStand | backend/src/tripl/alert_templates.py:407-447 | a refusal names exactly the placeholders that rendering under the documented variables would leave standing in the text |
| AlertTemplates.RenderFills | backend/src/tripl/alert_templates.py:463-467 | with every named variable defined, the text is the literals with one value per placeholder, no value scanned again |
| AlertTemplates.AcceptedTemplatesFill | backend/src/tripl/alert_templates.py:407-467 | a validated template rendered under all documented variables leaves no known placeholder |
| AlertTemplates.NothingKnownChangesNothing | backend/src/tripl/alert_templates.py:463-467 | with no variable defined a template renders to itself |
| AlertTemplates.LiteralsCanMakeAPlaceholder | backend/src/tripl/alert_templates.py:407-467 | an accepted template, rendered with a value without a dollar sign for its one documented variable, contains a placeholder |
| AlertTemplates.LeavesAPlaceholderExactly | backend/src/tripl/alert_templates.py:463-467 | some values without dollar signs make a template leave a placeholder if and only if a literal dollar sign in it stands before a variable, or before an open brace, possibly the start of a name, and then a variable |
| AlertTemplates.NoDollarNoPlaceholder | backend/src/tripl/alert_templates.py:463-467 | so none is left when the template has no literal dollar sign and the values have none |
| ActivityFeed.BuildFeed | frontend/src/components/activity-feed.tsx:180-207 | the entries are the flushed runs of a decomposition of the feed into maximal chains of neighbours with one key and close timestamps |
| ActivityFeed.FeedConserves | frontend/src/components/activity-feed.tsx:180-207 | opening every group of a feed gives the items back, in order, nothing lost or doubled |
| ActivityFeed.GroupsAreBursts | frontend/src/components/activity-feed.tsx:180-207 | every group has at least three items, one burst key, and each item within the window of the one before it |
| ActivityFeed.EntriesExactly | frontend/src/components/activity-feed.tsx:180-207 | every maximal run of three or more is one group with the id of its head, every other item an entry by itself, and there is nothing else |
| ActivityFeed.TestIsLinked | frontend/src/components/activity-feed.tsx:159-168 | the loop's test against head and last item is whether the neighbours have one type and stem and times that parse at most two minutes apart |
| ActivityFeed.StemExactly | frontend/src/components/activity-feed.tsx:121-124 | the stem ends at the first colon and space, or is the whole title |
| ActivityFeed.DecompositionIsUnique | frontend/src/components/activity-feed.tsx:159-207 | only one decomposition has linked neighbours inside its runs and unlinked ones across them |
| ActivityFeed.FeedIsDetermined | frontend/src/components/activity-feed.tsx:180-207 | so the items have one grouping only |
| ActivityFeed.KeyIsTypeAndStem | frontend/src/components/activity-feed.tsx:121-161 | two burst keys are equal if and only if the types and the title stems are |
| Polling.PollJob | frontend/src/api/scans.ts:78-103 | how the wait ends after any answers of the server: the result, the job's error, the deadline, the failed poll or the abort, and how long each sleep was |
| Polling.WaitIsBounded | frontend/src/api/scans.ts:16-103 | for any server and any clock that advances at least each sleep: at most 201 polls, at most three failures in a row, no sleep over 6000 ms |
| Polling.EndIsDetermined | frontend/src/api/scans.ts:78-103 | one number of polls and one outcome fit a given server and clock |
| Polling.EndsExactly | frontend/src/api/scans.ts:78-103 | for each outcome, when a wait ends with it: a completed job with a result, any other finished job with its error, the deadline of 300000 ms, the poll that gave up, the abort |
| Polling.WaitingExactly | frontend/src/api/scans.ts:88-100 | the wait goes on while the job last seen runs, the deadline has not passed, the caller waits and no poll gave up |
| Polling.GivesUpExactly | frontend/src/api/scans.ts:54-57 | a poll gives up if and only if its status is below 500 and neither 408 nor 429, or it is the third failure in a row |
| Polling.SleepsExactly | frontend/src/api/scans.ts:90 | a sleep is 1500, 3000 or 6000 ms by the failures just before it |
| Polling.SeenExactly | frontend/src/api/scans.ts:85-98 | the job seen is the answer to the last poll that was answered, or the job at the start |
| Polling.TerminalStatusIsReported | frontend/src/api/scans.ts:78-103 | a job that finishes while the wait is on is never reported as timed out or failed to poll |
| Gathering.NeverMoreThanLimit | cli/src/tripl_cli/runner.py:102-122 | in every reachable state at most `limit` awaitables run |
| Gathering.ResultsKeepTheOrder | cli/src/tripl_cli/runner.py:102-122 | in every completion order, the value at index i is what awaitable i returned, and it returned nothing else |
| Gathering.FirstFailureWins | cli/src/tripl_cli/runner.py:102-122 | the gathering fails if and only if some awaitable raised, and with the exception raised first |
| Gathering.EveryRunEnds | cli/src/tripl_cli/runner.py:102-122 | at most three steps per awaitable; a run that cannot go on has an answer if and only if there was a permit to hand out or nothing to do |
| GatheringOrder.NobodyOvertakes | cli/src/tripl_cli/runner.py:117-120 | permits go first come, first served: in every reachable state no awaitable has had one while one that asked before it waits |

## Left out

- Redis, asyncio, HTTP and Celery plumbing: Redis is a state machine that executes one command at a time.
- Eviction of single keys by Redis: sequence, epoch and ring are lost together.
- A subscription is in effect on entry, as its documentation says; messages that do not decode are not delivered to `live`.
- What the browser does with hello, replay and duplicates: the client code is not part of this model.
- The text of the hello payload and of event data: a function from the payload to a string, and a string.
- Sse.StreamRoundTrip: asks for event types and data without line breaks; `json.dumps` escapes line breaks in data, and the event types are constants.
- Realtime.SequentialStore: publishers that do not overlap; the interleaved case is `RealtimeRuns`.
- Rounding of floating-point counts and percentages: they are reals.
- Digest cadence and the live dispatcher, which the replay deliberately does not model either.
- JSON keys that are empty or contain a dot, JSON decoding and encoding, and warehouse values that are not JSON.
- JsonTemplate.ExtractJsonPath: a found `null` is a value and a missing path is not; the source returns `None` for both.
- JsonObjects.Objects.SetNestedValue: the written value shares no dictionary with the target, which is what a freshly decoded value is.
- TemplateBuild.BuildJsonValue: preserved objects share no dictionaries, and a row names each of them once.
- The order in which dotted texts are sorted before folding and building: the results hold for any order.
- `include_objects` of the flattener, and `normalize_json_value_paths` and `group_json_value_paths`: they would add easy members.
- Decimal digits outside ASCII, which the version patterns also accept.
- `latest_version`, `is_prerelease` and release retention: one-line uses of what is modelled.
- Turning alert values that are not text into text, default templates, and the wording of drift lines.
- The regular-expression engine: the placeholder grammar is a scanner.
- Severity, icons and wording of activity entries.
- The abort signal and the clock of the poll loop are parameters.
- Gathering.EveryRunEnds: an awaitable that never completes keeps its permit; cancellation after a failure is not modelled. The semaphore's steps follow the event loop of CPython 3.12.
