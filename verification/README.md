# The rank, the mail, the restarts and the trail, verified

A Dafny model of the parts of Shiftlead that decide something over whole runs, with proofs of what they promise.
`dafny verify dfyconfig.toml` checks all of it.

**The rank and the pick order** (`scripts/ledgerboard.py`). A ledger's entries are picked in an order that people move
cards in. `Keys` is the key order, in which `|` is the lowest character; `Midpoints` is the method that finds a key
between two others, with the exact ends between which there is none; `ImplicitKeys` is the key of an entry with no line.
`TextLines`, `RankLines` and `RankFile` are the rank file at character level, `RankFileIO` the methods that read and
rewrite it, `RankFlags` what each flag says, `RankFileLaws` what rewriting keeps, and `RankOrder` when it keeps the order
of the keys, over the pairs of `Pairs`. `UnionFind` is the forest with path halving, `Cards` the connected
components it gives, `GreedyOrder` the theory of a greedy order with a fallback on cycles, and `CardOrders` and `PickList`
the methods that place every entry. `PickOrder` proves that the order is a schedule, and `MoveCard` that a card goes where
it is put.

**A thread from several mailboxes** (`src/sessionorc/agent_common.py`). `FreeRun` is the counting loop over successors and
`MailMerge` the merge; both rest on `GreedyOrder`.

**Restart accounting** (the same file). `Restarts` is what a run is read to have done, what counts toward the ceiling, and
the ceiling over whole runs; `RestartReadings` says what a declared restart is read as from the record alone.

**Claiming a draft** (the same file). `DraftClaim` is a transition system: any number of claimants, each step of each one
step of the system, any of them stopping at any point.

**The attention trail** (`src/sessionorc/agent_attention.py`). `AttentionTrail` is what the agent remembers and each
event's effect on it, `AttentionMixin` the class whose methods update it in place, `AttentionLaws` what holds in every
reachable state, `AttentionRows` what the rows and the entries mean, and `AttentionEndings` what one ending writes, under
which word.

**Fast forms and encodings.** `StreamSearch` is the chunked search of a transcript (`scripts/list_sessions.py`), `Landed`
the branch tests with the patch-id shortcut and the superseded test (`scripts/check_cadence.py`, `scripts/forge.py`),
`SettingText` the printing and reading of a setting (`scripts/forge.py`), and `PathName` the name of a path's directory of
sessions (`scripts/agent_sessions.py`).

## What the code does not do

Where a promise turned out to fail for some inputs, the model keeps the code as it is, shows an input, and proves exactly
when the promise holds.

- A restart declared with new work is to be left out of the ceiling. A replay that fails keeps an entry with that work,
  so the replay that then goes through carries nothing new, and counts: `Restarts.NotEarlyAndYetCounted` is such a run,
  and `Restarts.AfterAFailedReplayItCounts` is that for every run. A wanted restart that went through counts exactly when
  entries before it, inside its own window, hold every work it carried (`Restarts.CountsIffAllHeld`).
- `midpoint` says its result leaves room again. It does when the result ends in a chosen digit (`Midpoints.RoomAgain`);
  where it falls back on a start of `b` there is never room above it (`Midpoints.NoRoomAfterStart`), as between `a` and
  `a||` (`Midpoints.StartOfB`).
- `KEY_RE` ends in `$`, which also matches before a last newline, so a key may carry one. Between two such ends the
  result of `midpoint` may be no key (`Midpoints.NewlineCarriedOver`), and a newline in what is asked is the one thing
  that makes `set_rank` refuse its own text (`RankFileLaws.RefusesOnlyNewlines`, and an input in
  `RankFileLaws.NewlineIsRefused`).
- A rank file is sorted by key, and a new line goes in its place. `set_rank` finds that place among all lines of the
  form, and `rank` reads only those with a key: where a line whose key is none stands above a read one, and the new key
  sorts between the two, the new line goes before both (`RankOrder.MisledIsOutOfOrder`: `TD-9: ~` over `TD-1: a`, and
  TD-2 set to `b`). The entries read ascend after the write exactly when those that stay did and no new one is so misled
  (`RankOrder.WrittenAscendsIff`).
- Applying an update twice is applying it once unless the update removes every line: the second time starts from an
  empty text and writes the header (`RankFileLaws.TwiceIsOnce`, and an input in `RankFileLaws.TwiceIsNotOnce`).
- Implicit keys are padded to six digits. Entries sort by number exactly as long as every number is below a million
  (`ImplicitKeys.SortByNumberIff`); entry 1000000 sorts before 999999 (`ImplicitKeys.MillionSortsEarly`).
- A visible claim stays as it is in every run exactly when the claimants' temporary names all differ
  (`DraftClaim.FinalIffNamesDiffer`): any two of one name can empty it (`DraftClaim.OneNameEmptiesTheClaim`).
- A word left for a row is to stand no longer than its record. That holds where a record is forgotten here, or its
  name is taken: those scrub its words (`AttentionRows.ScrubbedLeavesNoWord`). A node's record that its node forgot is dropped with no
  scrub, so its words stay, and a row of the next record of that address ends by what that record says exactly when no
  word was left, or the same one (`AttentionRows.ForgottenLeavesItsWords`). `AttentionRows.AllowedThoughNeverAnswered`
  is such a run: a row nobody answered is written as allowed by you.
- The chunked search also finds a needle that only ends with a chunk, and nothing else that is not there
  (`StreamSearch.FoundExactly`, and an input in `StreamSearch.FoundThoughNotMentioned`).
- `unshow` is called `show`'s inverse. It is, but for null, the words `true` and `false`, and a text in which a high
  surrogate stands right before a low one (`SettingText.RoundTripIff`, and inputs in `SettingText.DoNotComeBack`).
- `project_dirs` looks for worktrees by a prefix. Past 182 code units of repository path the cap cuts the prefix off, and
  no worktree is found (`PathName.BeginsIff`, and an input in `PathName.LongRepositoryIsMissed`).

## Model

| member | source | states |
|---|---|---|
| Keys.LessTransitive | scripts/ledgerboard.py:361-363 | The key order is transitive |
| Keys.LessTotal | scripts/ledgerboard.py:361-363 | Of two sort values one is below the other, or they are one |
| Keys.KeyOrderInjective | scripts/ledgerboard.py:361-363 | Two keys never share a sort value |
| Keys.KeyLessIff | scripts/ledgerboard.py:361-363 | On the characters: at the first that differs the separator goes before any other and else the lower character, and a key before one it starts |
| Midpoints.Midpoint | scripts/ledgerboard.py:375-414 | Terminates; refuses an end that is no key, and ends out of order; for proper keys in order it finds no key if and only if no key lies strictly between; a result lies strictly between and is a key |
| Midpoints.ChosenIsBetween | scripts/ledgerboard.py:399-401 | The digit taken at the first place where one fits is strictly between, and is a digit above the lowest |
| Midpoints.NoKeyWhereNoRoom | scripts/ledgerboard.py:390-393 | Where it refuses there is no key at all strictly between the ends |
| Midpoints.RoomAgain | scripts/ledgerboard.py:375-377 | After a result that ends in a digit both halves can be split again |
| Midpoints.NoRoomAfterStart | scripts/ledgerboard.py:408-411 | After the fallback there is no room above, and below exactly when `b` had more to give |
| Midpoints.StartOfB | scripts/ledgerboard.py:408-411 | Between `a` and `a` with two separators the only result is `a` with one, and above that there is no room |
| Midpoints.NewlineCarriedOver | scripts/ledgerboard.py:344 | Ends carrying the newline that KEY_RE lets through whose every result is no key |
| Midpoints.FoundIsKey | scripts/ledgerboard.py:375-414 | Between proper keys whatever is found is a proper key strictly between them |
| ImplicitKeys.PaddedOrder | scripts/ledgerboard.py:366-372 | Numbers padded to one width compare as keys exactly as they do as numbers |
| ImplicitKeys.ImplicitKeysOrder | scripts/ledgerboard.py:366-372 | Below a million, implicit keys of one repo sort by Priority band, Type index, then number |
| ImplicitKeys.WordsOrder | scripts/ledgerboard.py:366-372 | By the words: high, medium, low, then any other; of one Priority debt before features; then the number |
| ImplicitKeys.MillionSortsEarly | scripts/ledgerboard.py:366-372 | At a million the order fails |
| ImplicitKeys.SortByNumberIff | scripts/ledgerboard.py:366-372 | Entries of one band, Type and repo numbered up to a bound sort by number if and only if the bound is below a million |
| TextLines.JoinSplit | scripts/ledgerboard.py:456-471 | Lines split with their endings join to the text |
| TextLines.SplitJoin | scripts/ledgerboard.py:471 | Whole lines joined and split again are the same lines |
| RankLines.ParseExact | scripts/ledgerboard.py:343 | A line is read as an entry exactly when it has the form of the expression, and one way only |
| RankLines.WrittenLine | scripts/ledgerboard.py:470 | A line as written is one line and reads back as its id and key |
| RankFileIO.Rank | scripts/ledgerboard.py:417-443 | The keys read, first line of an id winning; the entries in file order; and the flag of every line |
| RankFileIO.RankLinesIn | scripts/ledgerboard.py:423-443 | The loop over the lines keeps the dictionary, the entries and the flags of what it has taken |
| RankFileIO.FlaggedIffUnordered | scripts/ledgerboard.py:440-441 | A file is flagged out of key order exactly when the keys it reads do not ascend |
| RankFlags.EntryExact | scripts/ledgerboard.py:432-435 | A line holds an entry exactly when it has the form of the expression and a key |
| RankFlags.FlagsSay | scripts/ledgerboard.py:417-443 | A flag is given exactly when what it says is so of its line: blank, a comment with an entry above it, unreadable, an id again with the key its first line holds, or a key below that of the last first line above |
| RankFlags.FlagsInOrder | scripts/ledgerboard.py:424-441 | The flags stand in file order, one a line at most |
| RankFileIO.SetRank | scripts/ledgerboard.py:446-477 | Refuses exactly what it must, with the reason, and otherwise returns the rewritten file |
| RankFileIO.InsertWants | scripts/ledgerboard.py:462-470 | Each new line goes before the first entry line that sorts above it, in (key, number) order |
| RankFileIO.KeepOthers | scripts/ledgerboard.py:457-461 | The lines of the ids given are taken out, every other line stays |
| RankFileIO.AsAsked | scripts/ledgerboard.py:472-476 | The read-back test is that every key set is read and every id removed is not |
| RankFileLaws.ReadsBackAsAsked | scripts/ledgerboard.py:446-477 | Set, then read: the ids named read as asked, the removed are gone, all others read as before |
| RankFileLaws.RefusesOnlyNewlines | scripts/ledgerboard.py:472-476 | With LF and CRLF endings alone the read-back refusal fires exactly when an id or key carries a newline |
| RankFileLaws.NewlineIsRefused | scripts/ledgerboard.py:472-476 | A key with a newline passes the checks and does not read back |
| RankFileLaws.OtherLinesStay | scripts/ledgerboard.py:446-448 | Every line that is not an entry line of an id named stays byte for byte and in order |
| RankFileLaws.StaysSorted | scripts/ledgerboard.py:462-470 | Lines sorted by (key, number) stay sorted |
| RankFileLaws.FileStaysSorted | scripts/ledgerboard.py:453-471 | A file sorted by (key, number) is written sorted, a last line without an ending and an empty file among them |
| RankOrder.WrittenAscendsIff | scripts/ledgerboard.py:453-471 | The entries read of the written file ascend by key, then number, if and only if those that stay do and no new one is misled by a line above whose key is none |
| RankOrder.AscendingStaysAscending | scripts/ledgerboard.py:453-471 | A file whose entries ascend and whose entry lines all read is written so that they do, and is not flagged out of order |
| RankOrder.MisledIsOutOfOrder | scripts/ledgerboard.py:465-469 | A file whose entries ascend and one line set, after which they do not |
| RankFileLaws.EndingStaysIff | scripts/ledgerboard.py:454-461 | The rewritten file has the ending the text had, unless that was CRLF and an update that sets no key takes out the last line with it |
| RankFileLaws.EndingStays | scripts/ledgerboard.py:454 | Where some key is set, the rewritten file has the ending that the text had and its new lines took |
| RankFileLaws.EndingLost | scripts/ledgerboard.py:454-461 | A CRLF line and an LF line, the first removed: the ending is LF from then on |
| RankFileLaws.TwiceIsOnce | scripts/ledgerboard.py:446-477 | An update applied twice is the update applied once if and only if it does not empty the file |
| RankFileLaws.TwiceIsNotOnce | scripts/ledgerboard.py:446-477 | A one-line file and its line removed: the second time writes what the first did not |
| RankFileLaws.OthersReadAsBefore | scripts/ledgerboard.py:446-477 | What is read of entries the update does not name is what was read before, whatever is asked of them |
| RankFileLaws.UpdateIsRead | scripts/ledgerboard.py:446-477 | Where only entries named satisfy a condition, the update alone says what is read of them |
| UnionFind.Find | scripts/ledgerboard.py:492-496 | Path halving ends at the root, and leaves every member's root what it was |
| UnionFind.Unite | scripts/ledgerboard.py:507 | One join makes the forest's trees the components with one edge more |
| UnionFind.SameRootIffConnected | scripts/ledgerboard.py:480-518 | Two members have one root exactly when a walk of joins connects them |
| Cards.JoinName | scripts/ledgerboard.py:501-509 | One name joins the present id of its number, unless that is the entry's own, and nothing else |
| Cards.JoinEntry | scripts/ledgerboard.py:498-509 | One entry's names: local ones joined both ways, the absent and the other repos' set aside in order |
| Cards.JoinAll | scripts/ledgerboard.py:497-509 | After all entries the forest is that of all the joins, and each id has its names elsewhere |
| Cards.Gather | scripts/ledgerboard.py:510-518 | The groups by root: members in file order, each once, groups by first member, names elsewhere each once |
| Cards.Components | scripts/ledgerboard.py:480-518 | Returns the connected components of the Blocked by names taken both ways, in file order |
| Cards.EdgeMember | scripts/ledgerboard.py:502-507 | What is joined: an entry and the first present id of a number it names, unless its own |
| Cards.CardsPartition | scripts/ledgerboard.py:480-486 | The cards partition the ids, and two ids are on one card exactly when they are connected |
| GreedyOrder.GreedyPlacesAll | scripts/ledgerboard.py:535-541 | The loop places every member once, cycles or not |
| GreedyOrder.StuckIffLoop | scripts/ledgerboard.py:537 | A member is held back for good exactly when a walk back through its blockers loops |
| GreedyOrder.UnstuckFollows | scripts/ledgerboard.py:521-524 | A member behind no cycle follows all its blockers |
| GreedyOrder.AcyclicRespects | scripts/ledgerboard.py:521-524 | With no cycle every member follows all its blockers |
| GreedyOrder.RespectedIsAcyclic | scripts/ledgerboard.py:521-524 | An order in which every member follows its blockers shows that there is no cycle |
| GreedyOrder.GreedyIsLeast | scripts/ledgerboard.py:536-538 | Of all orders that put blockers first, the loop's is the lexicographically least |
| GreedyOrder.GreedyIsUnique | scripts/ledgerboard.py:536-538 | With no ties there is one such order |
| GreedyOrder.Least | scripts/ledgerboard.py:538 | The least of a set by the sort value |
| CardOrders.BestKey | scripts/ledgerboard.py:529-530 | The best key among the members asked about, or none when there are none |
| CardOrders.CardKeyOf | scripts/ledgerboard.py:529-530 | The card key: the best lined key where any member has a line, else the best key |
| CardOrders.Drain | scripts/ledgerboard.py:535-541 | The members of a card at places 0, 1, 2, … of the greedy order, and no other entry moved |
| CardOrders.CardOrder | scripts/ledgerboard.py:521-542 | Every live entry's place: its card's key, the card's lowest number, and its place in the card's greedy order |
| PickList.LinesByNumber | scripts/ledgerboard.py:236-238 | The line that holds for a number: a line for TD-7 is TD-007's, the first read winning |
| PickList.KeysOf | scripts/ledgerboard.py:263 | Every live entry's key: its line's, else its implicit key |
| PickList.SortByPlace | scripts/ledgerboard.py:306-309 | The entries sorted by place, none lost |
| PickList.ReadBlocked | scripts/ledgerboard.py:269-298 | An entry's open blockers in order: names not done, deciders, what cannot be read; and every other repo's answer |
| PickList.PickableIffUnblocked | scripts/ledgerboard.py:293-298 | An entry is pickable exactly when it has no open blocker |
| PickList.Pickable | scripts/ledgerboard.py:215-312 | Every live entry once, in pick order, each with its key, card key, open blockers, other repos' answers and derived pickable |
| PickOrder.CardsAreContiguous | scripts/ledgerboard.py:521-542 | With distinct numbers nothing of another card stands between two entries of one |
| PickOrder.OneLowPerCard | scripts/ledgerboard.py:531 | With distinct numbers two entries share a lowest number exactly when they are on one card |
| PickOrder.BlockersStandFirst | scripts/ledgerboard.py:521-542 | An entry behind no cycle stands after all its blockers, on one card with them |
| PickOrder.CardOrderIsLeast | scripts/ledgerboard.py:536-538 | On a card with no cycle the places are the least order by (key, number) that puts blockers first |
| PickOrder.MembersByKeyThenNumber | scripts/ledgerboard.py:536-538 | On a card, of two entries the later, if its blockers stood before the earlier, has not the lower key, nor at one key the lower number |
| PickOrder.CardsByKeyThenNumber | scripts/ledgerboard.py:528-539 | Of two cards the later has not the lower key, nor at one key the lower lowest number |
| PickOrder.DoneWhenReached | scripts/ledgerboard.py:277-294 | In a schedulable ledger whatever an entry names has been archived when the entry is reached |
| PickOrder.DrainedIsAcyclic | scripts/ledgerboard.py:219-224 | An order that drains shows that no entry waits on itself |
| PickOrder.DrainedIsSchedulable | scripts/ledgerboard.py:269-298 | Any order that drains shows that every name can be done and nothing waits for ever |
| PickOrder.DrainsIffSchedulable | scripts/ledgerboard.py:215-312 | Taking the entries in pick order and archiving each, every entry is pickable when reached, if and only if every name is live here or archived, nothing waits on a decision or cannot be read, and no entry waits on itself |
| PickOrder.DrainsIfAnyOrderDoes | scripts/ledgerboard.py:215-312 | If the entries can be drained in any order at all, the pick order drains them |
| MoveCard.LinedAfter | scripts/ledgerboard.py:446-477 | Setting one id's line changes what is read for its number and for no other |
| MoveCard.CardKeepsPlaces | scripts/ledgerboard.py:521-542 | A card whose members keep their keys keeps its places |
| MoveCard.OthersKeepOrder | scripts/ledgerboard.py:446-477 | Entries of other cards keep their relative order |
| MoveCard.CardMoves | scripts/ledgerboard.py:375-542 | Setting a card's only line to a midpoint of two neighbouring card keys puts the whole card between them and moves nothing else |
| MoveCard.OneLineIsTaken | scripts/ledgerboard.py:446-477 | Setting one entry's key is accepted and reads back |
| MoveCard.Move | scripts/ledgerboard.py:375-477 | `midpoint` and then `set_rank`: what comes out is the file with a key strictly between written on the entry's line; for an id and ends in order it goes through if and only if there is such a key |
| FreeRun.Count | src/sessionorc/agent_common.py:217-228 | Each edge is counted once, so an entry's count is the number of entries before it |
| FreeRun.Release | src/sessionorc/agent_common.py:235-238 | Placing an entry frees exactly those that waited for it alone |
| FreeRun.TakeFree | src/sessionorc/agent_common.py:229-238 | The least of the free entries, while there is one; when it stops nothing is free |
| MailMerge.FreeFirst | src/sessionorc/agent_common.py:217-238 | The run of free entries, counted over box, reply and settlement edges, and what no run can reach |
| MailMerge.OldestFirst | src/sessionorc/agent_common.py:210-241 | The merge: free entries oldest first, then what is left by (at, id) |
| MailMerge.MergeLosesNothing | src/sessionorc/agent_common.py:240-241 | For any boxes, even contradictory, the result holds every entry once |
| MailMerge.UnmergedIsStuck | src/sessionorc/agent_common.py:240-241 | What is left over is exactly what lies on a cycle or behind one |
| MailMerge.MergedFollows | src/sessionorc/agent_common.py:211-216 | Every merged entry follows all that comes before it, cycles elsewhere or not |
| MailMerge.AgreeingBoxesMerge | src/sessionorc/agent_common.py:211-216 | With no cycle every edge is kept, and of all orders that keep them this is the least by (at, id) |
| MailMerge.OldestGoesFirst | src/sessionorc/agent_common.py:229-238 | Of two merged entries the later, if all before it stood before the earlier, is not the older by time, then id, character by character |
| MailMerge.RestIsOldestFirst | src/sessionorc/agent_common.py:239-241 | What could not be merged is last, oldest first |
| MailMerge.RepliesFollow | src/sessionorc/agent_common.py:211-226 | An entry behind no contradiction stands after what it replies to, after what closed the question it settled, and after the one before it in any box |
| Restarts.Counted | src/sessionorc/agent_common.py:966-989 | The entries inside the window that count, by the rules for fills, a person's and wanted restarts with new work |
| Restarts.CountingIsSettled | src/sessionorc/agent_common.py:966-989 | Whether an entry counts depends on it and the entries before it, not on what is appended |
| Restarts.CountedSize | src/sessionorc/agent_common.py:966-989 | The list returned has one entry for each place that counts |
| Restarts.LeftOutStaysOut | src/sessionorc/agent_common.py:966-989 | Neither appends nor time make an entry that was left out count |
| Restarts.CountsIffAllHeld | src/sessionorc/agent_common.py:966-989 | A wanted restart that went through counts, in its window and whatever is appended, if and only if entries before it in its own window hold every work it carried |
| Restarts.WantedCountsIff | src/sessionorc/agent_common.py:966-989 | The same on the records alone: within two hours, and each work under its reference and pull request in an entry of the two hours before |
| Restarts.OthersCountByKind | src/sessionorc/agent_common.py:977-988 | A crash or a failed replay counts for two hours, a person's restart never, a fill where fills are asked for |
| Restarts.ThreeCrashesReachCeiling | src/sessionorc/agent_common.py:966-988 | Three crashes or failed replays in two hours make a count of at least three |
| RestartReadings.LeftIff | src/sessionorc/agent_common.py:921-938 | A run leaves a reference exactly when it declared a claim on it and no slice of it is new |
| RestartReadings.ReadingSays | src/sessionorc/agent_common.py:992-1039 | What a declared restart is read as, word by word, from what the record reports, holds and leaves |
| RestartReadings.EarlyIff | src/sessionorc/agent_common.py:1014-1039 | Early exactly when it repeats work, leaves a claim for the third time, or is young with nothing new; a repeat exactly in the first two |
| RestartReadings.RepeatNamesFirstDone | src/sessionorc/agent_common.py:1015-1025 | A repeat of work names the first reference declared done |
| RestartReadings.RepeatNamesFirstLeft | src/sessionorc/agent_common.py:1020-1028 | A claim left three runs running is the first such |
| Restarts.DeclaredIsLeftOut | src/sessionorc/agent_common.py:954-1038 | A declaration that finds new work leads to an entry left out at every later time, whatever is appended, unless an entry written since and still in the window holds all that was new |
| Restarts.NotEarlyIsLeftOut | src/sessionorc/agent_common.py:1034-1037 | A restart declared not early is left out in the same way |
| Restarts.AfterAFailedReplayItCounts | src/sessionorc/agent_tick.py:2543-2585 | A replay that failed keeps the run's work, so the replay that then goes through within its window counts |
| Restarts.NotEarlyAndYetCounted | src/sessionorc/agent_tick.py:2582-2585 | Such a run: declared not early, its replay fails once, and it counts |
| Restarts.CeilingHolds | src/sessionorc/agent_common.py:118-122 | If restarts are made only below the ceiling, no two hours of any run start more than three that count |
| Restarts.WindowIsCounted | src/sessionorc/agent_common.py:912-918 | When a restart of a window was made, the window's earlier ones were all in the count |
| DraftClaim.NextKeeps | src/sessionorc/agent_common.py:377-389 | Every step of every claimant keeps the invariant: own files, own text so far, one winner |
| DraftClaim.RunKeeps | src/sessionorc/agent_common.py:377-389 | The invariant holds in every state of every run |
| DraftClaim.OneWholeClaim | src/sessionorc/agent_common.py:329-389 | A visible claim is the whole text of one claimant, which succeeded and no other did; before it is visible none has and none is refused |
| DraftClaim.ClaimIsFinal | src/sessionorc/agent_common.py:377-382 | Once visible the claim is never written over nor taken away |
| DraftClaim.OneWins | src/sessionorc/agent_common.py:377-389 | When all claimants are through, and not every link failed, exactly one has won, and the claim is its text |
| DraftClaim.NothingLeftBehind | src/sessionorc/agent_common.py:388-389 | A claimant that is through, by a link that failed for another reason too, has left no temporary file |
| DraftClaim.OneNameEmptiesTheClaim | src/sessionorc/agent_common.py:383 | Any two claimants of one temporary name can empty a visible claim |
| DraftClaim.FinalIffNamesDiffer | src/sessionorc/agent_common.py:377-389 | Visible claims are final in every run if and only if the temporary names all differ |
| AttentionMixin.Mixin.NoteAttention | src/sessionorc/agent_attention.py:34-63 | A tick's whole effect on what is remembered |
| AttentionMixin.Mixin.TrailAppend | src/sessionorc/agent_attention.py:65-121 | One ending's whole effect: its word, the floor, the coalescing, the cleaned text, the cap |
| AttentionMixin.Mixin.TakeWord | src/sessionorc/agent_attention.py:84-89 | The word: the caller's, the row's own taken out, the record's, resumed, the state's, resolved |
| AttentionMixin.Mixin.TrailReply | src/sessionorc/agent_attention.py:123-146 | A board reply's entry, in front |
| AttentionMixin.Mixin.AttentionGone | src/sessionorc/agent_attention.py:148-167 | A leaving record's whole effect |
| AttentionMixin.Mixin.AttentionEnded | src/sessionorc/agent_attention.py:169-174 | A word left for a row, or for both |
| AttentionLaws.WrittenKeeps | src/sessionorc/agent_attention.py:90-121 | An ending keeps the cap and the one-entry rule and is accounted for once: counted, floored, or cut with what it pushed out |
| AttentionLaws.EventKeeps | src/sessionorc/agent_attention.py:34-174 | Every event keeps the cap, the one-entry rule, and the accounts |
| AttentionLaws.EveryRunIsSound | src/sessionorc/agent_attention.py:34-174 | In every reachable state: at most 100 entries, no two of one record, kind and word, and the rows begun equal those showing, counted, floored, cut, dropped and gone unannounced |
| AttentionRows.TickFollows | src/sessionorc/agent_attention.py:34-63 | After a tick the rows remembered are exactly those the graph shows; one that went on is left as it was |
| AttentionRows.RowsOfRecord | src/sessionorc/agent_attention.py:42-61 | A record's two rows are remembered exactly while it has a kind or an alarm, and as it was when they began |
| AttentionRows.StartIsTheStart | src/sessionorc/agent_attention.py:55-59 | The start of a run: every tick since has shown that kind with no break, and just before it did not show |
| AttentionRows.RowsAreUnbrokenRuns | src/sessionorc/agent_attention.py:34-63 | In every reachable state a row is remembered exactly when it is showing, as it was at the start of its unbroken run |
| AttentionRows.AppendWrites | src/sessionorc/agent_attention.py:75-121 | An ending not too short is counted once, under its word, and pushes no other entry about but the one cut |
| AttentionEndings.NewsIsThere | src/sessionorc/agent_attention.py:90-121 | An ending by you, of five seconds, or since nobody can tell when, leaves an entry of its record, kind and word at its second; any other leaves the trail as it was |
| AttentionEndings.EndingIsWritten | src/sessionorc/agent_attention.py:65-121 | The word in its order of precedence; once more on the entry of that record, kind and word, or a new one in front with the record's own words, the hundredth going |
| AttentionEndings.EndedBySays | src/sessionorc/agent_common.py:597-627 | Each word a record ends its row by, and exactly when |
| AttentionEndings.LeavingIsWritten | src/sessionorc/agent_attention.py:158-163 | A leaving record's row is written under the word left for it, else the record's, else that of the leaving |
| AttentionEndings.ReplyIsWritten | src/sessionorc/agent_attention.py:123-145 | A board reply is always a new entry in front, in its own words |
| AttentionEndings.DismissedGo | src/sessionorc/agent_inbox.py:218-221 | Dismissing takes out the entries of those ids alone |
| AttentionEndings.OldOnesGo | src/sessionorc/agent_inbox.py:977-982 | The sweep takes out the entries last written the retention ago |
| AttentionRows.WordIsSpentOnce | src/sessionorc/agent_attention.py:169-174 | A row's own word is spent by the ending it is written with; the record's stands |
| AttentionRows.LeavingTakesItsRows | src/sessionorc/agent_attention.py:148-167 | A leaving record's rows and snoozes go and no other's; its words stay |
| AttentionRows.EndsByOwnWordIff | src/sessionorc/agent_attention.py:84-89 | A row ends by what its record says if and only if no word is left for it or for its record, or the same one |
| AttentionRows.ScrubbedLeavesNoWord | src/sessionorc/agent_tick.py:4462-4465 | A record that leaves and is scrubbed leaves no row and no word, and the next of its id ends its rows by what it says; no other record loses any |
| AttentionRows.ForgottenLeavesItsWords | src/sessionorc/agent_remote.py:925-933 | A record gone from the graph with no scrub loses its rows and keeps its words; the next of its address ends by its own word if and only if none was left, or the same |
| AttentionRows.ForgottenRunWrites | src/sessionorc/agent_remote.py:492-502 | In any run in which that happens the trail says of the later record what was said of the forgotten one |
| AttentionRows.AllowedThoughNeverAnswered | src/sessionorc/agent_remote.py:492-497 | Such a run: a node's prompt allowed and forgotten, and the next one, never answered, written as allowed by you |
| StreamSearch.Search | scripts/list_sessions.py:378-394 | True exactly when the file up to the end of some chunk mentions a needle as a path |
| StreamSearch.InTheTail | scripts/list_sessions.py:387-391 | A mention that the tail no longer reaches was there before the chunk |
| StreamSearch.FoundExactly | scripts/list_sessions.py:378-394 | The chunked search finds what a whole-file search does and, besides, a needle that ends with a chunk: it never misses |
| StreamSearch.OneChunkAgrees | scripts/list_sessions.py:378-394 | On one chunk the two agree |
| StreamSearch.MentionedUnlessItGoesOn | scripts/list_sessions.py:379-383 | A path is mentioned where no letter, digit, underscore or dash goes on with it, nor a dot and then one |
| StreamSearch.FoundThoughNotMentioned | scripts/list_sessions.py:387-391 | On two they need not |
| Landed.NothingLeftIff | scripts/forge.py:894-926 | Nothing is left exactly when merging the head by whole files would conflict nowhere and change nothing |
| Landed.NothingLeftMergesEmpty | scripts/forge.py:894-902 | Where nothing is left, merging the head changes nothing, however files are merged, line by line too |
| Landed.MainPatchIds | scripts/check_cadence.py:756-789 | The ids are those of the commits that touch every one of the files, through batches of 200 |
| Landed.OnlyCandidates | scripts/check_cadence.py:756-764 | A commit with the branch's own patch touches every file of the branch |
| Landed.FindOnMain | scripts/check_cadence.py:822-832 | The shortcut and asking commit by commit give one answer |
| Landed.LandedSinceEdited | scripts/check_cadence.py:792-837 | The verdict, by the shortcut or without, is that of the simple form |
| Landed.LandedIsNeverReverted | scripts/check_cadence.py:720-742 | A branch that landed now is never read as reverted |
| Landed.VerdictIff | scripts/check_cadence.py:792-837 | Yes exactly when the branch has files, its squash is on main with them or a commit of main carries its patch, and main differs from the merge-base over some; reverted when over none |
| SettingText.ScanOfEscape | scripts/forge.py:961 | Each character is read back from its escape, whatever follows |
| SettingText.ScanOfEscapes | scripts/forge.py:961-970 | A text's escapes are read back as the text, adjacent surrogates joined, and leave what follows |
| SettingText.UnshowOfShow | scripts/forge.py:953-973 | What every value reads back as |
| SettingText.RoundTripIff | scripts/forge.py:953-973 | A value comes back as it was if and only if it is not null, not the words true and false, and holds no surrogate pair written as two |
| SettingText.DoNotComeBack | scripts/forge.py:953-973 | Null, `true`, and an emoji as two surrogates, and what each reads back as |
| SettingText.ShownIsOneLine | scripts/forge.py:953-961 | A shown value is one line of printable ASCII |
| SettingText.ShownAs | scripts/forge.py:953-961 | The words of null and the booleans, a plain word as it is, any other text quoted |
| SettingText.HexEscape | scripts/forge.py:961 | A character of one unit beyond printable ASCII is written as its four hexadecimal digits |
| SettingText.PairEscape | scripts/forge.py:961 | One of two units is written as its surrogates, high then low |
| PathName.PlainNamesUnits | scripts/agent_sessions.py:645-654 | Character by character gives JavaScript's rule: one character for each UTF-16 unit, a dash unless alphanumeric |
| PathName.Munge | scripts/agent_sessions.py:634-667 | The wrapped hash loop and the digit loop compute the name |
| PathName.HashIsSigned | scripts/agent_sessions.py:657-660 | The hash is the size of Java's hash code of the units, wrapped to a signed 32-bit number |
| PathName.Base36Says | scripts/agent_sessions.py:661-666 | The digits say the number, with no zero in front |
| PathName.MungedIsAName | scripts/agent_sessions.py:634-667 | ASCII letters, digits and dashes, at most 207; up to the cap the rule, past it the rule cut and the signed 32-bit hash in base 36 |
| PathName.WorktreeName | scripts/agent_sessions.py:679-685 | Under the cap a worktree's name is its repository's, the marker, and its own |
| PathName.BeginsIff | scripts/agent_sessions.py:679-685 | A worktree's name begins with its repository's prefix if and only if the repository's path has at most 182 units |
| PathName.WorktreesListed | scripts/agent_sessions.py:670-682 | So a worktree's directory is listed for its repository exactly then, but for one that shares its name |
| PathName.LongRepositoryIsMissed | scripts/agent_sessions.py:679-681 | A repository path of 183 units whose worktree's directory is there and not listed |

## Left out

- CardsAreContiguous, CardMoves and DrainsIffSchedulable ask for entries of distinct numbers: `TD-7` and `TD-007` are one number, and two such entries share a place.
- CardMoves asks that no other id of the number moved holds a line, and that no other card's key stands between the neighbours' keys; of the card moved no other member has a line.
- LandedSinceEdited takes a patch-id to tell which files its patch is over; the ids are otherwise any function of the patch. Rename detection, a listing that cannot be split, and git errors are not modelled beyond whether the listing could be had.
- NothingLeftIff has a merge by whole files: a file changed on both sides to different content is a conflict, where git would look at its lines and may find that nothing changes; the other half, NothingLeftMergesEmpty, is of any merge. The answer None, for what git cannot tell, is left out.
- RoundTripIff is over null, booleans and strings; a number is shown as its string and read back as that.
- OneWholeClaim and ClaimIsFinal take every claimant's temporary name to be its own, as process id and clock make it; FinalIffNamesDiffer says what that is worth. A write that fails before the link is a claimant that stopped, its file left.
- EveryRunIsSound is over rows and entries as the agent holds them: a trail loaded from a damaged store is not modelled, and what cleaning a text does to it is an input.
- AttentionGone writes a leaving record's two rows in the order they began, which is an input; a record's address is its key in the graph, and no id holds the character `|`.
- ParseExact takes the decimal digits of an id to be ASCII, where the expression lets through any Unicode decimal: which characters those are depends on the Unicode table that Python was built with.
- SplitJoin and the laws of the rank file are over texts whose only line endings are LF and CRLF; the reading itself splits at every break that Python does.
- OldestFirst takes the heap by its promise, the least of what is on it; ties cannot happen, as ids differ.
- SortByPlace is a stable insertion by place, as Python's sort is stable.
- Pickable takes the entries with heading, fields and Blocked by read; it leaves out the textual flags, the vocabulary, the summary table's priority, and the separate lists of pickable and blocked entries, which are the order's parts.
- CeilingHolds has each restart's time in whole seconds, as records are written, and the count made no later than that second.
- Search takes the file as the chunks read; a read that fails is a file that ends there, and the answer False.
- Munge takes the path's string; a home directory, the listing and what is a directory are inputs.
- The board half of `ledgerboard.py`, `check`, report formatting, `patch_settings`, the mail store and the host agent's tick are not modelled: regular-expression surgery rechecked at run time, or plumbing whose claims are branch by branch.
- Git, `gh`, `glab`, tmux, HTTP and the file system enter by their answers alone.
