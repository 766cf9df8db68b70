# Verified model of aictl's stateful cores

This project models the parts of aictl whose promises span many operations, and proves those promises for
all inputs and all runs:

- the comment-preserving editor of JSON configuration files, and the ownership rules for hooks built on it;
- the merging of session profiles, and the sessions table they come from;
- the writing of per-call facts, with its promotion, merging and removal of other writers' rows;
- the write-behind buffers of the history store, the file-history store, and eviction under a disk budget;
- the memory swap between profiles, with crashes at any point;
- the sample sink's caches, suppression and flood control;
- the mutation ledger and its rotation.

`dafny verify dfyconfig.toml` checks everything.

## How the model is laid out

Each component has a specification made of functions on values, lemmas about it, and methods or classes in the
form of the original code (loops over indices, fields updated in place) that are proved to compute exactly what
the specification says. So a statement about the specification is a statement about the loops.

| files | what they hold |
|---|---|
| `Text`, `JsoncScanner`, `JsoncDoc` | strings; what the scanner measures; the object as concrete syntax, and that parsing and writing it are inverse |
| `JsonDump`, `JsoncEdit` | what `json.dumps` writes; the editor's results as functions of the text |
| `JsoncGaps`, `JsoncSplice`, `JsoncSet`, `JsoncAppend`, `JsoncDelete`, `JsoncDeleteSafe` | an edit of the text is an edit of the concrete syntax |
| `JsoncTheorems`, `JsoncDeleteExact`, `JsoncContents`, `JsoncNewFile`, `JsoncLimits` | the editor's promises, exactly when they hold, and inputs where they do not |
| `JsoncStrict`, `JsoncStrictFacts`, `JsoncStrictDoc`, `JsoncStrictTheorems`, `JsoncStrictTwice`, `JsoncStrictTokens`, `JsoncStrictDump`, `JsoncStrictLimits` | taking out comments and trailing commas: token by token, member by member, exactly when it is enough, and inputs where it is not |
| `JsoncLoads`, `JsoncParser` | reading a text with comments as a dict; that there is a parser of the kind this asks for |
| `JsoncMethods`, `JsoncStrictMethods` | the scanner, the editor and the stripping as loops |
| `HookRules`, `HookFiles`, `HookReinstall` | whose rule it is, stripping and merging; the same in a file |
| `SessionMerge`, `SessionMergeKept`, `SessionMergeTheorems`, `SessionMergeMethods`, `Sessions` | the three merge passes; the sessions table |
| `CallFacts`, `CallFactsMerge`, `CallFactsTheorems`, `CallFactsEdits`, `CallFactsRuns`, `CallFactsLimits`, `CallFactsMethods` | per-call facts |
| `Flush`, `FlushRows`, `FileStore`, `Budget` | buffers, file history, eviction |
| `MemorySwap`, `MemoryCrash`, `MemoryUse` | the memory swap as a step machine, crashes, and the calls |
| `SampleSink`, `SampleSinkTheorems`, `SampleSinkStored`, `SampleSinkMethods` | the sink; what it suppresses, against what was forwarded and against what was stored |
| `Ledger`, `LedgerLines`, `Options` | the ledger and the lines that are read back, an option type |

Text is a sequence of characters; a number is exact. A table is a sequence or a map of rows, an `ON CONFLICT`
clause a policy for each column. What the code gets from elsewhere is a parameter: `json.loads` on a key and on a text,
`str` of a value, the UUID and the process id inside a session id, hashes, sizes, clocks, and which operation fails.

## Where the code and its own words differ

The code was followed. Where a promise does not hold always, it is proved exactly when it does, and an input is given
at which it does not.

- `jsonc_set` on a key that is there keeps every other byte, but a number or word written in front of a byte order
  mark is not read back: `_value_end` does not stop at U+FEFF. `SetReplaces` holds exactly when that does not happen.
- `jsonc_delete` is called the inverse of `jsonc_set` for an appended key. It is, byte for byte, except that
  `{ }`, with only white space inside, comes back as `{}`.
- `jsonc_delete` of a last member trims the newline before it. When a line comment ends there and nothing after the
  member ends the comment, the closing brace is lost in it. `DeleteRemoves` gives the exact condition.
- `_strip_jsonc` says that comments are blanked. They are taken out, so `[1/**/2]` is read as `[12]`: the tokens are
  those of the blanked text exactly when no comment stands directly between two characters of words or numbers. Of two
  commas in a row only the second goes. A quote inside a number, which no JSON has, swallows what follows it: a value
  is stripped on its own exactly when it leaves no quote open.
- `write_call_facts` says a re-read adds nothing. That fails exactly when a call is merged into another writer's row
  that the same write then removes; the next write brings the call back. This is about the function on all the rows it accepts: the present
  writers hash a name of their own into the key of a row, so theirs do not meet.
- `flush` says a retry is idempotent. It is for what it commits, but the cache of process snapshots is changed before
  the commit, so the retry filters the batch against what the batch itself left there. It may lose rows or write others:
  it writes the same ones exactly when, for every process, the first row written differs from the last one written and
  the rows before it do not. A process with one row written never meets that. Numbering starts anew in every batch, so
  rows that share a key with rows of an earlier flush are ignored.
- A crash after the last step of a swap to a profile without a stash leaves a fresh empty memory directory, which
  the recovery keeps. A restore that fails during the recovery is logged, and the marker is removed all the same: that
  is the one way to a third outcome.
- A swap tried again after a crash begins with the recovery. It puts the old profile's memory under the old profile's
  name exactly when that memory was still the active one, or when nothing was active and the new profile had no stash.
  Otherwise the new memory goes under the old name, and the old one into a backup.
- `update_session_stats` says a running total never decreases; `upsert_session` lowers one when it comes with a
  smaller total that is not zero.
- `emit_if_changed` says it stores an unchanged value again 300 s after it was last stored, and suppression is
  described against what was stored. A reading is remembered before flood control sees it, so one that is dropped
  there still suppresses the next ones. The bounds hold against the last reading forwarded, and against the last one
  stored when that one was let through.
- The ledger writes a path with U+0085, U+2028 or U+2029 in it as it is, and `splitlines` breaks the line there: such
  an entry is not read back, the others are.
- Retention of file versions can make `file_content_at` forget an answer. It never changes one, exactly when no path
  keeps a version older than one it loses; the floor the program passes sees to that.

## Model

| member | source | states |
|---|---|---|
| JsoncScanner.TriviaAfterGap | src/aictl/hook_removal.py:99-115 | in front of any text, the scan of white space and comments passes a gap and goes on with what follows |
| JsoncScanner.TriviaSplits | src/aictl/hook_removal.py:99-115 | what the scan passes in front of a token is a gap, and the token starts neither white space nor a comment |
| JsoncScanner.LiteralLocal | src/aictl/hook_removal.py:118-129 | a string literal is read the same whatever follows it |
| JsoncScanner.LiteralCut | src/aictl/hook_removal.py:118-129 | what is read as a string literal is one, on its own |
| JsoncScanner.NestLocal | src/aictl/hook_removal.py:138-156 | brackets that close are read the same whatever follows them, over strings and comments at any depth |
| JsoncScanner.ValueLocal | src/aictl/hook_removal.py:132-162 | a value is read the same in front of any text at which it ends |
| JsoncScanner.ValueCut | src/aictl/hook_removal.py:132-162 | what is read as a value is one, on its own, and the reading stops right behind it |
| JsoncDoc.WrittenIsRead | src/aictl/hook_removal.py:165-193 | every object written from well-formed pieces is accepted, with exactly the spans of its members |
| JsoncDoc.ReadIsWritten | src/aictl/hook_removal.py:165-193 | every accepted text is written from well-formed pieces whose spans are the ones returned |
| JsonDump.QuoteIsLiteral | src/aictl/hook_removal.py:260-262 | what `json.dumps` writes for a string is one string literal on one line, ASCII or not |
| JsonDump.DumpIsValue | src/aictl/hook_removal.py:242-244 | what `json.dumps` writes with indentation is read back as one value |
| JsonDump.DumpValueIsValue | src/aictl/hook_removal.py:242-244 | the dump is still one value after re-indentation and with the line ending of the file |
| JsoncMethods.SkipTrivia | src/aictl/hook_removal.py:99-115 | the loop finds the next token, the end of the text, or the unterminated comment |
| JsoncMethods.StringEnd | src/aictl/hook_removal.py:118-129 | the loop finds the end of the string, or reports that it has none |
| JsoncMethods.BracketsEnd | src/aictl/hook_removal.py:138-156 | the loop finds the bracket that closes the first one, or reports which error stops it |
| JsoncMethods.ValueEnd | src/aictl/hook_removal.py:132-162 | the end of a value of any kind, or the error |
| JsoncMethods.ReadOne | src/aictl/hook_removal.py:178-187 | one member: its key, and where key and value stand, or the first error |
| JsoncMethods.NextKey | src/aictl/hook_removal.py:188-193 | past the comma, or to the closing brace, or the error |
| JsoncMethods.Members | src/aictl/hook_removal.py:165-193 | the loop over the members returns the parse, errors included |
| JsoncMethods.Grow | src/aictl/hook_removal.py:261-272 | the three ways to append a member: no member yet, a trailing comma, no trailing comma |
| JsoncMethods.Set | src/aictl/hook_removal.py:247-272 | `jsonc_set` on every text: what it returns or which error |
| JsoncMethods.CutInner | src/aictl/hook_removal.py:283-293 | a member that is not last goes with its whole line, or up to the next key |
| JsoncMethods.DeleteLast | src/aictl/hook_removal.py:294-305 | the cuts for a last or only member |
| JsoncMethods.Delete | src/aictl/hook_removal.py:275-306 | `jsonc_delete` on every text: what it returns or which error |
| JsoncTheorems.SetReplaces | src/aictl/hook_removal.py:251-256 | setting a key that is there replaces the value's bytes and no other; the result is accepted with every other span in place, exactly when a scalar does not run on into a byte order mark |
| JsoncTheorems.SetAppends | src/aictl/hook_removal.py:257-272 | setting a new key is accepted and appends one member, the quoted key with the dump; every other member keeps its offsets |
| JsoncTheorems.SetThenDelete | src/aictl/hook_removal.py:247-306 | deleting the key just set gives the text back byte for byte, exactly unless there was only white space between the braces |
| JsoncTheorems.DeleteAbsent | src/aictl/hook_removal.py:275-306 | deleting a key that is not there changes nothing |
| JsoncDeleteExact.DeleteRemoves | src/aictl/hook_removal.py:275-306 | the result of a deletion is accepted without the member, every other span kept or moved by what was cut, exactly when the condition on the trimmed comment and the mark holds |
| JsoncContents.SetContents | src/aictl/hook_removal.py:251-256 | the content after setting: that key's value is the dump, every other name and value as before, in order |
| JsoncContents.AppendContents | src/aictl/hook_removal.py:257-272 | the content after setting a new key: everything there was, then the key with the dump |
| JsoncContents.DeleteContents | src/aictl/hook_removal.py:275-306 | the content after a safe deletion: everything there was but that member |
| JsoncNewFile.NewFileIsRead | src/aictl/hook_removal.py:249-250 | a text of white space and byte order marks becomes an object with that one member |
| JsoncLimits.CommentSwallows | src/aictl/hook_removal.py:294-305 | `{"a":1, // x` and `"b":2}` on the next line: deleting "b" loses the closing brace |
| JsoncLimits.MarkIsSwallowed | src/aictl/hook_removal.py:158-162 | a list followed by a byte order mark, replaced by a number, is not read back |
| JsoncLimits.HollowShrinks | src/aictl/hook_removal.py:257-300 | setting and deleting a key in `{ }` leaves `{}` |
| JsoncStrictFacts.StripsComments | src/aictl/hook_removal.py:196-216 | whatever the text was, once stripped it has no comment outside its strings |
| JsoncStrictFacts.StrictOfValue | src/aictl/hook_removal.py:196-216 | a value is stripped the same in front of any text at which it ends |
| JsoncStrictFacts.AloneExactly | src/aictl/hook_removal.py:196-216 | a value is stripped on its own, whatever ends it, exactly when it leaves no quote open |
| JsoncStrictTokens.StripsLikeBlanking | src/aictl/hook_removal.py:196-216 | for every text, what is left has the strings, marks and words that blanking the comments would leave, exactly when no comment stands directly between two characters of words |
| JsoncStrictTokens.NumbersAreJoined | src/aictl/hook_removal.py:206-207 | in `[1/**/2]` one does, and one word is left of two |
| JsoncStrictFacts.StrictIsValue | src/aictl/hook_removal.py:196-216 | a value is still one value when it is stripped, and a string, number or word is the same |
| JsoncStrictTwice.StrictTwice | src/aictl/hook_removal.py:196-216 | stripping once is enough, exactly when no comma that stays comes right before one that goes |
| JsoncStrictTheorems.StrictKeepsMembers | src/aictl/hook_removal.py:196-216 | a stripped text has the same keys in the same order, each value stripped, at the offsets of what is left, exactly unless a mark comes to stand behind a scalar |
| JsoncStrictDump.DumpValueIsStrict | src/aictl/hook_removal.py:242-244 | what the editor writes for a value is not changed by stripping |
| JsoncStrictMethods.StripJsonc | src/aictl/hook_removal.py:196-216 | the loop over the text returns what is left, or the error |
| JsoncStrictMethods.Load | src/aictl/hook_removal.py:219-233 | strictly first, stripped when that fails: the dict, or that the text is not readable |
| JsoncLoads.LoadIs | src/aictl/hook_removal.py:219-233 | whatever comments and trailing commas a text has, it is read member by member, each value stripped, the last one of a name |
| JsoncLoads.LoadAfterSet | src/aictl/hook_removal.py:219-272 | after a new key was set, the dict that is read has it too, with the value that was set, and is otherwise as before |
| JsoncLoads.LoadAfterReplace | src/aictl/hook_removal.py:219-256 | after a key that stands once was set to another object, the dict that is read has it there, in the same place, and is otherwise as before |
| JsoncParser.ParserExists | src/aictl/hook_removal.py:229-230 | whatever reads the values that are not objects, there is a parser that reads objects member by member and nothing that is not strict |
| JsoncStrictLimits.NumbersJoin | src/aictl/hook_removal.py:206-207 | `[1/**/2]` is stripped to `[12]` |
| JsoncStrictLimits.OneCommaStays | src/aictl/hook_removal.py:208-211 | `[,,]` is stripped to `[,]`, which is stripped to `[]` |
| JsoncStrictLimits.MarkRunsOn | src/aictl/hook_removal.py:208-211 | a number, a trailing comma and a byte order mark are accepted, and read otherwise once the comma is gone |
| JsoncStrictLimits.QuoteRunsOn | src/aictl/hook_removal.py:202-205 | `{"a":1","b":""}` is accepted with two members and cannot be stripped |
| HookRules.KeptRulesAreTheirs | src/aictl/hook_removal.py:460-488 | no rule that stays, whole or in part, is aictl's |
| HookRules.TheirsStay | src/aictl/hook_removal.py:473-476 | rules of others stay, in order and unchanged, and none is counted |
| HookRules.StripTwice | src/aictl/hook_removal.py:460-488 | stripping twice is stripping once, and the second time finds nothing |
| HookRules.TaggedIsOurs | src/aictl/_hook_owner.py:75-88 | a stamped rule is aictl's whatever else it holds, and goes without a rest |
| HookRules.MergeThenStrip | src/aictl/_hook_owner.py:37-52 | stripping after a merge gives what stripping before it gave, in the same order, and removes exactly the rules that were let in |
| HookRules.MergeTwice | src/aictl/_hook_owner.py:37-52 | a second installation replaces the first |
| HookRules.MergeAt | src/aictl/_hook_owner.py:47-52 | under each event: the other rules first, then the new ones; an event that holds no list, and every other event, is as it was |
| HookRules.StripEvent | src/aictl/hook_removal.py:472-487 | the loop over one event's rules keeps and counts what the specification does |
| HookRules.StripRules | src/aictl/hook_removal.py:460-488 | the loop over the events returns what stays and how many rules went |
| HookRules.Tag | src/aictl/_hook_owner.py:75-88 | stamps every rule in place, also when one stands there twice |
| HookRules.TaggedCopies | src/aictl/_hook_owner.py:47 | stamped copies; the caller's rules are not changed |
| HookRules.MergeHooks | src/aictl/_hook_owner.py:37-52 | the merge as it runs returns the merged events and leaves the caller's rules alone |
| HookFiles.UpdateConcat | src/aictl/hook_removal.py:424-428 | applying a list of updates in two parts is applying it at once, errors included |
| HookFiles.SettingsUndone | src/aictl/hook_removal.py:424-428 | setting any number of new keys and deleting them in the opposite order restores the text byte for byte |
| HookFiles.InstallThenRemove | src/aictl/hook_removal.py:562-593 | installing hooks in a file without them and removing them, read from the text that was written, restores the file byte for byte when a rule was installed; the file is deleted instead exactly when it has no key of the user's and is a file for hooks only or an empty object |
| HookReinstall.ReinstallThenRemove | src/aictl/hook_removal.py:562-593 | installing hooks in a file that has some and removing them changes nothing but the value of `hooks`, which becomes the dump of what the user had there; when that was nothing, the member goes and the others stay, or the file goes, and exactly when which |
| HookFiles.RemovalContents | src/aictl/hook_removal.py:562-593 | the rules are those of the value that stands under `hooks` in the text, stripped; removal changes that value and no other, or takes that member away, or deletes the file, or does not touch it, and exactly when which |
| HookFiles.HooksAreRead | src/aictl/hook_removal.py:219-233 | what is read under `hooks` is that member's value in the text, stripped |
| HookFiles.NothingToRemove | src/aictl/hook_removal.py:574-576 | a file without a rule of aictl's, or without hooks, is not touched |
| HookFiles.UpdateAll | src/aictl/hook_removal.py:424-428 | the loop over the updates |
| HookFiles.RemoveFromHookFile | src/aictl/hook_removal.py:562-593 | what happens to a hook file: untouched, rewritten, deleted, or not readable, and the count of rules removed |
| SessionMergeKept.TokensAreNotAdded | src/aictl/storage.py:1347-1377 | merged token counts are counts a source gave, never sums: the better source's, or the larger |
| SessionMergeKept.StatsAdd | src/aictl/storage.py:1354-1357 | files, bytes and the activity of every bucket add up |
| SessionMergeKept.IdentityIds | src/aictl/storage.py:1380-1417 | after a merge a profile answers to exactly the ids of both |
| SessionMergeKept.DuplicatesAreMutual | src/aictl/storage.py:1440-1467 | looking like a duplicate is mutual |
| SessionMergeKept.DuplicatesShareProject | src/aictl/storage.py:1440-1467 | duplicates do not conflict in their project, are both ended, overlap by 80 percent and last alike |
| SessionMergeKept.FoldKeeps | src/aictl/storage.py:1347-1417 | folding one profile into another keeps every id reachable once and every sum |
| SessionMergeTheorems.SortSorts | src/aictl/storage.py:3504 | the passes go through a rearrangement of the profiles ordered by start |
| SessionMergeTheorems.EveryIdStaysReachable | src/aictl/storage.py:3490-3627 | every id that went in answers exactly one profile that comes out, and no other id answers any |
| SessionMergeTheorems.CountsAreConserved | src/aictl/storage.py:3490-3627 | files, unique files, bytes, source files and every activity bucket sum to what went in |
| SessionMergeTheorems.AloneIsSingle | src/aictl/storage.py:3490-3503 | profiles with one id each have the UUIDs of one session, as the two theorems below ask |
| SessionMergeTheorems.UuidsStayApart | src/aictl/storage.py:3506-3560 | after the first two passes no profile mixes two UUIDs, each leads with its own, and no two lead with the same |
| SessionMergeTheorems.UuidsStillLead | src/aictl/storage.py:3490-3627 | at the end a profile that answers to an id with a UUID leads with one |
| SessionMergeMethods.Profile.MergeStats | src/aictl/storage.py:1347-1377 | the statistics of another profile merged in place |
| SessionMergeMethods.LargestTokens | src/aictl/storage.py:1368-1371 | the larger of two counts of the same tokens, key by key |
| SessionMergeMethods.AddActivity | src/aictl/storage.py:1374-1377 | the activity of both, bucket by bucket |
| SessionMergeMethods.DistinctOf | src/aictl/storage.py:1401-1404 | each id once, in the order of its first occurrence |
| SessionMergeMethods.Profile.MergeIdentity | src/aictl/storage.py:1387-1417 | primary id, other ids and process id after a merge, in place |
| SessionMergeMethods.Profile.Absorb | src/aictl/storage.py:1420-1437 | interval, statistics and identity of another profile folded in |
| SessionMergeMethods.RunPass0 | src/aictl/storage.py:3506-3522 | the pass over shared UUIDs, with its index |
| SessionMergeMethods.RunInnerA | src/aictl/storage.py:3530-3559 | the inner loop of the second pass, with its swaps and marked ids |
| SessionMergeMethods.RunPassA | src/aictl/storage.py:3524-3560 | the second pass |
| SessionMergeMethods.GroupByPid | src/aictl/storage.py:3570-3576 | the groups by tool and process |
| SessionMergeMethods.RunInnerB | src/aictl/storage.py:3590-3611 | the inner loop of the third pass |
| SessionMergeMethods.RunPassB | src/aictl/storage.py:3578-3625 | the third pass |
| SessionMergeMethods.MergeSessionProfiles | src/aictl/storage.py:3490-3627 | the profiles returned and every record changed in place |
| Sessions.StartIsEarliest | src/aictl/storage.py:3631-3700 | a session keeps the earliest start it was told, in whatever order |
| Sessions.EndIsLatest | src/aictl/storage.py:3631-3700 | rows alone leave the latest end |
| Sessions.OrderDoesNotMatter | src/aictl/storage.py:3631-3700 | the same rows in any order, however often each comes, leave the same start and the same end |
| Sessions.ActivityReopens | src/aictl/storage.py:3784-3905 | activity clears the end, and an end sets it to its own time |
| Sessions.TextIsLast | src/aictl/storage.py:3631-3905 | every text is the last one given that was not empty |
| Sessions.TotalsFallOnlyByRows | src/aictl/storage.py:3631-3905 | a total falls exactly when a row comes with a smaller one that is not zero |
| Sessions.Table.UpdateSessionStats | src/aictl/storage.py:3784-3842 | the row updated or created, every other row as before |
| Sessions.Table.UpdateSessionEnd | src/aictl/storage.py:3844-3905 | the row ended or created, every other row as before |
| CallFactsMerge.ColumnSettles | src/aictl/storage.py:1185-1284 | for every kind of column, a value that a batch leaves alone is settled again after one more merge |
| CallFactsMerge.UpsertAllSettles | src/aictl/storage.py:1185-1284 | after a batch every call of it has a row, keys stay unique, and merging the batch again would change no row |
| CallFactsMerge.UpsertAllRows | src/aictl/storage.py:1185-1284 | every stored row takes what the batch has for it, and the new rows come behind |
| CallFactsTheorems.WhatStays | src/aictl/storage.py:4931-4948 | row by row, what a table of calls holds after merging and dropping |
| CallFactsTheorems.MergeAndDropTwice | src/aictl/storage.py:4835-4869 | merging and dropping twice is doing it once, exactly when no call is merged into a row that is dropped |
| CallFactsTheorems.PromoteDone | src/aictl/storage.py:4876-4897 | after promotion only hook rows have changed, and none left could still take the key of its event |
| CallFactsTheorems.RequestsTwice | src/aictl/storage.py:4836-4948 | the same for requests |
| CallFactsTheorems.ToolsTwice | src/aictl/storage.py:4835-4948 | the same for tool calls, with promotion in front |
| CallFactsEdits.WhoSurvives | src/aictl/storage.py:4899-4928 | which keys have a row after a batch of file edits, exactly |
| CallFactsEdits.EditsTwice | src/aictl/storage.py:4899-4928 | writing the edits twice is writing them once, exactly when no edit is lost with another writer's row |
| CallFactsRuns.WriteTwice | src/aictl/storage.py:4822-4873 | a second write of the same facts changes no table, exactly when no call is merged into a row that goes |
| CallFactsRuns.WriteUnique | src/aictl/storage.py:4822-4873 | keys stay unique in every table |
| CallFactsRuns.SupersededRowsGo | src/aictl/storage.py:4931-4948 | no request of a superseded writer is left up to the newest call read, and every other row is as it was |
| CallFactsRuns.SupersededToolsGo | src/aictl/storage.py:4931-4948 | the same for tool calls, promotion aside |
| CallFactsRuns.TranscriptsKeepTeamRowsOut | src/aictl/storage.py:1170-1182 | once a session has a transcript row, no run of writes and flushes brings a row of the team scan back |
| CallFactsLimits.CallIsLost | src/aictl/storage.py:4931-4948 | a call with an OTel row under its key is lost by the first write and back after the second |
| CallFactsLimits.EditIsLost | src/aictl/storage.py:4899-4928 | an edit merged into a hook's row that a later edit of the batch replaces is lost |
| CallFactsMethods.UpsertMany | src/aictl/storage.py:4836-4866 | one statement over a batch |
| CallFactsMethods.PromoteEvent | src/aictl/storage.py:4890-4896 | the update of the hook rows of one event, conflicts ignored |
| CallFactsMethods.PromoteHookRows | src/aictl/storage.py:4876-4897 | the promotion over sessions and events |
| CallFactsMethods.WriteFileEdits | src/aictl/storage.py:4899-4928 | the loop over the edits |
| CallFactsMethods.NewestCalls | src/aictl/storage.py:4938-4942 | the newest call of every session |
| CallFactsMethods.DropSuperseded | src/aictl/storage.py:4938-4948 | the deletes, session by session, in whatever order |
| CallFactsMethods.Database.WriteCallFacts | src/aictl/storage.py:4822-4873 | the transaction: all of it, or, when any statement or the commit fails, none |
| CallFactsMethods.Database.FlushRequestRows | src/aictl/storage.py:2925-2972 | requests are inserted once, and team rows of covered sessions are not |
| Flush.EveryRowIsAccountedFor | src/aictl/storage.py:2809-3102 | in every run of appends and flushes, the rows that left, committed or dropped, then those in flight, then those pending, are the rows appended, in order |
| Flush.FailBounds | src/aictl/storage.py:3072-3086 | a failed flush leaves no buffer over the cap and drops nothing that fits |
| Flush.CommittedInOrder | src/aictl/storage.py:2809-3102 | without an overflow every row that left was committed |
| Flush.Store.AppendRows | src/aictl/storage.py:2774-2800 | rows join the end of their buffer |
| Flush.Store.TakeAll | src/aictl/storage.py:2811-2823 | a flush takes all six buffers and leaves them empty |
| Flush.Store.GiveBack | src/aictl/storage.py:3069-3086 | the batch goes in front of what came meanwhile, and the oldest rows beyond the cap go |
| Flush.Store.FlushAlone | src/aictl/storage.py:2809-3102 | a flush on its own empties the buffers or, when it fails, restores them up to the cap |
| FlushRows.AssignSeq | src/aictl/storage.py:1521-1534 | the loop numbers each row by the earlier rows with its key |
| FlushRows.NumbersAreDistinct | src/aictl/storage.py:1521-1534 | within a batch no two rows get the same key and number |
| FlushRows.NumbersStay | src/aictl/storage.py:1521-1534 | rows joining a batch behind change no number in it |
| FlushRows.StoredIds | src/aictl/storage.py:2897-2924 | what is stored stays, and the rest is the batch's |
| FlushRows.StoredRow | src/aictl/storage.py:2897-2924 | a row whose key and number were free is stored |
| FlushRows.StoredTwice | src/aictl/storage.py:3066-3068 | writing a batch again changes nothing |
| FlushRows.LostAcrossFlushes | src/aictl/storage.py:2897-2924 | rows whose key an earlier flush has stored are ignored, as many as it stored |
| FlushRows.FilterSnapshots | src/aictl/storage.py:2866-2874 | the snapshots that differ enough from the cache, and the cache afterwards |
| FlushRows.RetryWritesSame | src/aictl/storage.py:2866-2874 | whatever the batch and the cache, the retry of a failed flush writes the snapshots the flush would have written exactly when, for every process, the first of them differs from the last and the rows before the first do not |
| FlushRows.OnceIsNotAgain | src/aictl/storage.py:2866-2874 | a batch that writes one row of some process is never written again as it was |
| FlushRows.FailedSnapshotsAreLost | src/aictl/storage.py:2866-2874 | a failed batch with one snapshot for each process is filtered away whole when it is tried again |
| FlushRows.RetryLosesOne | src/aictl/storage.py:2866-2874 | 10, 50 and 10 percent for one process: the retry loses the first row |
| FlushRows.RetryAddsOne | src/aictl/storage.py:2866-2874 | 10.5 and 50 percent after 10: the retry writes a row that the flush would not have |
| MemorySwap.StepKeeps | src/aictl/memory.py:215-311 | every step keeps each directory under exactly one name and its content as it is |
| MemorySwap.NothingIsLost | src/aictl/memory.py:215-311 | over all interleavings of swaps, recoveries, crashes, failing operations and edits, every directory stands under exactly one name with what was last written into it |
| MemoryCrash.StepUnderway | src/aictl/memory.py:231-311 | what holds at every point of a swap and of its recoveries |
| MemoryCrash.CrashesHeal | src/aictl/memory.py:231-311 | after crashes and failing file operations at any points and one whole recovery, the old memory is active, or it is in its stash with the new one active (missing, or fresh and empty, when there was none), and the marker is gone; there is a third outcome exactly when a recovery whose restore failed removed the marker |
| MemoryCrash.FailedRestoreIsForgotten | src/aictl/memory.py:298-310 | a restore that fails in the recovery is not tried again: the new stash stays, and nothing is active |
| MemoryCrash.RetryIsRight | src/aictl/memory.py:215-263 | the same swap tried again wherever a crash left it puts the old memory under the old name exactly when it was still active, or nothing was active and the new profile had no stash; otherwise the old memory ends in a backup |
| MemoryCrash.RetryMisplaces | src/aictl/memory.py:221-244 | past the stash, with a stash of the new profile there, the new memory goes under the old name, the old one into a backup, and a fresh directory is active |
| MemoryCrash.RetryGoesWrong | src/aictl/memory.py:221-244 | a swap, a crash between its two renames, and the same swap again: the run that gets there |
| MemoryUse.ProfilesRemember | src/aictl/memory.py:215-263 | over crash-free runs, activating a profile yields what it held when last active |
| MemoryUse.OthersDoNotMatter | src/aictl/memory.py:215-263 | a profile's memory is not changed while another is active |
| MemoryUse.Project.RecoverSwap | src/aictl/memory.py:266-311 | the recovery as it runs does the machine's steps |
| MemoryUse.Project.SwapClean | src/aictl/memory.py:232-263 | the swap as it runs does the machine's steps, and reports what it did |
| MemoryUse.Project.SwapMemory | src/aictl/memory.py:215-263 | recovery and swap together |
| SampleSinkTheorems.CachesAreRecent | src/aictl/sink.py:100-118 | after any calls both caches hold the same 10,000 most recently shown metrics in the same order, with the last sample, and the last 120 of the points since the metric last entered the cache |
| SampleSinkTheorems.SuppressionIsBounded | src/aictl/sink.py:368-403 | a suppressed reading is within the shrunken tolerance of the last forwarded one, agrees with it on being zero, and that one is under 300 s old, whatever was evicted or collected |
| SampleSinkTheorems.UnchangedIsUnchanged | src/aictl/sink.py:314-331 | a reading suppressed as unchanged equals the last forwarded one, under 300 s old |
| SampleSinkStored.StoredBound | src/aictl/sink.py:368-403 | the same bound against the last reading stored, when the last one forwarded was let through |
| SampleSinkStored.UnchangedWasStored | src/aictl/sink.py:314-331 | a reading suppressed as unchanged was stored under 300 s ago, on the same condition |
| SampleSinkStored.DroppedIsInTheWay | src/aictl/sink.py:190-196 | whenever flood control drops a reading that was handed on, nothing is stored and the same call again is suppressed |
| SampleSinkStored.FloodHidesReading | src/aictl/sink.py:190-196 | a run in which a full window drops a first reading, its repetition is suppressed, and nothing is ever stored |
| SampleSinkTheorems.FloodAndBuffer | src/aictl/sink.py:169-220 | no window lets more than 5000 through, every sample is counted once, and the accepted ones are, in order, those flushed and those buffered |
| SampleSinkMethods.Collector.SetLatest | src/aictl/sink.py:100-106 | the metric moves to the end with its sample, and the oldest goes when there is one too many |
| SampleSinkMethods.Collector.AppendPoint | src/aictl/sink.py:108-118 | the ring of the metric takes the point, and the least recent metric goes |
| SampleSinkMethods.Collector.SetDedup | src/aictl/sink.py:120-126 | the reading is remembered under its key |
| SampleSinkMethods.Collector.CollectGarbage | src/aictl/sink.py:128-134 | readings older than the limit go, the others stay in order |
| SampleSinkMethods.Collector.Count | src/aictl/sink.py:169-220 | the critical section: window, drop or accept, notices |
| SampleSinkMethods.Collector.Emit | src/aictl/sink.py:138-264 | one emission, with the flush of a full buffer |
| SampleSinkMethods.Collector.EmitIfChanged | src/aictl/sink.py:285-331 | the decision to forward or only to show, and its effect |
| SampleSinkMethods.Collector.EmitWithSensitivity | src/aictl/sink.py:333-403 | the decision by zero crossing, thresholds and age, and its effect |
| SampleSinkMethods.Collector.EmitBatch | src/aictl/sink.py:405-437 | a batch is shown and stored whole |
| SampleSinkMethods.Collector.FlushBuffer | src/aictl/sink.py:488-506 | the buffer is handed over in order and emptied |
| FileStore.NothingDangles | src/aictl/storage.py:6173-6181 | over every run each stored blob reference finds its blob, and each blob stands under the hash of its content |
| FileStore.HistoryRecords | src/aictl/storage.py:5081-5182 | over every run the history answers for every path and time, and the tracked hash is that of the last content |
| FileStore.ContentAtIsLastContent | src/aictl/storage.py:5275-5285 | the content at a time is what the last call at or before it carried |
| FileStore.RetirementForgets | src/aictl/storage.py:6166-6205 | deleting the versions of a range of times keeps every answer or leaves none, exactly when no path keeps a version older than one it loses |
| FileStore.CallersRetireWhole | src/aictl/storage.py:6207-6223 | so it is with a floor at or above the cutoff, or below every version |
| FileStore.ContentAtOrUnknown | src/aictl/storage.py:6166-6205 | over whole runs with such deletions among the calls, the content at a time is what the last call at or before it carried, or unknown |
| FileStore.Database.StoreBlob | src/aictl/storage.py:2636-2644 | the hash, and the blob stored once |
| FileStore.Database.ReplaceVersion | src/aictl/storage.py:5160-5167 | a version replaces the one at its path and time |
| FileStore.Database.UpsertFile | src/aictl/storage.py:5081-5182 | what a call stores, and whether it says the content changed |
| FileStore.Database.RemoveFile | src/aictl/storage.py:5287-5293 | the file is no longer tracked; its history and blobs stay |
| FileStore.Database.FileContentAt | src/aictl/storage.py:5275-5285 | the query over the versions |
| Budget.EvictionIsOrderly | src/aictl/storage.py:6386-6409 | eviction ends at the target or with nothing left that may go; tables lose their oldest rows, in order, only after all text is blanked and earlier tables are exhausted; usage records only when older than seven days |
| Budget.TextsGoOldestFirst | src/aictl/storage.py:6401-6434 | over the whole pass each table loses its oldest texts first, and none while a table before it has text left; while any text is left no row is gone |
| Budget.SecondPassIsIdle | src/aictl/storage.py:6386-6409 | a pass that met its target, with a log that fits beside it, has nothing to do the next time |
| Budget.NothingEvicted | src/aictl/storage.py:6391-6398 | a store under its budget, at once or after its log was truncated, loses nothing |
| Budget.EvictRowsDone | src/aictl/storage.py:6404-6407 | the loop over the tables: exhausted or at the target, in order, oldest first |
| Budget.BlankChunk | src/aictl/storage.py:6431-6434 | one update blanks the oldest rows with text, and counts none only when there is none |
| Budget.RemoveChunk | src/aictl/storage.py:6449-6453 | one delete takes the oldest rows that may go |
| Budget.History.TrimText | src/aictl/storage.py:6423-6441 | the loop over one table's text |
| Budget.History.EvictTable | src/aictl/storage.py:6443-6459 | the loop over one table's rows, which ends |
| Budget.History.EnforceBudget | src/aictl/storage.py:6386-6409 | the whole pass |
| Ledger.CutIsWholeLines | src/aictl/mutation_ledger.py:102-108 | cutting lines anywhere and going on behind the next newline leaves whole lines and costs part of one |
| Ledger.NewestAreHeld | src/aictl/mutation_ledger.py:61-113 | both files hold whole entries: exactly the newest, in order, the older ones in the rotated file; once an entry is gone, that file holds as much as the cap less the longest line |
| Ledger.ReadIsRecorded | src/aictl/mutation_ledger.py:116-134 | what is read back is the lines of the newest entries, as many as fill the cap but for a line; they are those entries exactly when none of them holds a line separator |
| Ledger.SeparatorSplits | src/aictl/mutation_ledger.py:83-127 | an entry with U+2028 in it comes back in two pieces |
| LedgerLines.LinesOfLine | src/aictl/mutation_ledger.py:83-126 | an entry's newline ends its last line and no other line |
| LedgerLines.LinesAreUnbroken | src/aictl/mutation_ledger.py:126 | no line that is read holds a separator |
| LedgerLines.ReadLines | src/aictl/mutation_ledger.py:126-129 | the loop finds the lines, without the empty ones |
| Ledger.SizesAreBounded | src/aictl/mutation_ledger.py:82-113 | the rotated file stays within the cap, and the active one within the cap and an entry, from files of any size |
| Ledger.NothingDroppedYet | src/aictl/mutation_ledger.py:82-87 | while the active file has never been full, every entry is held |
| Ledger.Log.Rotate | src/aictl/mutation_ledger.py:96-113 | the rotated file is the newest whole lines, and the active one is gone |
| Ledger.Log.Record | src/aictl/mutation_ledger.py:61-89 | a mutation is appended, after a rotation when the file is full; a rewrite of identical bytes is not |
| Ledger.Log.ReadAll | src/aictl/mutation_ledger.py:116-134 | the lines of both files, older first, without empty ones |

## Left out

- JSON values: `json.loads` is a parameter. It is taken to accept no comment and no trailing comma, and to read an object member by member.
- JsoncLoads.LoadIs: leaves out byte order marks between tokens, which `json.loads` refuses, and quotes left open in a scalar, which is no JSON.
- Surrogates: `json.dumps` of characters that are half of a surrogate pair; a character of the model is a whole code point.
- HookFiles.InstallThenRemove: takes `json.loads` to read what `json.dumps` wrote for the hooks.
- HookFiles.RemovalContents: takes `hooks` to stand in the file once; `jsonc_set` changes the first member of a name, and a dict has the last.
- Removing folders and renamed copies, links to hook files, and the messages of a removal run.
- Profiles merged by the session query: the activity of a profile is a map from bucket to count, so a list that names a bucket twice is not modelled; the query never makes one.
- Session profiles: fields that no merge reads (branch, commit, model, source) are left out.
- Sessions: linking processes and commits to sessions.
- Call facts: rounding of costs and times before a row is written, and the hash that makes a key for rows without one; a flushed row comes with its key.
- Flush: two flushes at a time are not modelled, and neither is the fallback to an in-memory store after repeated failures.
- MemorySwap.NothingIsLost: two processes, the lock between them, and names taken by a second backup within the same second are not modelled; a step whose backup name is taken does not happen. A profile named like a backup, `P.bak.5` or `_unstashed.5`, shares its directory name with one; the model keeps the two apart.
- Sample sink: handlers, the datapoint log, and readings that are not numbers.
- File store: sizes, token and line counts, time stamps of reads, and the synchronisation from discovery.
- Budget: how sizes come about is not modelled; they are any function of the tables and the logs, and the number of rows changed is not counted.
- Budget.EvictionIsOrderly: rows written by others during the pass are not modelled.
- Retention and downsampling of time series in `compact`, except for what it does to file versions and blobs.
- Ledger: the JSON inside an entry; an entry is bytes without control characters, which `json.dumps` escapes. White space around the lines of a file written by hand is not taken off. A crash between the two file operations of a rotation is not modelled.
- Regular-expression editors of shell profiles and TOML files, scanners for secrets, file system and process discovery, network and user interface.
