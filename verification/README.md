# Verified core of powdrr-lift

A Dafny model of the algorithms and small protocols at the heart of the repository, with
proofs of what they promise. Each module models one piece of the Python source, in its own
form: code that changes lists, dictionaries, streams or records step by step is a method or a
class proved against a specification function, and the promises are lemmas about that function.

| module | models |
|---|---|
| `LinePatches`, `EditLists`, `DeferredEdits` | validating and applying deferred line edits |
| `SequenceSimilarity`, `FuzzyMatch`, `Sorting` | fuzzy path search: similarity ratio, pruning, accept loop, order of the report |
| `PathWalk`, `WalkCache`, `PathSearch` | the depth-limited directory walk, its cache, and the search as a whole |
| `Numerals`, `ChunkedRelay` | relaying an upstream body in chunked coding (RFC 9112, section 7.1) |
| `LanguageServer`, `SymbolForest` | language server framing, request matching, symbol counting |
| `AttemptLog` | the append-only log of CI repair attempts, with crashes |
| `Pagination`, `ReviewThreads` | nested cursor pagination of review threads and comments |
| `SpanReconciliation`, `SpanCollection` | the change log validator and the diff collector that feeds it |
| `ValidationBudget` | running validation checks under one time budget |
| `OpenQuestions`, `DependencyCandidates`, `PlanningFixture` | event fold, review counts and fixture partition of the planning benchmark |
| `WorkflowRecord` | merging tool calls into a pull request's workflow record |
| `Wrappers` | options, results |

`dafny verify dfyconfig.toml` checks the whole project.

What is supplied from outside: the results of `git`, `gh`, the language server and the
upstream server are arbitrary values or functions (well behaved or not); JSON, YAML and
regular expressions are already decoded; time is a real number that never runs backwards.

## Where the code differs from what one might expect

* Edits that overlap pass validation. `LinePatches.AgreementIffCompatible` gives the exact
  condition, on line ranges and on which texts are empty, under which the in-place loop is the
  simultaneous edit; `DeferredEdits.OverlapGoesWrong` shows a validated request that loses a line.
* Two insertions in front of the same line come out in reverse list order
  (`EditLists.SameLineInsertions`); `EditLists.OrderMattersIff` says exactly when the order of a
  list of edits that do not overlap matters.
* A server-initiated call that happens to use the pending request id is taken for the reply
  (`LanguageServer.OwnReplyIffNoClash`).
* A manifest whose status is literally `running` leaves a finished attempt open, so the next
  invocation reports it as interrupted (`AttemptLog.FinishedAttemptIsTerminal`); and
  invocations must not overlap: two that read the same log collide with their first comments
  (`AttemptLog.StaleSnapshotsCollide`, `AttemptLog.OverlapBeforeStart`), and one that reads it
  while another is at work interrupts a live attempt, whose finish then comes too late
  (`AttemptLog.OverlapAfterStart`).
* Pagination notices a cursor that repeats at once but not a longer cycle
  (`Pagination.CycleNeverReturns`, `Pagination.TwoPageCycle`).
* When upstream fails in the middle of a body with a declared length, the client takes the
  proxy's error response for the missing part of that body (`ChunkedRelay.RelayFresh`).
* The first workflow record is written without removing repetitions, so recording the same run
  a second time may shorten it (`WorkflowRecord.RecordingAgain`).
* An accepted fuzzy match is not always reported with its full score: once the name reaches
  the threshold, a better stem or path is not looked at (`FuzzyMatch.PruningIsSound`).

## Model

| member | source | states |
|---|---|---|
| LinePatches.SortIsStable | src/powdrr_lift/intrinsic_edit.py:132-134 | sorting edits by start line, reversed, loses and invents nothing, puts later lines first and keeps the list order of edits that start at the same line |
| LinePatches.SpliceMeans | src/powdrr_lift/intrinsic_edit.py:137-142 | what a Python slice assignment does: replaces within the list, only inserts when the slice ends before it starts, appends behind the end |
| LinePatches.NeverLonger | src/powdrr_lift/intrinsic_edit.py:131-142 | with Python's clamped slices and any overlaps, descending in-place application never yields more lines than one forward pass over the original |
| LinePatches.CompatibleAgrees | src/powdrr_lift/intrinsic_edit.py:131-142 | if every edit finds its own lines untouched by the ones applied before it, or wipes out the whole rest, the in-place loop gives exactly the forward pass over the original lines |
| LinePatches.AgreementIsCompatible | src/powdrr_lift/intrinsic_edit.py:131-142 | the converse: on a blank file with marked texts, agreement of loop and forward pass forces that condition |
| LinePatches.CopiesDecide | src/powdrr_lift/intrinsic_edit.py:131-142 | agreement on one file of n copies of a line that occurs in no text forces the edits to be compatible |
| LinePatches.AgreementIffCompatible | src/powdrr_lift/intrinsic_edit.py:131-142 | the exact condition for a list of edits in bounds: the loop agrees with the forward pass on every file of n lines iff the edits are compatible, a test on line ranges and on which texts are empty; the converse needs a line that occurs in no text, and otherwise a blank file with marked texts decides |
| EditLists.InPlaceIsSimultaneous | src/powdrr_lift/intrinsic_edit.py:131-142 | the same iff for edit lists in any order, sorted first as the loop does |
| EditLists.SeparateEditsAreSimultaneous | src/powdrr_lift/intrinsic_edit.py:131-142 | when no edit starts inside another's range, the in-place result is the simultaneous edit: each untouched line once and in order, each text at its original position |
| EditLists.LinesAreConserved | src/powdrr_lift/intrinsic_edit.py:137-142 | separate edits: every slice stays in bounds throughout the loop, and the line count changes by lines brought minus lines removed |
| EditLists.OrderMattersIff | src/powdrr_lift/intrinsic_edit.py:132-142 | every permutation of separate edits gives the same lines iff the texts of any two edits that start at the same line may be swapped |
| EditLists.OrderDoesNotMatter | src/powdrr_lift/intrinsic_edit.py:132-142 | every permutation of separate edits with distinct start lines gives the same lines |
| EditLists.SameLineInsertions | src/powdrr_lift/intrinsic_edit.py:132-138 | two insertions at one line: the later one in the list ends up first, and swapping them is harmless iff their texts commute |
| DeferredEdits.EditAccepted | src/powdrr_lift/intrinsic_edit.py:67-89 | an edit passes the checks iff it meets the tool's rules, and then it denotes a patch within the checked file |
| DeferredEdits.RequestAccepted | src/powdrr_lift/intrinsic_edit.py:13-93 | a request is accepted iff there is nothing to do, or it is an edit action all of whose groups name files and have edits, all of them acceptable; its plans are then these groups with exactly these edits, one patch for each |
| DeferredEdits.CheckedPlansFit | src/powdrr_lift/intrinsic_edit.py:54-93 | every group of an accepted request names an existing file and all its edits are within that file's lines |
| DeferredEdits.RewrittenFileByFile | src/powdrr_lift/intrinsic_edit.py:128-143 | each file sees exactly the groups that name it, in request order, each applied to the result of the one before; other files are untouched and no file appears or disappears |
| DeferredEdits.FileNamedOnce | src/powdrr_lift/intrinsic_edit.py:128-143 | what is written to a file named by one group is the simultaneous edit of its lines, for all files of the checked line count, iff the edits are compatible or leave a blank file either way (every line removed, one blank line as the only text, and nothing left in place) |
| DeferredEdits.AppliedPlans | src/powdrr_lift/intrinsic_edit.py:128-143 | the same for checked plans: files they do not name keep their lines, files named once are as intended |
| DeferredEdits.OverlapGoesWrong | src/powdrr_lift/intrinsic_edit.py:67-89 | a request that validates and whose in-place result differs from the simultaneous edit |
| DeferredEdits.Worktree.Validate | src/powdrr_lift/intrinsic_edit.py:49-93 | checks groups and edits in order, the first failure decides, files are only read |
| DeferredEdits.CheckedEdits | src/powdrr_lift/intrinsic_edit.py:67-89 | checks the edits of one group in order and returns their patches or the first failure |
| DeferredEdits.Worktree.ExecuteValidateEdit | src/powdrr_lift/intrinsic_edit.py:96-113 | valid iff the request is acceptable in that sense; changes nothing |
| DeferredEdits.Worktree.ExecuteApplyEdit | src/powdrr_lift/intrinsic_edit.py:116-149 | end to end: a request that is not acceptable leaves every file alone; an acceptable one applies exactly its edits, touches no file it does not name, and leaves a file named by one group with compatible edits holding the simultaneous edit of its lines (one empty line if nothing is left) |
| DeferredEdits.Worktree.RewriteFiles | src/powdrr_lift/intrinsic_edit.py:128-143 | rewrites the files of checked plans one after the other, and no other file |
| DeferredEdits.EditLines | src/powdrr_lift/intrinsic_edit.py:131-142 | the loop of slice assignments computes the descending application of all edits of a file |
| SequenceSimilarity.LongestBlockIsLongest | src/powdrr_lift/fuzzy_match.py:231-235 | no common block without popular characters is longer than the one `SequenceMatcher` picks |
| SequenceSimilarity.ChosenBlock | src/powdrr_lift/fuzzy_match.py:231-235 | the block chosen is the first of the longest common blocks without popular characters, extended on both sides as far as the sequences agree |
| SequenceSimilarity.MatchesAreBlocks | src/powdrr_lift/fuzzy_match.py:231-235 | the matches are the total size of common blocks that follow each other in both sequences, the longest one among them, and no gap between them holds an unpopular character that both sequences have there |
| SequenceSimilarity.PopularMeans | src/powdrr_lift/fuzzy_match.py:232 | a character is popular iff the second sequence has 200 or more and it occurs there more than once and one percent |
| SequenceSimilarity.RatioCounts | src/powdrr_lift/fuzzy_match.py:235 | the ratio times the length of both sequences is twice the matches; it is one for two empty ones |
| SequenceSimilarity.QuickRatioCounts | src/powdrr_lift/fuzzy_match.py:233 | the quick estimate times that length is twice the characters in common |
| SequenceSimilarity.BlocksWithinCommon | src/powdrr_lift/fuzzy_match.py:231-235 | whatever common blocks are picked recursively, their total never exceeds the multiset intersection of the characters |
| SequenceSimilarity.RatioWithinQuickRatio | src/powdrr_lift/fuzzy_match.py:232-235 | the exact ratio never exceeds the quick estimate, both lie between 0 and 1 |
| SequenceSimilarity.FullMatchIsEqual | src/powdrr_lift/fuzzy_match.py:235 | only equal sequences can be matched completely |
| SequenceSimilarity.PerfectRatioIffEqual | src/powdrr_lift/fuzzy_match.py:235 | the ratio is 1 iff the sequences are equal, in spite of the popular-character heuristic |
| FuzzyMatch.JoinedWords | src/powdrr_lift/fuzzy_match.py:238-243 | normalising keeps exactly the word characters, in order, and every token is a non-empty run of them |
| FuzzyMatch.WordsAreRuns | src/powdrr_lift/fuzzy_match.py:242-243 | tokens are the maximal runs of word characters, in the order of the text |
| FuzzyMatch.WordChars | src/powdrr_lift/fuzzy_match.py:243 | word characters are the digits and the small letters a to z |
| FuzzyMatch.WordScoreCounts | src/powdrr_lift/fuzzy_match.py:223-227 | the word score is the share of the distinct query words found in the name; there is none when either side has no words |
| FuzzyMatch.AcceptedMeans | src/powdrr_lift/fuzzy_match.py:56-84 | what is accepted, told without scores: the filters hold, and the name, the stem, the path or the words of the name have the required share in common with the query |
| FuzzyMatch.AcceptedOfConcat | src/powdrr_lift/fuzzy_match.py:56-84 | every path is judged for itself and the order is kept |
| FuzzyMatch.PruningIsSound | src/powdrr_lift/fuzzy_match.py:208-235 | the score with the quick cut and the name-first exit reaches the threshold iff the full score does, never exceeds it, and exactly when an accepted score equals the full one |
| FuzzyMatch.ShortcutsAcceptTheSame | src/powdrr_lift/fuzzy_match.py:56-84 | the pruned search accepts the same paths in the same order as scoring everything exactly |
| FuzzyMatch.AcceptLoop | src/powdrr_lift/fuzzy_match.py:56-84 | the loop keeps exactly the eligible paths that score at least the threshold, in walk order, with their rounded scores |
| FuzzyMatch.FindMatches | src/powdrr_lift/fuzzy_match.py:48-91 | the report holds exactly what the slow search accepts, each candidate as often, with rounded scores that fall along the report and equal ones in the order of their paths |
| PathWalk.WalkPaths | src/powdrr_lift/fuzzy_match.py:172-188 | the top-down loop with in-place pruning lists what the recursive walk lists, sorted by path, and ends |
| PathWalk.WalkIsExact | src/powdrr_lift/fuzzy_match.py:172-188 | a path is in the sorted result iff it is an unpruned directory with mindepth <= depth <= maxdepth or a file with depth <= maxdepth, reached through unpruned directories |
| PathWalk.PrunedNames | src/powdrr_lift/fuzzy_match.py:14-22 | the names of the directories that are not entered |
| PathWalk.EachPathOnce | src/powdrr_lift/fuzzy_match.py:172-188 | in a tree without equal names each of these paths is listed exactly once |
| Sorting.SortSorts | src/powdrr_lift/fuzzy_match.py:86 | sorting loses and invents nothing and leaves everything in order, for any total order |
| Sorting.PathOrderIsTotal | src/powdrr_lift/fuzzy_match.py:188 | paths compared part by part, and parts by character, are totally ordered |
| Sorting.FirstDifference | src/powdrr_lift/fuzzy_match.py:86 | of two different texts the one that ends at the first difference, or has the smaller character there, comes first |
| Sorting.FirstDifferentPart | src/powdrr_lift/fuzzy_match.py:188 | the same for paths and their parts, so that a directory precedes what is in it |
| FuzzyMatch.MatchOrderIsTotal | src/powdrr_lift/fuzzy_match.py:86 | falling score and then path order matches totally |
| WalkCache.PathCache.CachedWalkPaths | src/powdrr_lift/fuzzy_match.py:191-205 | answers from the cache iff the key was asked before, else walks and stores; other entries stay |
| WalkCache.FirstWalkIsKept | src/powdrr_lift/fuzzy_match.py:200-205 | over any session, a key keeps the result of the first walk made for it, whatever happens on disk later |
| WalkCache.CacheIsTransparent | src/powdrr_lift/fuzzy_match.py:200-205 | while the tree is unchanged every cached answer is the uncached one |
| WalkCache.RunCommands | src/powdrr_lift/fuzzy_match.py:191-205 | any run of commands sharing one fresh cache gets the answers of the cache model |
| WalkCache.RunOnUnchangedTree | src/powdrr_lift/fuzzy_match.py:191-205 | on one unchanged tree, a cached session returns the results of the walks themselves |
| PathSearch.Run | src/powdrr_lift/fuzzy_match.py:48-91 | one search through the cache, with all shortcuts, reports in order exactly what walking anew and scoring everything would accept |
| PathSearch.RunSession | src/powdrr_lift/fuzzy_match.py:25-91 | the same for every search of a session that shares one cache on an unchanged tree |
| Numerals.PrintedReadsBack | src/powdrr_lift/openai_proxy.py:206 | a printed number, in base 10 or 16, is a non-empty run of digits that reads back as itself |
| ChunkedRelay.ChunkedRoundTrip | src/powdrr_lift/openai_proxy.py:195-208 | for every split into non-empty reads, an independent decoder of the chunked coding gets their concatenation and consumes exactly the emitted bytes |
| ChunkedRelay.EmptyChunkEndsBody | src/powdrr_lift/openai_proxy.py:197-198 | a chunk written for an empty read would end the body for the client, which is why the loop stops there |
| ChunkedRelay.FramingMeans | src/powdrr_lift/openai_proxy.py:162-165 | no body is relayed for `HEAD` and for status 204 and 304; otherwise a declared length is relayed, and without one the body is chunked |
| ChunkedRelay.CutBodyNeverDecodes | src/powdrr_lift/openai_proxy.py:195-208 | a chunked wire cut short at any byte never decodes, so a client always notices |
| ChunkedRelay.UnfinishedNeverDecodes | src/powdrr_lift/openai_proxy.py:109-111 | chunks without the last one never decode, also when an error response follows them |
| ChunkedRelay.Handler.WriteChunk | src/powdrr_lift/openai_proxy.py:205-208 | appends size line, data and line end of one chunk to what was written |
| ChunkedRelay.Handler.RelayUpstreamResponse | src/powdrr_lift/openai_proxy.py:161-203 | nothing is written for a bodyless response; otherwise the returned body is the reads up to the first empty or failing one and the wire holds it plain or chunked, without a last chunk after a failure |
| ChunkedRelay.Handler.SendProxyError | src/powdrr_lift/openai_proxy.py:210-224 | appends a whole error response to what was written and returns its payload |
| ChunkedRelay.Handler.ProxyRequest | src/powdrr_lift/openai_proxy.py:95-111 | after a failing read an error response follows the unfinished body and its payload is what gets recorded; otherwise the relayed body is |
| ChunkedRelay.RelayFresh | src/powdrr_lift/openai_proxy.py:95-208 | without a failing read the client decodes exactly the recorded body and stands at the end of the wire, with a declared length iff upstream delivered that much; after one it cannot decode a chunked body, and with a declared length takes the error response for the rest of the body |
| LanguageServer.FrameReads | src/powdrr_lift/basedpyright_tools.py:503-536 | reading a conforming frame, further header lines included, gives its payload and leaves exactly what follows |
| LanguageServer.OwnFrameReads | src/powdrr_lift/basedpyright_tools.py:492-501 | what `_write` sends is such a frame |
| LanguageServer.FramesReadBack | src/powdrr_lift/basedpyright_tools.py:503-536 | any concatenation of frames reads back as the payloads in order, consuming exactly their bytes |
| LanguageServer.CutFrameFails | src/powdrr_lift/basedpyright_tools.py:503-536 | a conforming frame, further header lines included, that is cut short anywhere is never taken for a message |
| LanguageServer.CutOwnFrameFails | src/powdrr_lift/basedpyright_tools.py:492-532 | the same for the frames this side writes |
| LanguageServer.CutStreamFails | src/powdrr_lift/basedpyright_tools.py:503-536 | a stream cut short anywhere reads as its whole frames and then as an error |
| LanguageServer.CutOutputIsLost | src/powdrr_lift/basedpyright_tools.py:479-532 | when the output ends or breaks off before a message with the id, the request fails after the whole messages before that |
| LanguageServer.NamedInAnyCase | src/powdrr_lift/basedpyright_tools.py:523-524 | the length header is known by its name in any mixture of cases, and no other line is taken for it |
| LanguageServer.LengthValueOf | src/powdrr_lift/basedpyright_tools.py:525 | a length may be padded and signed and reads as the number its digits stand for |
| LanguageServer.Underscores | src/powdrr_lift/basedpyright_tools.py:525 | single underscores between digits are passed over, others make the length no number |
| LanguageServer.OtherByteIsNoNumber | src/powdrr_lift/basedpyright_tools.py:525 | so does any other byte that is no digit |
| LanguageServer.LastLengthWins | src/powdrr_lift/basedpyright_tools.py:524-525 | of two lengths the later one counts |
| LanguageServer.NoLengthFails | src/powdrr_lift/basedpyright_tools.py:526-529 | a message without a length is an error, whatever other headers it has |
| LanguageServer.PayloadMeans | src/powdrr_lift/basedpyright_tools.py:530-532 | too few bytes are an error, and so is a negative length |
| LanguageServer.MessageMeans | src/powdrr_lift/basedpyright_tools.py:533-536 | a payload that is no JSON or no object is an error, and otherwise the message |
| LanguageServer.FirstWithIdIsTaken | src/powdrr_lift/basedpyright_tools.py:479-487 | `request` takes the first message that carries its id, drops those before it and leaves those after it unread; the reply is that message's error if it has one and else its result |
| LanguageServer.OwnReplyIffNoClash | src/powdrr_lift/basedpyright_tools.py:479-487 | `request` gets its own reply iff no earlier message of the server, such as a call of its own, carries the same id |
| LanguageServer.SessionStaysInStep | src/powdrr_lift/basedpyright_tools.py:473-487 | over a session of any number of requests each gets its own reply and nothing is read too far |
| LanguageServer.Connection.Write | src/powdrr_lift/basedpyright_tools.py:492-501 | appends one frame with the payload's length to the server's input |
| LanguageServer.Connection.ReadOne | src/powdrr_lift/basedpyright_tools.py:503-536 | the header loop and the payload read give the message or the error of the reference reader and consume the same bytes |
| LanguageServer.Connection.Request | src/powdrr_lift/basedpyright_tools.py:473-487 | uses a fresh id, writes one frame, and returns the error or the result of the first message with that id, leaving the rest unread |
| LanguageServer.Connection.Notify | src/powdrr_lift/basedpyright_tools.py:489-490 | writes one frame and reads nothing |
| SymbolForest.DocumentSymbolCount | src/powdrr_lift/basedpyright_tools.py:581-592 | the worklist loop ends on every symbol forest with the recursive count of object nodes |
| SymbolForest.PositionsWithinCount | src/powdrr_lift/basedpyright_tools.py:257-286 | the position list is never longer than that count, and as long iff every object has a usable position |
| SymbolForest.PositionsInOrder | src/powdrr_lift/basedpyright_tools.py:257-286 | positions come symbol by symbol in order |
| SymbolForest.PositionsOfSymbol | src/powdrr_lift/basedpyright_tools.py:261-286 | a symbol gives its own usable start, if any, and then those of its children |
| AttemptLog.ScanDescribes | src/powdrr_lift/cli.py:3274-3288 | on an orderly log the scan finds attempts 1 to n in order, and at most the last is running |
| AttemptLog.ScanFinds | src/powdrr_lift/cli.py:3274-3288 | on any log the scan holds every recorded attempt once, with the last status recorded for it |
| AttemptLog.PostsOnAnyLog | src/powdrr_lift/cli.py:3289-3326 | on any log an invocation interrupts exactly the attempts last recorded as `running` and starts one numbered one above all recorded ones |
| AttemptLog.PostsOnOrderlyLog | src/powdrr_lift/cli.py:3289-3326 | an invocation interrupts at most the latest attempt, and only if it is running, and starts attempt n + 1 |
| AttemptLog.InvocationKeepsOrder | src/powdrr_lift/cli.py:3289-3430 | a whole invocation leaves the log orderly with its attempt started once and closed once |
| AttemptLog.ReachableIsOrderly | src/powdrr_lift/cli.py:3268-3430 | in every run of invocations, crashes between any two posts and comments of others, the log stays orderly |
| AttemptLog.LogIsSafe | src/powdrr_lift/cli.py:3268-3430 | in every reachable state attempts are 1..n, each started once and in order; at most n is running; when an attempt starts, all earlier ones are closed, and none of them is written again |
| AttemptLog.FinishedAttemptIsTerminal | src/powdrr_lift/cli.py:3391-3430 | an undisturbed invocation records `failed` if the task raised, the manifest's status if there is one, and else `completed` or `failed` by the exit code; its attempt is closed iff that status is not `running` |
| AttemptLog.StaleSnapshotsCollide | src/powdrr_lift/cli.py:3268-3430 | two invocations that read the same log leave it in order iff one of them posts nothing, however their comments interleave and wherever they die |
| AttemptLog.OverlapBeforeStart | src/powdrr_lift/cli.py:3268-3430 | the same iff when the second reads the log before the first has started its attempt |
| AttemptLog.OverlapAfterStart | src/powdrr_lift/cli.py:3268-3430 | when the second reads the log while the first one's attempt is running, the log stays in order iff the second posts nothing, the first posts no finish, or that finish comes in before all of the second's comments and leaves the attempt running |
| AttemptLog.Issue.AddComment | src/powdrr_lift/cli.py:3303-3309 | a comment is appended, or the process has died and nothing changes |
| AttemptLog.Issue.AddComments | src/powdrr_lift/cli.py:3289-3309 | a list of comments is appended up to the point of death |
| AttemptLog.Issue.Launch | src/powdrr_lift/cli.py:3268-3430 | one invocation posts exactly its planned comments, or a prefix of them when it dies, and keeps an orderly log orderly |
| Pagination.CompleteIffChain | src/powdrr_lift/intrinsic_git_gh.py:217-321 | a complete result is returned iff the server offers a finite chain of good pages, and it holds the nodes of all of them in page order |
| Pagination.GivesUpIffBreak | src/powdrr_lift/intrinsic_git_gh.py:228-320 | a failure code is returned iff good pages lead to a response that is bad or does not advance the cursor, with that code |
| Pagination.JudgeMeans | src/powdrr_lift/intrinsic_git_gh.py:228-321 | which responses stop the loop and with which code, which end it and where it goes on, told from the response: a failed process with its own code, anything unreadable and any cursor that is missing, empty or repeated with code 1 |
| Pagination.ObjectsOfConcat | src/powdrr_lift/intrinsic_git_gh.py:308 | nodes that are no objects are dropped and the others kept in order |
| Pagination.ResultIsUnique | src/powdrr_lift/intrinsic_git_gh.py:217-321 | the result does not depend on how long one is prepared to wait |
| Pagination.CycleNeverReturns | src/powdrr_lift/intrinsic_git_gh.py:217-321 | the loop never returns iff its cursor lies in a set of cursors, finite or not, whose pages all point on into the set, as only an immediately repeated cursor is noticed |
| Pagination.TwoPageCycle | src/powdrr_lift/intrinsic_git_gh.py:312 | two pages naming each other are such a set |
| ReviewThreads.FetchThreads | src/powdrr_lift/intrinsic_git_gh.py:217-321 | the outer loop returns the threads of all pages, or the failure code, with the pull request as the first page describes it |
| ReviewThreads.FetchComments | src/powdrr_lift/intrinsic_git_gh.py:355-445 | the inner loop returns the remaining comments of a thread and its last page, or the failure code |
| ReviewThreads.CompleteThread | src/powdrr_lift/intrinsic_git_gh.py:322-445 | success makes the thread whole; failure means the thread really is unreadable or its pages break |
| ReviewThreads.UnreadableMeans | src/powdrr_lift/intrinsic_git_gh.py:322-364 | which threads are refused before any page of comments is fetched |
| ReviewThreads.AsksForThread | src/powdrr_lift/intrinsic_git_gh.py:365-374 | comments are asked for by the id of their own thread at the cursor reached |
| ReviewThreads.CompleteThreads | src/powdrr_lift/intrinsic_git_gh.py:322-445 | all threads are completed in order, or the first one that is broken decides; threads behind it are not read |
| ReviewThreads.WholeHasAllComments | src/powdrr_lift/intrinsic_git_gh.py:429-434 | a whole thread keeps its id and its own comments in front, followed in page order by those of a chain of further pages, and its page information is that of the last page, which says none is left |
| ReviewThreads.ExecuteReviewThreads | src/powdrr_lift/intrinsic_git_gh.py:210-453 | code 0 means every thread in page order, each with all its comments in page order; any other code means something really is wrong with that code; a full answer on offer is returned |
| ReviewThreads.AnswerIsExact | src/powdrr_lift/intrinsic_git_gh.py:210-453 | there is at most one full answer, and where there is one no failure is possible, so both outcomes are exact |
| ReviewThreads.EndsIffAnswered | src/powdrr_lift/intrinsic_git_gh.py:210-453 | the loops end within some bound iff there is a full answer or a real failure |
| SpanReconciliation.GroupsAreEntries | src/powdrr_lift/change_log_validation.py:391-415 | grouping by path keeps for each path exactly its entries in order, each path once |
| SpanReconciliation.InvalidMeans | src/powdrr_lift/change_log_validation.py:802-806 | a proposal is invalid iff a line is missing or it ends before it starts |
| SpanReconciliation.ReconcileFile | src/powdrr_lift/change_log_validation.py:795-850 | for one file the reports are exactly the two multiset differences of spans, and each invalid proposal once |
| SpanReconciliation.ReportedNothingIffAgrees | src/powdrr_lift/change_log_validation.py:795-850 | a file gets no report iff all its proposals are valid and the two span multisets are equal |
| SpanReconciliation.ReportsBalance | src/powdrr_lift/change_log_validation.py:824-850 | per file, missing minus unexpected equals expected minus validly proposed |
| SpanReconciliation.ReconcileExpected | src/powdrr_lift/change_log_validation.py:795-850 | the loop over expected files reports on each of them exactly, and on no other file |
| SpanReconciliation.UnexpectedFiles | src/powdrr_lift/change_log_validation.py:852-864 | exactly the proposed regular files outside the diff are reported, each once |
| SpanReconciliation.Reconcile | src/powdrr_lift/change_log_validation.py:788-864 | no issue iff every expected file agrees and no other regular file is proposed; otherwise exactly the differences are reported, about expected files only, and every other file once |
| SpanCollection.CollectFileSpans | src/powdrr_lift/change_log_template.py:453-492 | the spans of a file's hunks in order: new lines, else removed old lines, else nothing; an absent count is one |
| SpanCollection.HunkLines | src/powdrr_lift/change_log_template.py:479-487 | the lines of a hunk by its written counts: an absent count is one line; with no new lines the removed ones are listed; only two zeros list nothing |
| SpanCollection.SpansOfHunks | src/powdrr_lift/change_log_template.py:474-492 | a span is listed for a file iff one of its hunks yields it |
| SpanCollection.SpansInOrder | src/powdrr_lift/change_log_template.py:474-492 | spans come hunk by hunk in order |
| SpanCollection.CollectBranchDiffEntries | src/powdrr_lift/change_log_template.py:403-450 | entries of all lines that are neither pure renames or copies nor artifacts; every span has start <= end |
| SpanCollection.CollectedIff | src/powdrr_lift/change_log_template.py:415-450 | an entry is collected iff a change other than a pure rename or copy names its path, which is no artifact, and a hunk of that file has its lines |
| SpanCollection.CollectedInOrder | src/powdrr_lift/change_log_template.py:415-450 | entries come change by change in order |
| SpanCollection.CollectedOfChange | src/powdrr_lift/change_log_template.py:415-450 | a pure rename or copy and an artifact give no entries, any other change the spans of its file |
| SpanCollection.CopiedChangeLogIsClean | src/powdrr_lift/change_log_validation.py:788-864 | a change log that copies the collected entries in any order reconciles cleanly iff no regular entry has an empty path |
| SpanCollection.GenerateAndValidate | src/powdrr_lift/change_log_template.py:403-450 | collecting, copying and validating in one go reports nothing under that condition, and only then |
| ValidationBudget.BudgetHolds | src/powdrr_lift/agent_bootstrap.py:662-763 | commands run one at a time, none starts at or after the deadline, each is granted the smaller of timeout and time left, all have returned by deadline plus cleanup; the run itself ends by deadline plus cleanup when no time passes between commands, and otherwise at most that much later |
| ValidationBudget.AfterDeadline | src/powdrr_lift/agent_bootstrap.py:680-690 | once the deadline has passed no command starts any more and every remaining check times out or is blocked |
| ValidationBudget.OutcomeOfCheck | src/powdrr_lift/agent_bootstrap.py:680-746 | for each of the four statuses exactly when a check gets it: passed and failed by the return code, timed out by the command or the deadline, blocked by its directory, its command or a missing tool |
| ValidationBudget.ApplicableMeans | src/powdrr_lift/agent_bootstrap.py:649-655 | an entry is applicable unless it is no object, has no applicability, or that says `local` is false |
| ValidationBudget.ApplicableInOrder | src/powdrr_lift/agent_bootstrap.py:649-655 | the applicable checks keep their order and number |
| ValidationBudget.BudgetIsHalfAnHour | src/powdrr_lift/agent_bootstrap.py:37 | the budget is 1800 seconds |
| ValidationBudget.PrefixOfRun | src/powdrr_lift/agent_bootstrap.py:664-762 | later checks do not change the outcomes of earlier ones |
| ValidationBudget.VerdictIsWorst | src/powdrr_lift/agent_bootstrap.py:765-772 | the verdict is the worst status that occurred in the order timed out, failed, blocked; it is passed iff all passed |
| ValidationBudget.RunCheck | src/powdrr_lift/agent_bootstrap.py:665-762 | one turn of the loop gives its check exactly one status and stores it in both places |
| ValidationBudget.RunNext | src/powdrr_lift/agent_bootstrap.py:664-763 | one turn of the loop leaves what the other checks hold |
| ValidationBudget.RunChecks | src/powdrr_lift/agent_bootstrap.py:662-763 | one status per check in order, each check holding the status of its last turn |
| ValidationBudget.RunValidationBaseline | src/powdrr_lift/agent_bootstrap.py:636-773 | exactly the applicable checks are run and written to, and the verdict folds their statuses |
| OpenQuestions.UnresolvedQuestions | scripts/benchmark_planning_scale.py:436-469 | the dictionary loop computes the fold of the events |
| OpenQuestions.FoldListsOpenQuestions | scripts/benchmark_planning_scale.py:436-469 | the output holds exactly the questions whose last relevant event asks for an answer, once each, with that event's data |
| OpenQuestions.FoldKeepsOrder | scripts/benchmark_planning_scale.py:449-469 | they are listed in the order in which they became open; asking again keeps the place |
| DependencyCandidates.Summarize | scripts/benchmark_planning_scale.py:341-401 | rejects differing lengths and unknown outputs and nothing else; otherwise every row and every total counts exactly its pairs |
| DependencyCandidates.CountsAreConserved | scripts/benchmark_planning_scale.py:365-401 | required + independent = answered and answered + pending = candidates, in the totals and in each row, and every column adds up to its total |
| DependencyCandidates.RepeatedOutputIsEmpty | scripts/benchmark_planning_scale.py:350-363 | an output listed again shares the first ordinal and gets no candidates at its own row |
| DependencyCandidates.Ordinals | scripts/benchmark_planning_scale.py:350-354 | every output is mapped to the place where it is listed first |
| PlanningFixture.FourDigitsReadBack | scripts/benchmark_planning_scale.py:767-781 | zero-padded numerals read back as their number |
| PlanningFixture.FourDigitsWide | scripts/benchmark_planning_scale.py:767-781 | the numerals have at least four digits, exactly four below ten thousand, and no leading zero above |
| PlanningFixture.FourDigitsAreNames | scripts/benchmark_planning_scale.py:767-781 | different numbers have different padded numerals, also beyond four digits |
| PlanningFixture.PlannedPaths | scripts/benchmark_planning_scale.py:767-781 | the loop over groups lists the planned paths of all groups in order |
| PlanningFixture.PathsAreDistinct | scripts/benchmark_planning_scale.py:767-781 | no path is planned twice |
| PlanningFixture.IdsAreDistinct | scripts/benchmark_planning_scale.py:678-687 | no two requirements share an id |
| PlanningFixture.GroupReadsBack | scripts/benchmark_planning_scale.py:687 | the group computed from the digits of an id is the group the requirement belongs to |
| PlanningFixture.FirstGroupsAreSplit | scripts/benchmark_planning_scale.py:687-694 | the first groups are split in two pairs, as many as there are extra units, the others are one unit |
| PlanningFixture.UnitsCover | scripts/benchmark_planning_scale.py:678-723 | from any group on, the proposed units cover the remaining requirement ids once and in order and write the planned paths |
| PlanningFixture.ProposalsMatchPlan | scripts/benchmark_planning_scale.py:678-723 | over all groups the proposals cover every requirement id once, write exactly the planned paths in order, and make exactly the wanted number of units iff it lies between one and two per group |
| WorkflowRecord.UniqueMappings | src/powdrr_lift/pr_workflow_record.py:153-165 | the loop with its set of seen signatures computes the merged list |
| WorkflowRecord.UniqueKeepsAll | src/powdrr_lift/pr_workflow_record.py:153-165 | the merged list has no repeated signature and misses no call |
| WorkflowRecord.UniqueExtends | src/powdrr_lift/pr_workflow_record.py:61-68 | merging further calls keeps what was there in front, in order, and adds nothing if all signatures are known |
| WorkflowRecord.UniqueOfCalls | src/powdrr_lift/pr_workflow_record.py:153-165 | a list of calls is left as it is iff it has no repetition |
| WorkflowRecord.NothingIsLost | src/powdrr_lift/pr_workflow_record.py:61-68 | after merging, the earlier calls without their repetitions stay in front in order, and every call of the new run is there by its signature |
| WorkflowRecord.RecordingAgain | src/powdrr_lift/pr_workflow_record.py:61-68 | recording the same run once more changes nothing iff the record was merged already or the calls were distinct, and from then on never does |
| WorkflowRecord.RecordFile.Record | src/powdrr_lift/pr_workflow_record.py:61-69 | the record is replaced by the merged calls, or by the calls as they come when there was none |

## Left out

- ReviewThreads.ExecuteReviewThreads: the connections that are read are assumed to end within some bound, because the code itself does not return on an endless chain of new cursors; `ReviewThreads.EndsIffAnswered` says exactly when there is such a bound.
- LinePatches.AgreementIffCompatible: where every possible line occurs in some text, the converse is about a blank file and marked texts of the same shape; for lines of text a line that occurs nowhere always exists.
- FuzzyMatch.FindMatches: rounding to four digits is an arbitrary function, and scores are reals.
- PathWalk.WalkPaths: directories are plain trees without links; a search root that does not exist or is no directory is not modelled.
- PlanningFixture.ProposalsMatchPlan: ids and paths are told apart by their digits, the fixed text around these being the same for all; the number of requirements is a multiple of four, as in every profile of the fixture; a remainder belongs to no group.
- AttemptLog.Issue.Launch: a checkpoint comment equal to one that existed before is skipped by the code and always posted here; neither is read by the scan.
- SequenceSimilarity.PerfectRatioIffEqual: Python's `difflib` is not part of the repository; it is modelled from its documented algorithm, automatic junk heuristic included, over exact reals.
- LanguageServer.Connection.ReadOne: missing process pipes and the stderr text of error messages.
- Decoding of JSON, YAML, diff output and regular expressions, Unicode case folding and `splitlines`: the models start from decoded values and line lists.
- File modes, symlink checks and the text of error messages of deferred edits; path resolution is a function of the name.
- Process execution, output digests, environment filtering and the phrases that mark a missing tool.
- Request side of the proxy, its path prefix helpers, header filtering and exchange record; of the error response only its first bytes and its payload matter.
- Argument parsing, printing, the blame viewer and the packages that the repository imports but does not contain.
