# Argo CD Image Updater: models and proofs

This project models the parts of Argo CD Image Updater that carry real algorithms, in Dafny 4.11, and
proves what they promise for all inputs, all schedules or all reachable states. Each module is one
component. `dafny verify dfyconfig.toml` covers them all; every proof is meant to stay within two million
resource units (`--resource-limit 2000000`).

| module | what it models | main results |
|---|---|---|
| `HttpReadSeeker` | the lazy cursor over a remote blob | `Drive`: every sequence of calls refines a seeker over the content in memory |
| `UpdateCycle` | one update cycle: semaphore, WaitGroup, repository mutexes, PR claims, totals | `Safety`, `Conservation`, `Progress`, `Termination`, `Completes` over every schedule |
| `CycleHistory` | the same cycle told by its history alone | `RunsIfLegal`: the schedules are exactly the legal ones; `TotalsOfReturns`, `EveryReturnCounts`, `Excluded`, `OnePullRequest` over schedules |
| `RunOnce` | shutting down after a single pass | `RunsOnce`, `OneRunEach`, `StopsAfterAll` and `CanStop` over every schedule; `NegativeExactlyAfterFailedListing` |
| `HelmValues` | reading and writing keys in a graph of YAML nodes | `GetAfterSet` and `OthersKeep`, both with an exact condition; `SetHelmValue` refines the plan |
| `HelmPaths` | which node of a document a key denotes, by the content of the document | `PathIsResolved`, `LiteralIsResolved`, `WriteGoesThere`, for paths of any length |
| `TextPatch` | replacing values in the lines of a text, one after the other | `ApplyAllRewrites`, `OwnExactlyIfUnshifted`: when every patch hits its own span, exactly, and what the outcome is |
| `HelmPatch` | patching the values in the text instead of the tree | `PatchedText`, `OrderIndependent`, `TreeWritesWhatIsPatched` |
| `TextLayer` | blank-line markers, leading prefix, document-start markers | `DecodeEncode`, `CutAfterEncode`, `ScannersAgree`, all for every text |
| `AuthChallenge` | the WWW-Authenticate parser | `ParseRendered` for every spelling, `PrintParse` |
| `TagChoice` | the orders on tags and the choice of the newest | `LessIsStrictTotal`, `BeforeIsEarlier`, `NewestIsUnique`, `GetNewestVersionFromTags` |
| `ImageRef` | printing and reading image references | `RoundTrip` with an exact condition |
| `Dsse` | the pre-authentication encoding of DSSE v1 | `PAEIsInjective` |
| `HelmParams` | merging Helm parameters, selecting the source, writing an image | `MergeOverrides`, `SameSourceSelected`, `GetAfterSet` with an exact condition |
| `Aliases` | handing live image objects to configured images | `GetImagesAndAliasesFromApplication`: no two images with an alias or a name share an object |
| `UpdateLoop` | the image loop of one application | `UpdateApplication`: verified before set, and what is counted; `KeptIfNewestRuns`: when an image is updated |
| `HelmTargets` | one image of that loop on a Helm application | `FateLater`, `SharedTargetIsLost`: when an image is found already set |
| `HelmRuns` | runs of that loop over images with parameters of their own | `SecondRun`, `SecondState`, `RolloutChangesNothing` |
| `HelmWrites` | what a run leaves of each parameter | `ValueAfterRun`, `PlaceAfterRun`: the last to write it decides |
| `HelmSharing` | runs over any parameters, shared or not | `RunTwice`: when a second run updates nothing, exactly; `SharedFate`, `SharedState` for shared ones |
| `CredentialCache` | credentials cached on a registry endpoint | `Safety` over every schedule |
| `Strings`, `Sequences`, `Options`, `Repositories` | the string operations of the Go library; searching, mapping and concatenation; values that may be missing; finding a live image | |

## How the model is built

- Operations that update objects or arrays are classes and methods with `modifies` clauses. Each is
  proved against functions of the old state, and the theorems are lemmas about those functions.
- A protocol is a state machine: `Enabled` and `Do` give its atomic steps, a schedule is any sequence
  of enabled steps, `Execute` runs it from the initial state, and a theorem holds for every schedule.
- Text is a sequence of characters (Unicode scalar values). Columns, lengths and offsets count
  characters, which for ASCII text is the same as bytes. `HttpReadSeeker` and `Dsse` work on bytes.
- Servers, clocks, registries, signature checks, commits and third-party parsers are parameters: what
  they answer is an argument, constrained only where the source relies on it.
- The YAML document is a set of nodes; `Snapshot` is its value. In `ValidDocument` a node that serves
  as a key is not also a value, an element or the target of an alias. Aliases are otherwise allowed.
- Where a promise fails on some inputs, the lemma states exactly when it holds, and another shows an input on which it does not:
  - `HelmValues.GetAfterSet`: a key written is read back unless a nested path shadows the literal key
    that was written, the literal is no scalar, or a bracketed segment had to be created
    (`CreatedBracketIsLost`).
  - `HelmValues.OthersKeep`: a created path can divert the nested reading of a key that was resolved
    literally (`CreatedPathDiverts`); nothing else is lost.
  - `HelmValues.SetHelmValue`: a call that fails on a bracket without an integer leaves the mappings
    it created before it got there (`FailureLeavesMapping`).
  - `TextPatch.OwnExactlyIfUnshifted`: on one line, a value of another length moves the spans to its
    right, and a later patch may hit something else that reads the same (`SameLineCounterexample`).
  - `TextLayer.DecodeEncode`: a blank last line without a newline (`BlankLastLineIsLost`), and lines that
    end in the marker, do not survive.
  - `TextLayer.ScannersAgree`: the two scanners for the document-start marker differ on a marker
    followed by a carriage return (`CarriageReturnDivides`).
  - `RunOnce.NegativeExactlyAfterFailedListing`: a listing that fails opens the gate all the same, so
    the first run that signs off takes the WaitGroup below zero (`FailedListingCounterexample`).
  - `UpdateCycle.Progress`: with a concurrency of zero the cycle waits for ever unless it is cancelled
    (`ZeroConcurrencyIsStuck`).
  - `AuthChallenge.PrintParse`: an empty value stops the parser, so what follows it is lost
    (`EmptyValueIsLost`).
  - `ImageRef.RoundTrip`: the condition is `Readable` (`UndottedRegistryIsLost`, `PrefixedIsLost`).
  - `HelmParams.GetAfterSet`: the condition is `ReadsBack` (`SharedParameterIsNotReadBack`,
    `DrySourceIsNotReadBack`).
  - `HelmSharing.RunTwice`: images that share a parameter write over each other. Over any targets, also partly
    overlapping ones, a second run updates nothing exactly if `AllWillBeFound`, which goes by who wrote each
    parameter last. If targets are shared as a whole or not at all, that is `AllFound`: each image that is able to be
    updated follows, on its target and around the end of the list, an image shown by the same name. Without kept
    images that means one full name on each target (`FoundIfSameName`); a kept image shows its own name in every run,
    so what matters is whether it is the one before. Two images on the default parameters are both updated in the
    second run (`DefaultsAreFoughtOver`).

## Model

| member | source | states |
|---|---|---|
| `HttpReadSeeker.Add64` | registry-scanner/pkg/registry/internal/client/transport/http_reader.go:119-131 | the wrap-around of 64-bit offsets: exact unless out of range, and a non-negative base turns negative only by a negative or overflowing sum |
| `HttpReadSeeker.HTTPReadSeeker.Reader` | registry-scanner/pkg/registry/internal/client/transport/http_reader.go:169-296 | a stream that opens stands at the reader offset of the content and the size is the content's or unknown; on failure nothing has changed; a server that answers ranges exactly fails only past the end |
| `HttpReadSeeker.HTTPReadSeeker.Reset` | registry-scanner/pkg/registry/internal/client/transport/http_reader.go:159-167 | closes the one open body, or nothing after an error |
| `HttpReadSeeker.HTTPReadSeeker.ReadBody` | registry-scanner/pkg/registry/internal/client/transport/http_reader.go:92-96 | hands out the next bytes of the stream and leaves the rest; the end may be reported with the last bytes or by a further read |
| `HttpReadSeeker.HTTPReadSeeker.OpenAtCursor` | registry-scanner/pkg/registry/internal/client/transport/http_reader.go:75-90 | a stream that does not stand at the cursor is dropped, and the one that is open then does |
| `HttpReadSeeker.HTTPReadSeeker.Read` | registry-scanner/pkg/registry/internal/client/transport/http_reader.go:70-97 | any bytes returned are the content at the cursor, the cursor moves by their number, EOF only at the end, and an exact server pins number and error |
| `HttpReadSeeker.HTTPReadSeeker.Seek` | registry-scanner/pkg/registry/internal/client/transport/http_reader.go:99-140 | moves the cursor as a seeker in memory would, or fails and leaves it; with an exact server it fails only as the seeker in memory would |
| `HttpReadSeeker.HTTPReadSeeker.Close` | registry-scanner/pkg/registry/internal/client/transport/http_reader.go:142-157 | no body is left open, every later call fails, a second close reports the first |
| `HttpReadSeeker.Drive` | registry-scanner/pkg/registry/internal/client/transport/http_reader.go:70-296 | every sequence of Read, Seek and Close on a fresh reader is a run of the seeker in memory, including after failed, negative and undone seeks |
| `HttpReadSeeker.ReadAfterSeek` | registry-scanner/pkg/registry/internal/client/transport/http_reader.go:70-140 | in such a run, what is read after a seek that succeeded is the content at the position it returned, counted from the start or the end as asked |
| `HttpReadSeeker.SeekMeans` | registry-scanner/pkg/registry/internal/client/transport/http_reader.go:113-131 | the seeker in memory counts from the start, the cursor or the end, and refuses negative positions |
| `HttpReadSeeker.EndIsReported` | registry-scanner/pkg/registry/internal/client/transport/http_reader.go:92-96 | a read that finds nothing left reports the end, one that leaves something reports nothing, unless the stream is cut |
| `UpdateCycle.SyncIterationState.MarkPRCreated` | pkg/argocd/types.go:197-205 | true exactly for the first claim of a target, which is then claimed |
| `UpdateCycle.SyncIterationState.GetRepositoryLock` | pkg/argocd/types.go:208-219 | one mutex per repository, new on first use, never replaced, never shared |
| `UpdateCycle.StepOrder` | internal/controller/reconcile.go:65-78 | every step keeps that the main loop has passed exactly the applications that are no longer pending |
| `UpdateCycle.StepCounts` | internal/controller/reconcile.go:58-119 | every step keeps the WaitGroup at the number of applications not signed off and the semaphore at what the running ones leave |
| `UpdateCycle.StepTotals` | internal/controller/reconcile.go:102-109 | every step keeps every counter and the occurrences of every change at the sum over the recorded applications |
| `UpdateCycle.StepLocks` | pkg/argocd/update.go:1202-1209 | every step keeps that repositories have distinct mutexes and that each held one has exactly the holder that is in its section |
| `UpdateCycle.ClaimPR` | pkg/argocd/update.go:1211-1217 | a first claim keeps that applications which opened a pull request have distinct claimed targets |
| `UpdateCycle.StepInv` | internal/controller/reconcile.go:58-119 | every step keeps all of the invariant |
| `UpdateCycle.Safety` | internal/controller/reconcile.go:58-119 | in every state of every schedule: at most the configured number of applications run, no two hold the commit section of one repository, at most one per target goes on to open a pull request |
| `UpdateCycle.Conservation` | internal/controller/reconcile.go:60-124 | the WaitGroup is never negative and zero exactly when every application has run or given up; every counter and the multiset of changes are the sums over the recorded applications; `CycleHistory.TotalsOfReturns` says over which results |
| `UpdateCycle.Progress` | internal/controller/reconcile.go:65-122 | a cycle that is not done can move, exactly if the semaphore admits anyone or the context is cancelled |
| `UpdateCycle.ZeroConcurrencyIsStuck` | internal/controller/reconcile.go:50-71 | with a concurrency of zero a cycle cannot even start |
| `UpdateCycle.Termination` | internal/controller/reconcile.go:60-122 | no schedule has more than ten steps per application and a cancellation |
| `UpdateCycle.Completes` | internal/controller/reconcile.go:60-124 | every schedule can be continued to the end of the cycle |
| `CycleHistory.EnabledIfMay` | internal/controller/reconcile.go:58-119 | a step is enabled exactly if it may follow what has happened: the order of a goroutine's steps, the semaphore, the mutexes and the claims, all by history |
| `CycleHistory.RunsIfLegal` | internal/controller/reconcile.go:58-119 | the schedules of the state machine are exactly those in which every step may follow what has happened |
| `CycleHistory.TotalsOfReturns` | internal/controller/reconcile.go:100-109 | in every schedule every counter, and the occurrences of every change, are the sums of what UpdateApplication returned for the applications recorded in it |
| `CycleHistory.EveryReturnCounts` | internal/controller/reconcile.go:100-124 | at the end these are all results that were returned, and every application returned one unless it could not be started |
| `CycleHistory.Excluded` | pkg/argocd/update.go:1205-1209 | between two locks of one repository by different applications the first unlocks it |
| `CycleHistory.CommitsUnderLock` | pkg/argocd/update.go:1202-1220 | an application that needs the mutex of its repository commits while it holds it |
| `CycleHistory.OnePullRequest` | pkg/argocd/update.go:1211-1217 | no two applications commit with a pull request for one target |
| `CycleHistory.SomeoneCommits` | pkg/argocd/update.go:1211-1219 | at the end one application has committed for every target that was asked for |
| `CycleHistory.CommitsWithoutPullRequest` | pkg/argocd/update.go:1211-1219 | and so has every application that needs no pull request and got that far |
| `RunOnce.StepInv` | internal/controller/imageupdater_controller.go:107-213 | every step keeps who works on what, what the gate lets through, and what has been signed off |
| `RunOnce.RunsOnce` | cmd/run.go:388-438 | if listing succeeds, then for any duplicate events: the WaitGroup is never negative, no resource runs twice, StopChan is closed at most once, and that is possible exactly when every resource has had its run and signed off |
| `RunOnce.OneRunEach` | internal/controller/imageupdater_controller.go:107-213 | in every schedule, events that ran are of different resources, as they arrived |
| `RunOnce.StopsAfterAll` | cmd/run.go:388-438 | if the watcher has closed StopChan, an event of every resource has run and signed off |
| `RunOnce.CanStop` | cmd/run.go:388-438 | whatever has happened, if listing has not failed the pass can be finished and StopChan closed |
| `RunOnce.NegativeExactlyAfterFailedListing` | cmd/run.go:388-402 | the WaitGroup is negative exactly if listing failed and a run has signed off, and StopChan is then never closed |
| `RunOnce.FailedListingCounterexample` | internal/controller/imageupdater_controller.go:107-213 | a schedule on which that happens |
| `HelmValues.SegmentIsPlain` | pkg/argocd/update.go:851-861 | a segment has no index exactly if it has no bracket at its end, no opening one before that, or a newline |
| `HelmValues.SegmentWithBracket` | pkg/argocd/update.go:851-861 | a name, a bracket and an index parse to that name and index, or to an error if the index is no integer |
| `HelmValues.FindHelmValuesKey` | pkg/argocd/update.go:805-812 | the index after the first key of that name |
| `HelmValues.WalkPath` | pkg/argocd/update.go:965-1006 | the loop computes the nested reading of a key |
| `HelmValues.ResolveHelmScalarNode` | pkg/argocd/update.go:945-1021 | the scalar a key denotes: nested path first, literal key second, an error for a bad index |
| `HelmValues.GetHelmValue` | pkg/argocd/update.go:931-937 | the value of that scalar |
| `HelmValues.WalkAndPlan` | pkg/argocd/update.go:845-1006 | reading a path finds a node exactly if writing it overwrites that node |
| `HelmValues.SetPath` | pkg/argocd/update.go:845-924 | the loop realises the plan for a path: overwrites its node, creates the missing rest, or fails and leaves what it had created |
| `HelmValues.SetHelmValue` | pkg/argocd/update.go:825-927 | succeeds exactly if the key is settable; then the document differs by the new text of one node or one new path; otherwise by the mappings created before a bad index, or not at all |
| `HelmValues.FailureChangesNothing` | pkg/argocd/update.go:856-861 | if every bracket holds an integer, a failing call changes nothing |
| `HelmValues.KeepsValid` | pkg/argocd/update.go:825-927 | a successful call keeps the document fit for the next one |
| `HelmValues.GetAfterSet` | pkg/argocd/update.go:825-1021 | the key reads back as the node written, with the value written, exactly if `ReadsBack` |
| `HelmValues.CreatedBracketIsLost` | pkg/argocd/update.go:896-921 | `a[0].b` created in an empty document does not read back |
| `HelmValues.FailureLeavesMapping` | pkg/argocd/update.go:856-861 | setting `a.b[x]` in an empty document fails and leaves a mapping `a` behind |
| `HelmValues.CreatedPathDiverts` | pkg/argocd/update.go:894-924 | creating `a.c` beside a literal key `a.b[x]` makes that key unreadable |
| `HelmValues.OthersKeep` | pkg/argocd/update.go:825-1021 | a key that resolved to another node keeps that node and its text, exactly unless the created path diverts it |
| `HelmValues.FollowReaches` | pkg/argocd/update.go:894-924 | keys followed along a created path reach its end exactly if they are its names and none is bracketed |
| `HelmValues.InPlaceTarget` | pkg/argocd/update.go:1055-1077 | the in-place path patches the node setHelmValue writes, exactly if the readings of the key do not compete |
| `HelmPaths.AtoiOfDecimal` | pkg/argocd/update.go:851-861 | an index written in decimal is read as that number |
| `HelmPaths.PathIsResolved` | pkg/argocd/update.go:945-1006 | a key of any length denotes the scalar its path leads to: first entries of mappings, the indexed elements of sequences, aliases by their targets |
| `HelmPaths.LiteralIsResolved` | pkg/argocd/update.go:1008-1021 | if the path leads nowhere, exactly the scalar that the first entry of that literal name holds |
| `HelmPaths.WriteGoesThere` | pkg/argocd/update.go:825-893 | writing such a key changes the text of the literal entry if there is one, else of the scalar the path leads to, and nothing else |
| `HelmPaths.DifferentKeys` | pkg/argocd/update.go:980-993 | keys that end in different indices into one sequence of different elements denote different nodes |
| `HelmPatch.PatchScalarValue` | pkg/argocd/update.go:1085-1103 | succeeds exactly if the line holds the old value where it was recorded and the new one is safe; then only that span changes, otherwise nothing |
| `HelmPatch.PlainMeans` | pkg/argocd/update.go:1109-1140 | a value is safe exactly if YAML reads it as a string, no older parser as a boolean or null, and it has no indicator, separator or white space where that matters |
| `TextPatch.SpanMoves` | pkg/argocd/update.go:1085-1103 | the span a patch was recorded for lies, among patched text, as far from its recorded column as the patches to its left have changed the length of the line |
| `TextPatch.ApplyAllRewrites` | pkg/argocd/update.go:1072-1077 | patches to disjoint spans that stand still succeed exactly if all hold and are safe, and then replace all spans as if at once |
| `TextPatch.MarksAreHarmless` | pkg/argocd/update.go:1072-1077 | following where every character came from changes nothing |
| `TextPatch.OwnExactlyIfUnshifted` | pkg/argocd/update.go:1072-1103 | every patch replaces exactly the characters it was recorded for, if and only if for each the length changes of the earlier patches to its left on its line add up to zero |
| `TextPatch.RightToLeftStandsStill` | pkg/argocd/update.go:1072-1103 | from right to left, and so on distinct lines, no span moves |
| `TextPatch.SameLineCounterexample` | pkg/argocd/update.go:1085-1103 | in `{a: p, b: b}` a longer first value makes the second patch rename the second key; in the other order both values are replaced |
| `HelmPatch.PatchHelmValuesInPlace` | pkg/argocd/update.go:1055-1078 | all patches applied to the lines of the text, or none |
| `HelmPatch.PatchedText` | pkg/argocd/update.go:1055-1103 | writes to disjoint spans that stand still succeed exactly if every recorded span holds its value and every new value is safe; the lines of the result are those of the text with every span replaced and all else as it was |
| `HelmPatch.OrderIndependent` | pkg/argocd/update.go:1055-1078 | two orders of the same writes have the same outcome if the spans stand still in both, as they always do on distinct lines |
| `HelmPatch.WriteMovesNothing` | pkg/argocd/update.go:1038-1048 | writing an unambiguous key through the tree goes to the node it denotes and moves no key |
| `HelmPatch.TreeWritesWhatIsPatched` | pkg/argocd/update.go:1038-1078 | over any sequence of writes through the tree, each goes to the node the in-place path would have patched |
| `TextLayer.EncodeBlankLines` | pkg/argocd/git.go:602-614 | the loop over the lines computes the encoded text |
| `TextLayer.NoLineIsBlank` | pkg/argocd/git.go:602-614 | no line of the encoded text is blank, so none is lost on the way |
| `TextLayer.SkippableIs` | pkg/argocd/git.go:627-634 | a line is skipped exactly if it is white space or its first other character is a hash or a percent sign |
| `TextLayer.LeadingCommentPrefixLen` | pkg/argocd/git.go:627-643 | the loop computes the length of the leading blank lines, comments and directives |
| `TextLayer.LeadingDocumentStartPrefix` | pkg/argocd/update.go:452-474 | the loop computes the text up to and including the marker line |
| `TextLayer.DecodeEncode` | pkg/argocd/git.go:598-619 | decoding the encoded text gives the text with its blank lines emptied, exactly if it is decodable |
| `TextLayer.RoundTrip` | pkg/argocd/git.go:598-619 | and the text itself when its blank lines are empty |
| `TextLayer.BlankLastLineIsLost` | pkg/argocd/git.go:602-619 | a blank last line without a newline becomes a marker that stays |
| `TextLayer.CutAfterEncode` | pkg/argocd/git.go:455-469 | for every file, cutting the prefix after encoding is encoding after cutting |
| `TextLayer.MarkersAgree` | pkg/argocd/git.go:658-668 | the two tests for a marker line differ exactly on dashes followed by a carriage return |
| `TextLayer.ScannersAgree` | pkg/argocd/update.go:452-474 | for every file, the scanner of update.go finds a marker exactly if that of git.go does and no carriage return follows it, and keeps the same prefix and marker line, ended by a newline |
| `TextLayer.ScannersAgreeWithoutCarriageReturns` | pkg/argocd/update.go:452-474 | without carriage returns they agree outright |
| `TextLayer.CarriageReturnDivides` | pkg/argocd/update.go:452-474 | a marker that ends in a carriage return is one for git.go and none for update.go |
| `TextLayer.RestoreBody` | pkg/argocd/git.go:547-553 | a body handed back unchanged gives the file with its leading lines verbatim and its blank lines emptied, exactly if it is decodable |
| `TextLayer.RestoreMarker` | pkg/argocd/git.go:547-553 | a marker line dropped by the library comes back before the rest, exactly if that is decodable and does not look like a marker |
| `AuthChallenge.SkipSpace` | registry-scanner/pkg/registry/internal/client/auth/challenge/authchallenge.go:181-189 | what follows the white space |
| `AuthChallenge.TokenCharacters` | registry-scanner/pkg/registry/internal/client/auth/challenge/authchallenge.go:14-50 | the characters of tokens are letters, digits and the symbols that section 2.2 of RFC 2616 leaves |
| `AuthChallenge.SpaceCharacters` | registry-scanner/pkg/registry/internal/client/auth/challenge/authchallenge.go:39-46 | white space is a blank, a tab, a carriage return or a line feed |
| `Strings.ToLowerIs` | registry-scanner/pkg/registry/internal/client/auth/challenge/authchallenge.go:152-179 | lower-casing turns every upper-case letter into its lower-case one and leaves the rest |
| `AuthChallenge.ExpectToken` | registry-scanner/pkg/registry/internal/client/auth/challenge/authchallenge.go:191-199 | the longest token and the rest |
| `AuthChallenge.Unescape` | registry-scanner/pkg/registry/internal/client/auth/challenge/authchallenge.go:211-231 | the escape buffer, one shorter than the text, is never overrun and holds the unescaped value at the closing quote |
| `AuthChallenge.ExpectTokenOrQuoted` | registry-scanner/pkg/registry/internal/client/auth/challenge/authchallenge.go:201-234 | a token or the value of a quoted-string, and the rest |
| `AuthChallenge.ParseValueAndParams` | registry-scanner/pkg/registry/internal/client/auth/challenge/authchallenge.go:152-179 | terminates on the shrinking remainder with the scheme and the parameters read |
| `AuthChallenge.QuotedRead` | registry-scanner/pkg/registry/internal/client/auth/challenge/authchallenge.go:201-234 | a quoted-string of section 2.2 of RFC 2616 is read to its closing quote and denotes its unescaped text |
| `AuthChallenge.ParseRendered` | registry-scanner/pkg/registry/internal/client/auth/challenge/authchallenge.go:152-234 | however a challenge is spelled (tokens or quoted-strings, any white space), parsing gives its lower-cased scheme and its parameters up to an empty value |
| `AuthChallenge.PrintParse` | registry-scanner/pkg/registry/internal/client/auth/challenge/authchallenge.go:152-234 | printing a map with lower-case scheme and keys, in any order, and parsing gives them back, exactly if no value is empty |
| `AuthChallenge.EmptyValueIsLost` | registry-scanner/pkg/registry/internal/client/auth/challenge/authchallenge.go:152-179 | a parameter with an empty value is lost |
| `TagChoice.LessIsStrictTotal` | registry-scanner/pkg/tag/semver.go:19-25 | Less is irreflexive and transitive, and of two versions with different originals exactly one is less |
| `TagChoice.SamePrecedence` | registry-scanner/pkg/tag/semver.go:19-25 | precedence (section 11 of Semantic Versioning 2.0.0) ties only versions that differ in build metadata at most |
| `TagChoice.CompareMeans` | registry-scanner/pkg/tag/semver.go:19-25 | the lesser version is the one with the lesser number where they first differ, or the pre-release of the other, or the pre-release whose first different identifier is the lesser number or text, or that is shorter |
| `TagChoice.BeforeIsStrictTotal` | registry-scanner/pkg/tag/tag.go:160-209 | so is the order of each of the three sorts on tags of different names |
| `TagChoice.BeforeIsEarlier` | registry-scanner/pkg/tag/tag.go:160-209 | every sort puts lesser versions, older dates and lesser names first |
| `TagChoice.SortIsUnique` | registry-scanner/pkg/tag/tag.go:160-209 | there is only one sorted arrangement, whatever the order of the map and the sorting algorithm |
| `TagChoice.ImageTagList.Add` | registry-scanner/pkg/tag/tag.go:153-157 | the tag is stored under its name and replaces one of that name |
| `TagChoice.ImageTagList.SortAlphabetically` | registry-scanner/pkg/tag/tag.go:160-169 | exactly the tags of the map, lesser names first |
| `TagChoice.ImageTagList.SortByDate` | registry-scanner/pkg/tag/tag.go:172-185 | exactly the tags of the map, older ones first and then lesser names |
| `TagChoice.ImageTagList.SortBySemVer` | registry-scanner/pkg/tag/tag.go:187-209 | exactly the tags that parse, lesser versions first and then lesser names |
| `TagChoice.LastIsNewest` | registry-scanner/pkg/image/version.go:129-164 | the last of the sorted eligible tags is their maximum |
| `TagChoice.GetNewestVersionFromTags` | registry-scanner/pkg/image/version.go:84-170 | what is chosen meets the constraint, and every other tag that does has a lesser version, an older date or a lesser name, by strategy; none is chosen if none meets it; an error only for an invalid constraint that would be used |
| `TagChoice.NewestIsUnique` | registry-scanner/pkg/image/version.go:84-170 | there is only one such choice, so it does not depend on the iteration order of the map |
| `TagChoice.NewestIsLatest` | registry-scanner/pkg/image/version.go:84-170 | the maximum of the order is the latest, by the numbers of versions, dates and names themselves |
| `ImageRef.FullNameFromParts` | registry-scanner/pkg/image/image.go:91-141 | the full name is the name and the tag with digest around a colon, exactly if there is a tag name |
| `ImageRef.SpelledOut` | registry-scanner/pkg/image/image.go:81-141 | an image that has everything is spelled alias, registry, name, tag and digest with their separators |
| `ImageRef.SpelledShort` | registry-scanner/pkg/image/image.go:81-141 | what is missing is not spelled, but for the tag `latest` of a bare digest |
| `ImageRef.SlugRoundTrip` | registry-scanner/pkg/image/image.go:279-332 | a name and a tag are read back exactly if they can be told apart |
| `ImageRef.PrefixedIsLost` | registry-scanner/pkg/image/image.go:104-123 | an image whose name starts with its registry never reads back |
| `ImageRef.RoundTrip` | registry-scanner/pkg/image/image.go:81-332 | for every image without an equals sign, the fallback parser applied to its string recovers alias, registry, name, tag name and digest, exactly if it is readable |
| `ImageRef.UndottedRegistryIsLost` | registry-scanner/pkg/image/image.go:262-276 | a registry without a dot is read as part of the name |
| `ImageRef.MatchForDigestUpdate` | registry-scanner/pkg/image/image.go:209-242 | the first live image with the tracked tag that is stale, else the first with the tracked tag, else the first stale one |
| `ImageRef.BestMatchIs` | registry-scanner/pkg/image/image.go:186-242 | what is chosen is of the wanted repository, runs the tracked tag if any live image does, and an older digest if any such one does; without a tracked one it runs an older digest |
| `Dsse.ValueOfDecimal` | registry-scanner/pkg/image/verify.go:498-501 | decimal lengths are unambiguous |
| `Dsse.PAEIsRead` | registry-scanner/pkg/image/verify.go:495-501 | the encoding of every payload type and payload can be read back |
| `Dsse.PAEIsInjective` | registry-scanner/pkg/image/verify.go:495-501 | equal encodings have equal payload types and equal payloads |
| `Dsse.PAESpells` | registry-scanner/pkg/image/verify.go:495-505 | the encoding is `DSSEv1`, length and type, length and payload, in decimal and with single spaces |
| `HelmParams.GetOfConcat` | pkg/argocd/argocd.go:834-841 | a lookup finds the first parameter of a name: in two lists joined, that of the first list if it has one |
| `HelmParams.MergeHelmParams` | pkg/argocd/argocd.go:845-873 | the loops build the replaced source list followed by what is missing |
| `HelmParams.MergeOverrides` | pkg/argocd/argocd.go:845-873 | merging overrides one first-match lookup by the other, leaves every unrelated parameter in its place, and appends only merged ones |
| `HelmParams.MergeIsIdempotent` | pkg/argocd/argocd.go:845-873 | merging the same differently named parameters again changes nothing |
| `HelmParams.SelectsByType` | pkg/argocd/argocd.go:1346-1390 | the first source with the block of the application's type is selected, else the first of that status, else one with any block |
| `HelmParams.SelectionIsStable` | pkg/argocd/argocd.go:1346-1390 | giving the selected one of several sources Helm parameters does not change which is selected |
| `HelmParams.SameSourceSelected` | pkg/argocd/argocd.go:1346-1412 | nor does it for a single or hydrated source, nor the type of the application; the parameters are there unless the source was a dry one without a Helm block |
| `HelmParams.Application.SetHelmImage` | pkg/argocd/argocd.go:925-983 | fails exactly for other types of application; otherwise the selected source has the merged parameters |
| `HelmParams.WrittenParameters` | pkg/argocd/argocd.go:925-983 | the name goes to the parameter configured for names or `image.name`, the tag to that for tags or `image.tag`, the full name to an image-spec parameter alone, as strings; no other parameter changes |
| `HelmParams.MultipleIsHelm` | pkg/argocd/argocd.go:1277-1324 | an application with several sources is a Helm application by its first status that is not a directory |
| `HelmParams.SingleIsHelm` | pkg/argocd/argocd.go:1277-1343 | one with a single source by the block of its dry source, or else by its status |
| `HelmParams.TargetDecides` | pkg/argocd/argocd.go:1300-1312 | a write-back target overrides both |
| `HelmParams.GetAfterSet` | pkg/argocd/argocd.go:875-983 | GetHelmImage returns the full name of the image that was set, exactly if it reads back |
| `HelmParams.SharedParameterIsNotReadBack` | pkg/argocd/argocd.go:945-962 | with one parameter for name and tag an image is not read back |
| `HelmParams.DrySourceIsNotReadBack` | pkg/argocd/argocd.go:1396-1409 | nor is one written to a dry source without a Helm block |
| `HelmParams.OthersUnchanged` | pkg/argocd/argocd.go:925-983 | every parameter of another name is found as before, and every other source, whether one of several, the single one or the dry one, is as before |
| `HelmParams.SetIsIdempotent` | pkg/argocd/argocd.go:925-983 | setting the same image to different parameters again changes nothing |
| `Aliases.ContainsImage` | registry-scanner/pkg/image/image.go:169-184 | the first image of the Kustomize override's repository, else of the image's own |
| `Aliases.OverrideFirst` | registry-scanner/pkg/image/image.go:169-184 | a Kustomize override that is live is found before the image's own repository, and of that the first |
| `Aliases.TargetIs` | pkg/argocd/argocd.go:1229-1248 | a live image is held under the configured alias, or its name |
| `Aliases.ForcedIsListedBare` | pkg/argocd/argocd.go:1179-1189 | a forced image that is not live is listed last, without tag and override |
| `Aliases.GetImagesFromApplication` | pkg/argocd/argocd.go:1169-1192 | new, distinct objects for the images of the status and for the forced ones that are not among them |
| `Aliases.ForcedIsLive` | pkg/argocd/argocd.go:1179-1189 | every image whose update is forced is live |
| `Aliases.Match` | pkg/argocd/argocd.go:1228-1251 | a live image is handed over itself only if it had no alias, else as a copy, and nothing else changes |
| `Aliases.GetImagesAndAliasesFromApplication` | pkg/argocd/argocd.go:1219-1254 | the result holds exactly the live configured images in order; each holds its live image under its own alias or its name, in an object that no image had before and that no earlier one holds; only an image with neither alias nor name may find its object taken by a later one; the others keep theirs |
| `UpdateLoop.KeptIfNewestRuns` | pkg/argocd/update.go:216-290 | an image is kept exactly if the newest runs: equal digests if either has one, else equal names, under the digest strategy a digest at all, and with a Kustomize override the configured repository; otherwise it is updated to the newest |
| `UpdateLoop.KeptTagName` | pkg/argocd/update.go:270-283 | it is kept with the digest and name that run, or the tracked name if there is none |
| `UpdateLoop.LatestIfListed` | pkg/argocd/update.go:85-200 | the newest tag is chosen if the tags are listed, at once or after one refusal, with no pull secret of another namespace; anything else is an error |
| `UpdateLoop.LiveImageIs` | pkg/argocd/update.go:63-68 | the live image is the first of the first wanted repository that runs, overrides first |
| `UpdateLoop.LiveOfIs` | pkg/argocd/update.go:201-214 | under the digest strategy it is one of the image's own that runs the tracked tag or an older digest, if there is one |
| `UpdateLoop.FateCounts` | pkg/argocd/update.go:61-290 | which outcomes count as skipped, as errors or not at all |
| `UpdateLoop.RolledOut` | pkg/argocd/update.go:366-379 | once the newest tag runs the image is kept with it, or updated for ever if digests are compared and there is none |
| `UpdateLoop.UpdateApplication` | pkg/argocd/update.go:40-360 | considered images and those not live are all configured ones, and each is counted once, as skipped, as an error, as updated or not at all; every update follows its verification where that is enabled; every image is set as its outlook says and only if that is its fate; the changes are exactly the successful updates, in order, and are committed together; their number is reported unless the commit failed, then zero and one more error |
| `UpdateLoop.Outdated` | pkg/argocd/update.go:216-268 | the branch for an image that needs an update keeps all that the loop promises |
| `UpdateLoop.Keep` | pkg/argocd/update.go:269-289 | so does the branch for one that does not |
| `HelmTargets.ReadElsewhere` | pkg/argocd/argocd.go:875-983 | an image written to other parameters does not change what is read here |
| `HelmTargets.HeldStill` | pkg/argocd/argocd.go:845-983 | an application that holds what setting an image would write still does after another image is written elsewhere |
| `HelmTargets.FateLater` | pkg/argocd/update.go:216-229 | the check for an image already set stops a second update, exactly if the first can be read back; every other image meets its fate again |
| `HelmTargets.SharedTargetIsLost` | pkg/argocd/argocd.go:925-983 | of two images written to one target in turn, the first is found already set exactly if the other has the same full name, and is otherwise updated again or fails its verification |
| `HelmRuns.SecondState` | pkg/argocd/update.go:61-290 | over images with parameters of their own, a second run with the same answers leaves the application as it is |
| `HelmRuns.SecondRun` | pkg/argocd/update.go:61-290 | and gives every image the same fate, but for updates that are found already set |
| `HelmRuns.RolloutChangesNothing` | pkg/argocd/update.go:61-290 | once what a run updated is rolled out, the next run writes the same again and leaves the application as it is |
| `HelmWrites.ValueAfterRun` | pkg/argocd/argocd.go:845-983 | after a run every parameter has the value given to it by the last image that wrote it, or the one it had |
| `HelmWrites.PlaceAfterRun` | pkg/argocd/argocd.go:845-871 | a run leaves every parameter in its place with the value given to its name last, and adds only names that did not occur |
| `HelmSharing.NothingFoundUnset` | pkg/argocd/update.go:216-268 | over any targets, a second run updates nothing exactly if the parameters of every image that is able to be updated, each as written last, make up its full name |
| `HelmSharing.ReadDuringRun` | pkg/argocd/argocd.go:875-918 | over targets shared as a whole or not at all, what is read on a target during a run is the last image that took part on it |
| `HelmSharing.SharedFate` | pkg/argocd/update.go:216-268 | in a second run over such targets an image is found already set exactly if the image before it on its target is shown by the same name, and is updated otherwise |
| `HelmSharing.SharedState` | pkg/argocd/update.go:61-290 | such a second run leaves the application as the first did, even if it updates again |
| `HelmSharing.FoundIfSameName` | pkg/argocd/argocd.go:925-983 | where whatever takes part on a target is shown by its full name and none is kept, all are found already set exactly if those on one target have the same full name |
| `HelmSharing.NamesAreShown` | pkg/argocd/argocd.go:875-983 | that is so if no kept image is on the target of one that is able to be updated |
| `HelmSharing.NamedIsTidy` | pkg/argocd/update.go:269-289 | images whose newest tag has a name fill their target and, when updated, are shown by their full name |
| `HelmSharing.KeptInFull` | pkg/argocd/update.go:270-283 | a kept image is shown by its full name exactly if it is one parameter, the running tag has a name, or the digest strategy tracks one |
| `HelmSharing.RunTwice` | pkg/argocd/update.go:40-290 | the loop run twice on a Helm application: for any targets the second run has no changes exactly if all that can be updated will be found set, and then sets none to a new tag; the condition over the outlooks and targets if targets are shared as a whole, or over what reads back if none are, in which cases the application is left as the first run did |
| `HelmSharing.DefaultsAreFoughtOver` | pkg/argocd/argocd.go:937-944 | two images left on the default parameters are both updated by a second run |
| `CredentialCache.RefusalForcesFetch` | registry-scanner/pkg/registry/registry.go:58-73 | after a refusal of the endpoint's credentials a later call fetches anew |
| `CredentialCache.FreshPairIsUsed` | registry-scanner/pkg/registry/registry.go:213-261 | a usable pair younger than the expiry is returned to callers without a pull secret, without a fetch |
| `CredentialCache.OldPairIsNotUsed` | registry-scanner/pkg/registry/registry.go:213-261 | one as old as the expiry, or any for a pull secret, is not |
| `CredentialCache.RefusalElsewhere` | registry-scanner/pkg/registry/registry.go:58-73 | a refusal of other or expired credentials leaves the cache alone |
| `CredentialCache.StepKeepsCache` | registry-scanner/pkg/registry/registry.go:213-294 | every step keeps the cache empty or of the endpoint's own source |
| `CredentialCache.StepKeepsFlight` | registry-scanner/pkg/registry/registry.go:249-294 | every step keeps what each call has seen fresh enough and from the right source |
| `CredentialCache.StepKeepsCallers` | registry-scanner/pkg/registry/registry.go:231-246 | every step keeps one call at most per source under way, and every caller with a call of its own source |
| `CredentialCache.Safety` | registry-scanner/pkg/registry/registry.go:58-294 | in every run the cached pair is empty or from the endpoint's own source, never from a pull secret; each caller, also one that joins the call of another, gets what its own source gave; with an expiry, a pair from the cache was younger than that when the call checked |
| `CredentialCache.RegistryEndpoint.SetEndpointCredentialsInternal` | registry-scanner/pkg/registry/registry.go:249-294 | returns a usable pair that is young enough whatever the source would give; otherwise what the caller's own source gives, which is cached unless it is a pull secret's; a pull secret leaves the cached pair alone unless it has expired; and the call is one of the state machine's |

## Left out

- Real YAML, JSON, regular expressions and glob patterns, and the marshalling of a document: library code. A node carries its recorded line and column.
- Parsing of semantic versions and their constraints: parameters of the model. Numeric identifiers of pre-releases too large for 64 bits, which the library compares as text, are numbers here.
- The reference parser tried first by NewFromIdentifier: external. Only the fallback is modelled.
- Bytes of text that are not valid UTF-8, and the difference between bytes and characters in columns and lengths.
- HttpReadSeeker.HTTPReadSeeker.Reader: does not model compressed bodies, the `*` total in Content-Range, nor an error handler that returns no error, because the lengths it relies on are then unknown. A response body is a value, of which each read takes as much as it is told.
- The hash behind WriteBackTargetKey is abstract: two targets with one key count as one target.
- Kustomize images and plugin parameters, and Helm blocks beyond their parameters; parsing of write-back targets, of which only what they imply for the source type is kept.
- Aliases.ContainsImage: does not model the check of the version, which no caller asks for.
- HelmValues.SetHelmValue: requires that a document node has content, because the source indexes it without a check.
- UpdateLoop.UpdateApplication: the answers of the registry and of the signature check, and the live images, are inputs. The application is a state with a read and a write function per image, of which only those of Helm applications are modelled, in `HelmTargets`.
- HelmSharing.RunTwice: for targets that overlap in part, or for updates that do not read back on a shared target, what the second run finds is stated exactly, but not that it leaves the application as the first did.
- Reading a file and writing it back by the YAML library in updateKustomizeFile: `RestoreBody` and `RestoreMarker` say what becomes of a body that the library returns.
- Git commands, commits, pull requests, the Kubernetes API, webhooks, TLS, logging, metrics and flags: input and output, or straight-line code.
- Signature cryptography: foreign code; only the bytes that are signed are modelled.
- Two endpoints with one registry address, which share their calls: the model has one endpoint.
