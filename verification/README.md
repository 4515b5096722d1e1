# Verified models of the algorithms in chrome/base

This project models the parts of `chrome/base` that hold algorithms of their own, and proves
what their comments, assertions and unit tests promise.

| files | what they model |
|---|---|
| `FileDescriptorShuffle.dfy` | the parallel move of file descriptors: arcs rewritten in place, temporaries, close flags |
| `ConditionVariableLists.dfy`, `ConditionVariableWin.dfy`, `ConditionVariableProtocol.dfy`, `ConditionVariableWakeups.dfy` | the Windows condition variable: its two event lists as values, as linked objects in the heap, as a protocol between any number of threads, and when that wakes a thread spuriously |
| `Powers.dfy`, `HistogramLayout.dfy`, `Histogram.dfy`, `HistogramExamples.dfy` | histograms: exponential and linear bucket layouts, binary search, accumulation; the examples of the unit tests |
| `PathStrings.dfy`, `FilePath.dfy`, `FilePathExamples.dfy` | the path algebra, as configured for POSIX; examples of the unit tests |
| `FileTrees.dfy`, `DirectoryStacks.dfy`, `EnumerationOrder.dfy`, `FileEnumerator.dfy`, `RecursiveDelete.dfy` | the recursive file enumerator over a finite tree: its stack of directories, the orders it can produce, its methods; and recursive deletion with it |
| `AtomicOps.dfy` | the ARM retry loops around a compare-exchange, their sequence number and reference count clients |
| `PackBytes.dfy`, `DataPack.dfy` | the resource pack writer and reader |
| `FieldTrial.dfy`, `FieldTrialList.dfy`, `FieldTrialExamples.dfy` | choosing a group by a random value, and carrying the choices to another process; examples of the unit tests |
| `Prelude.dfy` | shared definitions |

`dafny verify dfyconfig.toml` checks everything.

How the code's world appears here:

- Delegates and the file system are classes whose calls may fail at any time and then change
  nothing. The delegate records failures in `failed`; a `reliable` delegate fails only for descriptors
  that are not open, and a `reliable` file system only for a reason in the tree. A fresh descriptor is one that
  is not open, and not one of those that the delegate knows as `named`: all that the arcs name, as the interface
  asks, or none, as with `dup`.
- Concurrency is a machine whose steps are the atomic sections of the code: one section under the
  internal lock, one `SetEvent`, the end of one wait; or one access to the shared cell. Theorems
  about runs hold for every finite sequence of steps, that is for every interleaving. A wait may
  time out at any moment, and a compare-exchange may fail at any moment.
- Counters and sums are unbounded integers, except where wrap-around is part of the behaviour: the
  cell of the atomic operations wraps in 32 bits, and so do the words and the bounds check of a pack
  file. A size in a pack file is computed in a `size_t` wide enough not to wrap.
- The exact real root stands for the floating-point logarithm and exponential of the exponential
  layout. It is characterized by integer powers (`NearestRootIsRounding` says why that is the rounded
  root), so that the layout is computed without reals.
- Random values, the delegate's choice of descriptors, the order of a directory listing, and the
  order in which a registry is enumerated are arbitrary.

What an operation does is said twice: by the function that its method refines, and in plain terms, in the
contract of the method or in a lemma, without that function (`…SpelledOut`, and the lemmas on a value found,
stored or returned). Literal cases, mostly those of the unit tests, fix constants and formats.

Where the code and what is said about it disagree, the model follows the code:

- An identity arc followed by another reader of its source, one of the two being close-flagged, loses
  its dest (`DeliversIffNothingClobbers` gives the exact condition, `IdentityThenSharedSourceIsLost` an
  input). With more than sixteen duplicates exactly the excess ones stay open, as for a cycle of eighteen
  descriptors (`CycleLeaks`).
- A fresh element of the domain is, for the process's own table, just a number that is not open. Then the mapping
  is still delivered if, from the first arc on that overwrites a descriptor in use, all that the arcs name is open at
  the start, and so are the dests of identity arcs (`PerformInjectiveMultimapDestructive`, whose `Covered` asks for
  that). Otherwise the duplicate may become the dest of a later arc, which is lost (`FreshDestIsLost`).
- The exponential layout with two buckets ends at the declared minimum, not at the declared maximum
  as the code asserts (`Histogram.InitializeBucketRange`, `TwoBucketsEndAtMinimum`).
- The header of `FilePath` says that a path without its extension, followed by the extension, is
  always the path. Trailing separators get lost (`ExtensionPartition`, `TrailingSeparatorIsLost`).
- `AppendRelativePath` applied to the parent itself rebuilds the child's components except for a parent
  that is `.` followed by separators (`AppendRelativeRebuildsChild`, `SlashDotParentIsLost`).
- A wakeup can be spurious exactly after a harmful step: a wait that timed out finds its event off the
  waiting list when it recycles it (`SpuriousExactlyAfterHarm`; `TimeoutMakesSpuriousWakeup` is a run). All
  other timeouts do no harm (`NoSpuriousWakeup`). The comments call this a rare event.
- The header of the file enumerator calls the search breadth-first. The stack makes it depth-first: whatever lies
  below one directory comes in one block, and what is in a directory before anything further below it
  (`Enumerate`). A tree comes level by level, however its directories list their entries, exactly if of two wanted
  paths at different depths the directory of the upper one is or contains that of the lower one
  (`LevelOrderExactly`); two directories with paths at crossing depths rule it out (`CrossingDepths`), and the tree
  a/x/f, b/y/g is never enumerated level by level (`EnumerateCrossing`).
- The pack reader adds offset and length in 32 bits, so that an accepted entry may point out of the file
  (`WrappedEntryIsAccepted`; `AcceptedInBounds` says when none does).
- The string of a registry rebuilds it exactly if the decided trials have nonempty names and groups without a slash
  (`RebuiltExactly`); the code asserts this in debug builds only, and else may take one trial for two (`SeparatorsInName`).
- The unit test of the pack reader reads empty resources from a file, but the writer fails on them (`WritePack`, `EmptyResourceIsRefused`).

## Model

| member | source | states |
|---|---|---|
| `FileDescriptorShuffle.InjectionDelegate.Duplicate` | chrome/base/file_descriptor_shuffle.h:32-34 | a fresh descriptor, which is not open nor set aside, refers to what fd refers to; nothing else changes; failure changes nothing, and needs a reason if the delegate is reliable |
| `FileDescriptorShuffle.InjectionDelegate.Move` | chrome/base/file_descriptor_shuffle.h:35-37 | dest refers to what src refers to; nothing else changes |
| `FileDescriptorShuffle.ScanLaterArcs` | chrome/base/file_descriptor_shuffle.cc:32-58 | each later arc is redirected to the one temporary, or takes over the flag, exactly when it is the next reader and no dest came between; duplicated iff a later arc reads the dest |
| `FileDescriptorShuffle.Progress.SameArc` | chrome/base/file_descriptor_shuffle.cc:23-67 | however arcs were rewritten, the one up next is an identity, or overwrites a descriptor in use, iff the original is or does, and still reads its original object |
| `FileDescriptorShuffle.Progress.FlagPassesOn` | chrome/base/file_descriptor_shuffle.cc:54-57 | a flag that no later dest cancels reaches the next reader of the descriptor |
| `FileDescriptorShuffle.Progress.ClosesOnlyThen` | chrome/base/file_descriptor_shuffle.cc:51-66 | an arc still flagged after its scan is the last reader of a descriptor that has to be closed |
| `FileDescriptorShuffle.Progress.ClosesThen` | chrome/base/file_descriptor_shuffle.cc:51-66 | the last reader of a descriptor that has to be closed is still flagged |
| `FileDescriptorShuffle.Progress.Step` | chrome/base/file_descriptor_shuffle.cc:23-67 | processing one arc keeps the invariant on rewritten arcs, flags, temporaries and table |
| `FileDescriptorShuffle.Progress.StepLog` | chrome/base/file_descriptor_shuffle.cc:35-66 | if no fresh descriptor is named, no call for an arc mentions a descriptor closed before, and exactly those due are closed |
| `FileDescriptorShuffle.Progress.FreshIsUnused` | chrome/base/file_descriptor_shuffle.cc:35-45 | if what the remaining arcs name was open at the start or is set aside, a fresh descriptor is in none of them, and nothing is wanted there in the end, even if its number was closed before |
| `FileDescriptorShuffle.Progress.RoundIsStep` | chrome/base/file_descriptor_shuffle.cc:23-67 | a round on the rewritten arcs makes the calls that the original arc asks for |
| `FileDescriptorShuffle.ProcessArc` | chrome/base/file_descriptor_shuffle.cc:23-67 | one round of the outer loop rewrites the arcs and the table as `IsRound` says, with exactly the delegate calls of `CallFor` |
| `FileDescriptorShuffle.CloseExtras` | chrome/base/file_descriptor_shuffle.cc:69-70 | exactly the remembered temporaries are closed, in order |
| `FileDescriptorShuffle.PerformInjectiveMultimapDestructive` | chrome/base/file_descriptor_shuffle.cc:15-73 | fails iff a delegate call fails, and with a reliable delegate iff the source of some non-identity arc is not open; otherwise every dest holds its source's object if nothing clobbers, non-dests are kept or closed, and exactly the duplicates beyond sixteen leak, provided that what arcs name from the first overwriting one on is open at the start or never fresh; if nothing named is ever fresh, nothing is used after it is closed, and a named descriptor is closed iff it has to be |
| `FileDescriptorShuffle.DeliversIffNothingClobbers` | chrome/base/file_descriptor_shuffle.cc:23-67 | every dest ends up with its source's initial object iff no identity arc shares its source with a later arc with one of the two flagged |
| `FileDescriptorShuffle.IdentityThenSharedSourceIsLost` | chrome/base/file_descriptor_shuffle.cc:54-66 | a mapping for which a dest is lost |
| `FileDescriptorShuffle.CycleLeaks` | chrome/base/file_descriptor_shuffle.cc:39-45 | a cycle of n descriptors leaks n - 17 duplicates, so one of eighteen leaks one |
| `FileDescriptorShuffle.FreshDestIsLost` | chrome/base/file_descriptor_shuffle.cc:81-84 | three rounds and the final closing after which the dest of the second arc is closed, because its number was fresh |
| `FileDescriptorShuffle.OthersKept` | chrome/base/file_descriptor_shuffle.h:61-64 | what is no dest stays, except flagged sources, which go |
| `FileDescriptorShuffle.DeliverySpelledOut` | chrome/base/file_descriptor_shuffle.cc:23-67 | in plain terms: every dest gets its source's object if no arc with source and dest equal shares the source with a later one, either being flagged |
| `FileDescriptorShuffle.ClosingSpelledOut` | chrome/base/file_descriptor_shuffle.cc:51-66 | in plain terms: a descriptor is closed iff some arc that reads it is flagged, and it is no dest, or such an arc's |
| `FileDescriptorShuffle.LeaksSpelledOut` | chrome/base/file_descriptor_shuffle.cc:39-45 | in plain terms: leaked is what exceeds sixteen of the dests that a later arc reads |
| `FileDescriptorShuffle.SwapAndCopy` | chrome/base/file_descriptor_shuffle.cc:15-73 | a swap with a copy of one half, whose final table is given entry by entry |
| `FileDescriptorShuffle.DestsClosedOnlyIfClobbered` | chrome/base/file_descriptor_shuffle.cc:51-66 | a dest is closed iff it is such an identity arc's |
| `ConditionVariableWin.Event.constructor` | chrome/base/condition_variable_win.cc:172-174 | a new event is a ring of its own |
| `ConditionVariableWin.Event.IsSingleton` | chrome/base/condition_variable_win.cc:252-255 | true iff the ring has one element |
| `ConditionVariableWin.Event.PushBack` | chrome/base/condition_variable_win.cc:205-216 | the list gets the event at its end |
| `ConditionVariableWin.Event.PopFront` | chrome/base/condition_variable_win.cc:218-222 | the first event leaves the list and is on its own |
| `ConditionVariableWin.Event.PopBack` | chrome/base/condition_variable_win.cc:224-228 | the last event leaves the list and is on its own |
| `ConditionVariableWin.Event.Extract` | chrome/base/condition_variable_win.cc:238-249 | the event leaves the ring from any place, the others stay in order; on its own it is left unchanged |
| `ConditionVariableWin.ConditionVariable.GetEventForWaiting` | chrome/base/condition_variable_win.cc:112-127 | the oldest recycled event, or a new one if there is none, joins the waiting list at its end; pointers and counters do what `GetEvent` does to the two sequences; lists and loose events stay disjoint |
| `ConditionVariableWin.ConditionVariable.RecycleEvent` | chrome/base/condition_variable_win.cc:134-142 | the event leaves the waiting list, if it is still there, and joins the recycling list at its end, as `Recycle` says |
| `ConditionVariableWin.ConditionVariable.SignalSection` | chrome/base/condition_variable_win.cc:97-104 | the newest waiter's event is taken off the list, if there is one |
| `ConditionVariableWin.ConditionVariable.BroadcastSection` | chrome/base/condition_variable_win.cc:76-84 | the list is emptied onto the stack, newest waiter first |
| `ConditionVariableWin.ConditionVariable.Broadcast` | chrome/base/condition_variable_win.cc:75-89 | all waiters' events are set, oldest waiter first |
| `ConditionVariableLists.GetEventSound` | chrome/base/condition_variable_win.cc:112-127 | the event handed out is in neither list: the oldest recycled one, or a new one only if none is recycled |
| `ConditionVariableLists.RecycleSound` | chrome/base/condition_variable_win.cc:134-142 | recycling leaves no event listed twice, and the size right |
| `ConditionVariableProtocol.InvStep` | chrome/base/condition_variable_win.cc:46-142 | each step of each thread keeps every event with one holder and every blocked thread's event listed, owed or set |
| `ConditionVariableProtocol.EveryRunKeepsInv` | chrome/base/condition_variable_win.cc:46-142 | so does every run, with any number of threads and timeouts: no wakeup is lost |
| `ConditionVariableProtocol.NoWakeupIsLost` | chrome/base/condition_variable_win.cc:46-142 | in plain terms, for every run from the start: a blocked thread's event is listed, set, or still to be set by some thread, and no other thread has it |
| `ConditionVariableProtocol.SignalSetsTheLast` | chrome/base/condition_variable_win.cc:91-106 | a run in which a signal sets the event of the second of two waiting threads |
| `ConditionVariableProtocol.BroadcastSetsBoth` | chrome/base/condition_variable_win.cc:73-89 | a run in which a broadcast sets the events of two waiting threads, in the order in which they came |
| `ConditionVariableProtocol.BroadcastSelectsAll` | chrome/base/condition_variable_win.cc:73-89 | Broadcast owes a SetEvent to exactly the waiters at that moment, in order of arrival |
| `ConditionVariableProtocol.SignalSelectsNewest` | chrome/base/condition_variable_win.cc:91-106 | Signal owes one to the most recent waiter, who exists |
| `ConditionVariableProtocol.SelectedThreadsAreWoken` | chrome/base/condition_variable_win.cc:73-106 | whatever others do, a selected thread can return once the signaling thread is done |
| `ConditionVariableProtocol.AllocationsFollowPeak` | chrome/base/condition_variable_win.cc:108-142 | the allocation counter is the peak of simultaneous waiters during any run |
| `ConditionVariableProtocol.PeakIsReached` | chrome/base/condition_variable_win.cc:108-142 | the peak is the number of threads with an event at some moment of the run |
| `ConditionVariableProtocol.PeakIsLargest` | chrome/base/condition_variable_win.cc:108-142 | at no moment are there more |
| `ConditionVariableProtocol.CountersAreExact` | chrome/base/condition_variable_win.cc:108-142 | allocations = recycled + held, recycled size = length of the list, allocations = peak, after any run from the start |
| `ConditionVariableProtocol.BroadcastSetsAllInOrder` | chrome/base/condition_variable_win.cc:73-89 | in every run the broadcasting thread sets exactly the events that were waiting, oldest first |
| `ConditionVariableWakeups.FaithfulStep` | chrome/base/condition_variable_win.cc:46-142 | each step, timeouts included, keeps every event in its cycle of registration, selection or timeout, and recycling, unless it is harmful, which breaks the cycle |
| `ConditionVariableWakeups.NoSpuriousWakeup` | chrome/base/condition_variable_win.cc:46-142 | a run keeps every event in its cycle iff none of its steps is harmful |
| `ConditionVariableWakeups.NeverWrongNeverSpurious` | chrome/base/condition_variable_win.cc:52-106 | in that cycle no wakeup lacks a selection of its event since its thread registered |
| `ConditionVariableWakeups.NoSpuriousWakeupFromStart` | chrome/base/condition_variable_win.cc:129-142 | in runs from the start without a harmful step no wakeup is spurious, and no listed event is set or about to be |
| `ConditionVariableWakeups.WakeupsAnswerSelections` | chrome/base/condition_variable_win.cc:52-106 | a wakeup in the cycle answers exactly one selection of the event since its thread registered |
| `ConditionVariableWakeups.HarmfulIsDue` | chrome/base/condition_variable_win.cc:134-142 | what is recycled is set or about to be iff its wait timed out and it is off the waiting list |
| `ConditionVariableWakeups.QuietStep` | chrome/base/condition_variable_win.cc:129-142 | without looking at the history: listed events stay unset and unowed iff no such event is recycled |
| `ConditionVariableWakeups.DueEventWakesUp` | chrome/base/condition_variable_win.cc:131-133 | from every state with a recycled event set or about to be, a run leads to a spurious wakeup |
| `ConditionVariableWakeups.SpuriousExactlyAfterHarm` | chrome/base/condition_variable_win.cc:129-142 | a step makes a spurious wakeup possible, without further harm, iff it is harmful |
| `ConditionVariableWakeups.TimeoutMakesSpuriousWakeup` | chrome/base/condition_variable_win.cc:131-133 | a harmful run from the start that ends in a spurious wakeup |
| `HistogramLayout.NearestRootIsRounding` | chrome/base/histogram.cc:216-223 | the integer condition says exactly that the real root plus one half rounds down to n |
| `HistogramLayout.NearestRoot` | chrome/base/histogram.cc:216-223 | the rounded root exists between current and maximum |
| `HistogramLayout.RoomIsLeft` | chrome/base/histogram.cc:215-229 | if there is room for the buckets left, there is after the next one (Bernoulli's inequality) |
| `HistogramLayout.LastStart` | chrome/base/histogram.cc:215-229 | the last bucket starts at the maximum |
| `HistogramLayout.LinearIncreases` | chrome/base/histogram.cc:635-645 | rounded linear starts increase strictly if there is a value for every bucket |
| `HistogramLayout.LinearEnds` | chrome/base/histogram.cc:635-645 | they begin at the minimum and end at the maximum |
| `Histograms.Histogram.InitializeBucketRange` | chrome/base/histogram.cc:208-232 | strictly increasing ranges from the minimum, each next start the rounded root or one more; the last is the maximum iff there are more than two buckets or just one value |
| `Histograms.Histogram.InitializeLinearBucketRange` | chrome/base/histogram.cc:635-645 | strictly increasing ranges from the minimum to the maximum; with two buckets the one start may be anything, and the ranges increase iff it is inside the range of samples |
| `Histograms.TwoBucketsEndAtMinimum` | chrome/base/histogram.cc:214-215 | two buckets for 1 to 100 end at 1 |
| `Histograms.Histogram.constructor` | chrome/base/histogram.cc:51-61 | a new histogram satisfies all that ValidateBucketRanges asserts, with the exception above |
| `Histograms.Histogram.Linear` | chrome/base/histogram.cc:598-603 | so does a linear one with more than two buckets; one with two is valid iff the start that zero divided by zero left is inside the range of samples |
| `Histograms.Histogram.BucketIndex` | chrome/base/histogram.cc:234-256 | terminates in a bucket that contains the value |
| `Histograms.BucketIsUnique` | chrome/base/histogram.cc:234-256 | there is only one such bucket |
| `Histograms.Histogram.Add` | chrome/base/histogram.cc:86-95 | afterwards counts and sums are those of all samples; a value in the range adds one to the count of its bucket, to no other, and itself and its square to the sums; any other is counted at the end of the range it is nearest to |
| `Histograms.ClampedIsNearest` | chrome/base/histogram.cc:86-90 | what is recorded for a value lies in the range of samples, and between the value and every number there |
| `Histograms.Histogram.SampleCount` | chrome/base/histogram.cc:496-504 | the total is the number of Add calls |
| `Histograms.SampleSet.Accumulate` | chrome/base/histogram.cc:485-494 | one count and the two sums change by one sample |
| `Histograms.SampleSet.TotalCount` | chrome/base/histogram.cc:496-504 | the sum of the counts |
| `Histograms.SampleSet.Add` | chrome/base/histogram.cc:506-512 | counts and sums are added; the result is the set of both lists of samples, also when a set is added to itself |
| `Histograms.SampleSet.Subtract` | chrome/base/histogram.cc:514-523 | counts and sums are subtracted; subtracting what was added last gives the set of the samples before, and subtracting a set from itself the empty one |
| `Histograms.CountInAppend` | chrome/base/histogram.cc:506-512 | bucket counts of joined sample lists add up |
| `HistogramExamples.NextStartIs` | chrome/base/histogram.cc:215-229 | an integer that satisfies the condition on the root is the one that the layout uses |
| `HistogramExamples.ExponentialRanges` | chrome/base/histogram_unittest.cc:143-152 | eight buckets from 1 to 64 start at the powers of two |
| `HistogramExamples.StartsTo32` | chrome/base/histogram_unittest.cc:176-195 | some starts of the layout from 1 to 32 in fifteen buckets |
| `HistogramExamples.LinearRanges` | chrome/base/histogram_unittest.cc:169-174 | eight linear buckets from 2 to 14 are two wide |
| `HistogramExamples.Bounds` | chrome/base/histogram_unittest.cc:257-277 | two samples below the minimum are counted in the first bucket and two above the maximum in the last |
| `FilePaths.StripTrailingSeparatorsInternal` | chrome/base/file_path.cc:1092-1112 | strips all trailing separators, except that "//" stays and other roots become "/" |
| `FilePaths.StripIsIdempotent` | chrome/base/file_path.cc:1092-1112 | stripping twice is stripping once, and only the empty path becomes empty |
| `FilePaths.PathParts` | chrome/base/file_path.cc:228-285 | of directory part, base name and trailing separators, the last are stripped, BaseName is the second, and DirName the first without its separators, or the root |
| `FilePaths.ComponentsStep` | chrome/base/file_path.cc:228-285 | DirName and BaseName split the components of every path at the last one; DirName is the path itself, shorter, or "." |
| `FilePaths.GetComponents` | chrome/base/file_path.cc:122-157 | terminates with the root ("//" or "/") and the nonempty segments, without a leading "." |
| `FilePaths.AppendThenSplit` | chrome/base/file_path.cc:228-285 | DirName and BaseName undo Append for every path up to stripping |
| `FilePaths.AppendIsInvertible` | chrome/base/file_path.cc:384-416 | DirName gives the path back iff it was stripped and not empty |
| `FilePaths.ComponentsOfAppended` | chrome/base/file_path.cc:384-416 | appending a segment appends a component |
| `FilePaths.AppendRelativePath` | chrome/base/file_path.cc:179-222 | succeeds iff the parent's components are a proper nonempty prefix of the child's, and appends the rest |
| `FilePaths.IsParentIsStrictOrder` | chrome/base/file_path.cc:175-177 | IsParent is irreflexive, transitive and asymmetric |
| `FilePaths.AppendRelativeRebuildsChild` | chrome/base/file_path.cc:179-222 | from the parent itself the result has exactly the child's components iff the stripped parent is not "." |
| `FilePaths.SlashDotParentIsLost` | chrome/base/file_path.cc:179-222 | a parent and child for which a component is lost |
| `FilePaths.RemoveExtensionCuts` | chrome/base/file_path.cc:287-311 | a nonempty extension and what is left spell the stripped path |
| `FilePaths.ExtensionPartition` | chrome/base/file_path.h:215-221 | they spell the path itself iff there is no extension or no trailing separator |
| `FilePaths.TrailingSeparatorIsLost` | chrome/base/file_path.h:215-221 | a path for which the promise fails |
| `FilePaths.ExtensionParts` | chrome/base/file_path.cc:287-311 | the extension is what follows the last dot of the base name, with the dot, and RemoveExtension is what is before |
| `FilePaths.ReplacedByNothing` | chrome/base/file_path.cc:347-364 | with "" or "." only the extension goes: what is left and the extension are the path, or the stripped path |
| `FilePaths.ReplacedHasExtension` | chrome/base/file_path.cc:347-371 | with a plain extension the result has this extension, and the same rest |
| `FilePaths.ReplacedInNoName` | chrome/base/file_path.cc:347-359 | the empty path, "." and ".." become empty |
| `FilePaths.ReplaceExtensionTwice` | chrome/base/file_path.cc:347-371 | replacing by a plain extension and then again is replacing once, for every path and second extension |
| `FilePathExamples.SomeReplacements` | chrome/base/file_path_unittest.cc:815-850 | names with and without extension, with "", ".", "txt" and ".txt" |
| `FilePathExamples.NothingReplaced` | chrome/base/file_path_unittest.cc:815-850 | paths without a name, and a name with two dots |
| `FilePathExamples.SomeExtensions` | chrome/base/file_path_unittest.cc:712-751 | extensions of eleven paths |
| `FilePathExamples.SomeComponents` | chrome/base/file_path_unittest.cc:457-500 | components of absolute, relative and alternate root paths |
| `FilePathExamples.SomeParents` | chrome/base/file_path_unittest.cc:516-533 | pairs of paths that are parent and child, and that are not |
| `FilePathExamples.AppendToAnother` | chrome/base/file_path_unittest.cc:567-615 | a relative path appended to another path, and one that is refused |
| `FileTrees.FileSystem.ReadDirectory` | chrome/base/file_util_posix.cc:672-709 | a listing has every entry of the directory once, in any order |
| `FileEnumerators.FileEnumerator.constructor` | chrome/base/file_util_posix.cc:575-586 | everything wanted below the root path is still to be returned |
| `FileEnumerators.FileEnumerator.LoadEntries` | chrome/base/file_util_posix.cc:647-664 | directories are pushed, and directories and files kept if their flag is set, without the two dot names |
| `FileEnumerators.FileEnumerator.ReadNextDirectory` | chrome/base/file_util_posix.cc:639-646 | taking one directory off the stack loses nothing that is still to be returned unless it cannot be read, keeps the walk it follows, and fewer directories are unread |
| `FileEnumerators.FileEnumerator.Next` | chrome/base/file_util_posix.cc:631-670 | terminates with something not returned before, from below the start and out of a directory returned before, and after nothing deeper; None only when nothing is left |
| `FileEnumerators.Enumerate` | chrome/base/file_util_posix.cc:631-670 | repeated Next terminates; all that is returned lies below the start and is a directory or a file as the flags ask for, each once, and if no call fails it is all of that, in the order of `Walk` for some order of the listings; directories before what is in them; whatever is below one directory in one block, with what is in it before anything further below; level by level if the wanted paths are aligned |
| `FileEnumerators.EnumerateSome` | chrome/base/file_util_posix.cc:662-664 | in a tree of seven entries the files alone, the directories alone, and all below one directory |
| `DirectoryStacks.SortedOut` | chrome/base/file_util_posix.cc:647-664 | of a listing exactly the directories are pushed, and exactly what the flags ask for is kept |
| `FileEnumerators.EnumerateCrossing` | chrome/base/file_util.h:423-427 | a tree for which no enumeration is level by level, as a breadth-first one would be |
| `FileEnumerators.Scan.BlockAfterReturn` | chrome/base/file_util_posix.cc:639-669 | returning the next entry keeps everything below one directory in one block |
| `EnumerationOrder.CrossingDepths` | chrome/base/file_util.h:423-427 | an enumeration in blocks that has paths of two unrelated directories at crossing depths is not level by level |
| `EnumerationOrder.WalkHas` | chrome/base/file_util_posix.cc:631-670 | for every order of the listings a stack leads to exactly the wanted paths below it |
| `EnumerationOrder.WalkSplits` | chrome/base/file_util_posix.cc:639-658 | the directories on top of the stack are dealt with completely before those below |
| `EnumerationOrder.WalkIsShallowFirst` | chrome/base/file_util.h:424-426 | for every order of the listings what is in a directory comes before anything further below it |
| `EnumerationOrder.LevelOrderExactly` | chrome/base/file_util.h:423-427 | every order of the listings leads to a level by level enumeration iff the wanted paths are aligned |
| `DirectoryStacks.ReadTopKeepsTodo` | chrome/base/file_util_posix.cc:639-664 | what lies below a directory is its entries and what lies below its subdirectories |
| `FileEnumerators.Scan.ReturnOne` | chrome/base/file_util_posix.cc:668-669 | returning an entry takes exactly it out of what is still to come |
| `RecursiveDelete.TopIsEmpty` | chrome/base/file_util_posix.cc:172-176 | when its turn comes, each stacked directory is empty |
| `RecursiveDelete.DeleteFiles` | chrome/base/file_util_posix.cc:155-170 | files go while the tree is enumerated, directories are stacked after their parents |
| `RecursiveDelete.RemoveDirectories` | chrome/base/file_util_posix.cc:172-176 | directories go in reverse order; none fails after a complete enumeration unless a call fails |
| `RecursiveDelete.Delete` | chrome/base/file_util_posix.cc:141-181 | nothing outside the path is lost or changes, success means nothing with the path as its prefix is left, and without failing calls only the plain deletion of a nonempty directory fails |
| `RecursiveDelete.DeleteDirectory` | chrome/base/file_util_posix.cc:141-181 | a directory with something in it, deleted plainly in vain, and recursively |
| `RecursiveDelete.DeleteFile` | chrome/base/file_util_posix.cc:141-181 | a file, and a path that does not exist |
| `AtomicOps.StepIsAtomic` | chrome/base/atomicops_internals_arm_gcc.h:31-74 | each step of each loop keeps the cell and the results those of the operations done one after the other |
| `AtomicOps.EveryRunIsAtomic` | chrome/base/atomicops.h:52-75 | under any interleaving and any failures of compare-exchange each call takes effect at one instant while it runs, and the cell is the result of the effects one after the other |
| `AtomicOps.EveryRunIsSequential` | chrome/base/atomicops.h:52-75 | in plain terms, for each effect of each run: CompareAndSwap finds and returns the old value, and leaves the new one iff it found what it expects; Exchange returns what it finds and leaves its value; Increment returns and leaves the sum |
| `AtomicOps.OnlyStoresChangeTheCell` | chrome/base/atomicops_internals_arm_gcc.h:31-74 | steps other than a successful exchange leave the cell alone |
| `AtomicOps.StoresItsValue` | chrome/base/atomicops_internals_arm_gcc.h:31-74 | in every reachable state a compare-exchange that is about to store finds the expected value, and leaves the new value, or the sum modulo 2^32 |
| `AtomicOps.CompareAndSwapAlone` | chrome/base/atomicops_internals_arm_gcc.h:31-44 | from every state, with or without a failure, the call swaps a cell that holds the old value, and returns it; any other cell is left alone and returned |
| `AtomicOps.ExchangeAlone` | chrome/base/atomicops_internals_arm_gcc.h:46-58 | likewise the cell gets the new value, and the one before is returned |
| `AtomicOps.SomeCalls` | chrome/base/atomicops_unittest.cc:82-170 | CompareAndSwap that swaps and that does not, Exchange, and an increment that wraps around, on literal values |
| `AtomicOps.FinishesAlone` | chrome/base/atomicops_internals_arm_gcc.h:31-74 | a loop that is left alone ends after exactly the steps counted, at most three |
| `AtomicOps.CompletedCallsTookEffectOnce` | chrome/base/atomicops.h:52-75 | a thread's completed calls are its effects, in order, with their results |
| `AtomicOps.IncrementsSum` | chrome/base/atomicops_internals_arm_gcc.h:60-74 | increments sum exactly modulo 2^32, and each returns the sum it made |
| `AtomicOps.NumbersAreConsecutive` | chrome/base/atomic_sequence_num.h:18-21 | GetNext gives 0, 1, 2, ... in the order of effect, up to wrap-around |
| `AtomicOps.NumbersAreDistinct` | chrome/base/atomic_sequence_num.h:18-21 | the numbers are distinct iff there are at most 2^32 of them |
| `AtomicOps.OnlyTheLastReleaseSeesNone` | chrome/base/atomic_ref_count.h:20-39 | when takes and releases interleave in any way, one reports that no reference is left iff it is the last and all are gone |
| `DataPacks.WritePack` | chrome/base/data_pack.cc:132-192 | succeeds iff no resource is empty, and then emits header, index sorted by id with running offsets, and data |
| `PackBytes.LowByteFirst` | chrome/base/data_pack.cc:137-172 | the bytes of a word, the low one first, add up to it |
| `DataPacks.WriteTwoResources` | chrome/base/data_pack.cc:132-192 | two resources are written as 35 bytes that are listed |
| `DataPacks.OrderIsUnique` | chrome/base/data_pack.cc:144-157 | there is one order in which a sorted container yields its keys |
| `DataPacks.EncodedEntry` | chrome/base/data_pack.cc:156-187 | each index entry of a written pack names its resource's bytes |
| `DataPacks.PackedIsFound` | chrome/base/data_pack.cc:132-192 | a written pack below 4 GB is accepted, sorted and in bounds, and its entries are exactly the resources |
| `DataPacks.EmptyResourceIsRefused` | chrome/base/data_pack.cc:182-186 | one empty resource makes writing fail |
| `DataPacks.DataPack.Load` | chrome/base/data_pack.cc:56-97 | accepts iff there is a header and version, index length and 32-bit entry bounds are right, whatever is parsed behind the end of a short file |
| `DataPacks.AcceptedInBounds` | chrome/base/data_pack.cc:84-94 | in an accepted file below 4 GB all entries point inside iff no sum of offset and length reaches 2^32; in a larger one if none does |
| `DataPacks.WrappedEntryIsAccepted` | chrome/base/data_pack.cc:84-94 | an accepted file whose entry points outside |
| `DataPacks.DataPack.GetStringPiece` | chrome/base/data_pack.cc:99-120 | the result is the piece that an entry with the id names, and inside the file if all entries are; in a sorted index one is found iff there is one |
| `DataPacks.ReadTwoResources` | chrome/base/data_pack.cc:56-120 | from these 35 bytes both are read, and no third |
| `DataPacks.RefuseFiles` | chrome/base/data_pack.cc:64-94 | files of another version, without index, and with an entry one byte too long are refused; a pack without resources is not |
| `DataPacks.WriteLoadGet` | chrome/base/data_pack_unittest.cc:38-74 | what was written is found after loading with the same bytes, and nothing else is |
| `FieldTrials.ChosenIsInterval` | chrome/base/field_trial.cc:36-55 | a group is chosen iff the random value is in the interval between the sums before and after it |
| `FieldTrials.NoneChosen` | chrome/base/field_trial.cc:36-55 | no group is chosen iff the value is left over |
| `FieldTrials.ChosenForGood` | chrome/base/field_trial.cc:46-53 | a choice never changes |
| `FieldTrials.ChosenByItsShare` | chrome/base/field_trial.cc:36-55 | exactly as many of the divisor many values choose a group as its probability says, or all that remain |
| `FieldTrials.DigitsSpell` | chrome/base/field_trial.cc:49-50 | an unnamed group's number is spelled in decimal without leading zeros |
| `FieldTrials.FieldTrial.AppendGroup` | chrome/base/field_trial.cc:36-55 | returns the next number and keeps group and name those of the groups appended so far; a chosen group stays |
| `FieldTrialExamples.ChooseGroups` | chrome/base/field_trial.cc:36-55 | three groups of which the last has all remaining probability, for two random values |
| `FieldTrialLists.AugmentSpelled` | chrome/base/field_trial.cc:154-185 | spelled plain decisions are accepted iff they are consistent, and then are added |
| `FieldTrialLists.AcceptedExactly` | chrome/base/field_trial.cc:154-185 | a string is accepted iff it is a sequence of nonempty "name/group/" pairs that agree with each other and what is known |
| `FieldTrialLists.RoundTrip` | chrome/base/field_trial.cc:134-185 | the string of one process adds exactly its decided trials to another that does not disagree |
| `FieldTrialLists.RebuiltAndUnchanged` | chrome/base/field_trial.cc:134-185 | an empty registry is rebuilt, and the original one does not change |
| `FieldTrialLists.RebuiltExactly` | chrome/base/field_trial.cc:134-185 | an empty registry is rebuilt iff all decided trials have names and groups that are not empty and have no separator |
| `FieldTrialLists.SeparatorsInName` | chrome/base/field_trial.cc:145-146 | a decided trial named a/b/c is taken for two others |
| `FieldTrialExamples.MalformedIsRefused` | chrome/base/field_trial_unittest.cc:178-184 | a string in which a slash, a name or a group is missing is refused |
| `FieldTrialExamples.TwoAreRestored` | chrome/base/field_trial.cc:154-185 | names and groups with slashes after them are restored, for any two trials |
| `FieldTrialExamples.OneIsCompared` | chrome/base/field_trial_unittest.cc:186-198 | for a trial that is known the string is accepted iff the group is the same |
| `FieldTrialExamples.RestoreWinner` | chrome/base/field_trial_unittest.cc:166-198 | "Some name/Winner/xxx/yyyy/" gives exactly these two trials, and another group for one of them is refused |
| `FieldTrialExamples.SaveWinner` | chrome/base/field_trial_unittest.cc:137-151 | the string of one trial, before and after it has a winner |
| `FieldTrialLists.FieldTrialList.StatesToString` | chrome/base/field_trial.cc:134-151 | each decided trial is spelled once, and nothing else, in some order |
| `FieldTrialLists.FieldTrialList.StringAugmentsState` | chrome/base/field_trial.cc:154-185 | result and new registry are those of `Augment`; the trials there stay the same objects |
| `FieldTrialLists.FieldTrialList.Register` | chrome/base/field_trial.cc:91-100 | the trial is found under its name, the others as before |
| `FieldTrialLists.CarryOver` | chrome/base/field_trial.h:187-193 | a second process that is given the string has exactly the decided trials, with the same groups |

## Left out

- PerformInjectiveMultimap, which works on a copy of its argument.
- PerformInjectiveMultimapDestructive: requires that what arcs name from the first overwriting one on is open at the start or never fresh; of other mappings with a real `dup`, which loses a dest for some, only an input is given.
- Failures of a delegate part-way: that the call then fails and stops is stated, what the table looks like at that point is not.
- The condition variable's destructor, its shutdown state and the user's lock, which the protocol never touches; fairness of waking up; handle validation in debug builds.
- A timeout in the protocol may also end a wait whose event is set, which only adds runs; that a thread blocks for at least its timeout is not modelled.
- Nested loops of one function appear as methods of their own where their invariants are: ScanLaterArcs, ProcessArc, CloseExtras, LoadEntries, ReadNextDirectory, DeleteFiles, RemoveDirectories.
- Floating-point rounding of logarithms, exponentials and the linear formula; overflow of counts and sums; the recorder, printing, pickling.
- FilePath with Windows separators and drive letters; InsertBeforeExtension and MatchesExtension, which only combine what is modelled; comparison, pickling and wide strings.
- The enumerator without recursion, with a pattern, with the parent entry, or following symbolic links; a link is a file. An entry that cannot be examined. Trailing separators of the root path, since a path is the sequence of its names here.
- Enumerate: states nothing about which entries are missing when a directory cannot be read.
- File attributes, permissions, and other processes changing the tree meanwhile.
- Memory ordering weaker than sequential consistency, the barriers, and plain loads and stores; a spinning loop is not shown to end under interference, since nothing bounds the failures of compare-exchange.
- What reading a piece that points out of the file gives.
- Errors of writing a pack file, mapping it into memory, and big-endian hosts.
- Reference counting and time of field trials, the global registry pointer and its lock; MakeName, FindValue and FindFullName, which only look up.
