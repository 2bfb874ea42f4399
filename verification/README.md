# prongC in Dafny

prongC looks for variables that two calls share without a common lock. It walks every analysed
function and everything that function calls, collects reads, writes, lock and unlock calls and branch
markers, and flattens them into one linear *access footprint* per function. From a footprint it
builds an index of *protection ranges*: for every acquired lock a chain of index segments in one
growing array. Two footprints are then compared pair by pair, and a shared variable is reported
unless the locks held at both places agree.

This project models that pipeline on an abstract syntax tree and an abstract call graph, in the form
the C has: arrays and objects are updated in place by methods, each proved against a function of the
old state, and the results are lemmas about those functions. Source references below are to the C.

## How it fits together

| file | what it covers |
|---|---|
| `var_access.dfy`, `c_integers.dfy`, `sequences.dfy` | footprint entries; integer limits; small facts on sequences and sets |
| `lock_hash.dfy`, `lock_primitives.dfy` | the hash of a lock's USR; the table of locking functions |
| `lock_tracking.dfy` | the array of protection ranges, its operations and queries, the verdict on two queries |
| `lock_ranges.dfy` | the pass over a footprint that fills the array, and the one-pass machine it refines |
| `range_queries.dfy`, `range_invariants.dfy` | what queries report; order, disjointness and branch depths of segments |
| `verdict.dfy` | the verdict in terms of the locks that the ranges show, and of the locks held |
| `executions.dfy` | the ranges against every execution of the branches |
| `reporting.dfy` | the two double loops that report pairs and null their entries |
| `comparisons.dfy` | the run over all ordered pairs of functions |
| `call_forest.dfy`, `footprint.dfy`, `tracing.dfy` | collecting callees, unwinding, inlining, finding a reported access again |
| `ast_visitor.dfy` | the ancestor stack and the branch markers of one function body |
| `footprint_shape.dfy`, `visited_shape.dfy` | brackets and then-blocks read off in one pass; the shape of a visited body |
| `visited_accesses.dfy` | the accesses of a visited body: all of them, in order, each in its branch |
| `root_footprints.dfy` | naming a root's parameters; then-blocks, elses and brackets in the footprints that are built |
| `exact_footprint.dfy` | a root's footprint by one recursion over the program |
| `dyn_aos.dfy`, `thread_pool.dfy`, `call_parser.dfy` | the packed string array, the parsing threads, the option parser |

The main line of results:

1. The array always is a disjoint union of chains (`ExtendKeepsWellFormed`, `ClosingKeepsWellFormed`,
   `AcquireKeepsWellFormed`), for every footprint, well bracketed or not.
2. At every entry that is not a then-block, the chains reported are exactly those that a one-pass
   machine has open there, or had open at an if whose then-block is still to come
   (`RangesRefineMachine`); with no release and no else inside a condition, exactly the open ones
   (`CleanRangesAreTheMachine`). The machine has a closed form (`OpenInClosedForm`).
3. Without an else the ranges are exact about executions: a lock is held on every execution reaching
   an access if and only if it is reported, every branch around its acquire is around the access, and
   the access does not come after a release in the condition of one if (`ElseFreeRangesAreExact`). With
   an else they are neither sound nor complete; `RangesAreRightExactly` says when they are, and three
   concrete footprints show the failures. Where no if lies in another they are at least complete
   (`FlatRangesMissNothing`).
4. The verdict on two accesses is characterised exactly on all footprints in which no else begins in the
   condition of an if and, in the second, every if has a then-block behind it (`VerdictInGeneral`): by how
   many locks are shown at each, by whether each hash shown in the first function belongs to a shown lock
   of the second up to which none meets an if, and by whether any meets one. So is when the order of the
   functions matters (`OrdersAgreeExactly`), and which pairs are badly protected (`UnprotectedExactly`).
   Where no hash is shown twice, this is a comparison of two sets (`VerdictBySets`); where moreover there
   is no else, no release in a condition and no re-acquisition of a held lock, the sets are those of the
   held locks (`VerdictExactly`). The footprints that are built meet the two hypotheses if the visited
   bodies do (`FootprintIsStructured`), and those do (`VisitedElsesFit`, `VisitedIfsHaveThens`).
5. Reported pairs are a greedy maximal matching (`FindUnprotectedVa`, `FindVaOverlap`), with an exact
   count and order for plain overlaps (`OverlapCount`). Over the whole run no entry is reported twice;
   and without lock tracking, or if no original candidate involves a lock entry, exactly the
   candidates of the original footprints are settled, though every comparison blanks entries for the
   next (`CompareAll`).
6. The footprint of a root is the depth-first flattening of its program, each entry renamed and settled
   where it is met (`FootprintExactly`), and all entries in it can be traced back (`FootprintIsTraced`).
   What settling and naming make of one entry is said in terms of locals, parameters and the table of
   locking functions (`SettledExactly`, `LockTypeExactly`, `NamedAfterFirst`, `LeftAlone`).
7. The visitor collects every access of a body in pre-order (`VisitCollectsAccesses`) and writes it behind
   the marker of its own branch (`VisitWritesBody`, `IfIsLaidOut`).
8. However a list of calls is spaced, splitting and parsing it gives back names and arguments
   (`ListRoundTrip`).

## What the proofs show about the code

The model follows the code; where the code and what one would expect of it differ, a lemma gives an
input, and another the exact condition:

- An else at depth 1 reopens every closed chain, also one released before the if: a released lock is
  reported (`ElseReopensReleasedLock`). An else at any other depth changes nothing
  (`DeepElseChangesNothing`), so a lock released in a nested then-block is lost in the matching else
  (`NestedElseForgetsLock`). A release in the condition of an if is not seen before the then-block
  (`ConditionHidesRelease`).
- The verdict on two places without any lock is "protected", so two such accesses are not reported when
  both functions take some lock elsewhere (`UnlockedPairIsMissed`, `UnprotectedExactly`).
- A lock that is taken twice counts as two. Two accesses under the same lock are reported if one of them
  took it twice (`SameLocksAreReported`), and two under different locks can go unreported
  (`DifferentLocksAreNotReported`). Hashes and locks shown are equally many exactly where no hash is shown
  twice (`HashesCountChains`), and there the verdict compares sets (`VerdictBySets`).
- The ancestor stack is not emptied between functions: one that is visited after a function ending with
  an if begins with its end-if (`EndIfGoesAstray`). Every end-if closes an if exactly where no if was left
  on the stack (`VisitedIsBracketedExactly`). The wrapped depth can then hide an if from the verdict
  (`StrayEndIfHidesIf`); where end-ifs close ifs none is hidden (`MeetsIfPlainly`).
- The verdict looks at branch depths of the second function only (src/lock_tracking.c:434 tests the same
  field twice), so it depends on the order of the functions (`OrderMatters`, `OrdersAgreeExactly`).
- Lock and unlock entries are not placeholders, so they are compared and reported like accesses. A
  reported lock entry is nulled and protects nothing in later comparisons, which can then report pairs
  that were not badly protected at the start (`ReportedLockProtectsNoMore`, `RunOverThree`). This cannot
  happen where no original candidate has a lock entry at either end; and where one has a lock entry at
  both ends, a lock entry is reported (`RunConcludes`).
- A parameter is recognised by a prefix of the USR. So an access to a parameter whose USR starts with that
  of an earlier one is named after the earlier one's argument (`EarlierParameterTakesOver`); exactly the
  accesses that start with no earlier one are named after their own (`NamedAfterFirst`).
- Call entries carry the callee's own USR and no parameter index, so the alias pass never gives an entry
  of a callee the identity of an argument; all it can do is put the callee's own USR there
  (`NoArgumentIsAliased`), and it stops doing even that at the first callee from a system header
  (`CalleeIsAliasedExactly`).
- Element pointers that the C keeps across a growth of the range array are stale unless the array stays
  put; the growth clauses of `AddProtectionRangeFieldsActive` and `AddProtectionRangeFieldsInactive` say
  exactly when, and five locks followed by an if are enough to make it grow (`GrowsWhileSplitting`).
- A thread leaves after a file it cannot parse. All files get their turn if and only if fewer files than
  there are threads cannot be parsed, not counting the last file (`AllWrittenExactly`); one thread and
  two files show the failure (`FileIsLeftUnclaimed`).

## Model

| member | source | states |
|---|---|---|
| LockHash.GenHash | src/lock_tracking.c:129-143 | the loop computes the 32-bit multiply-then-xor hash, wrapping |
| LockHash.KnownHashes | src/lock_tracking.c:129-143 | the hashes of the empty string and of "a", the latter byte for byte as 32-bit FNV-1 has it |
| LockHash.XorBitsAt | src/lock_tracking.c:137 | a bit of an exclusive or is one exactly where the two numbers differ |
| LockHash.XorBitsWithNone | src/lock_tracking.c:137 | exclusive or with zero changes nothing, with itself gives zero |
| LockHash.MixIsPermutation | src/lock_tracking.c:135-140 | one step of the hash is a permutation of the 32-bit state, with its inverse given |
| LockHash.EqualTailKeepsStatesApart | src/lock_tracking.c:131-143 | hashing the same rest from two states gives the same hash if and only if the states were equal |
| LockHash.OneByteApartNeverCollide | src/lock_tracking.c:131-143 | strings that differ in exactly one byte never collide, whatever stands before and after |
| LockPrimitives.LockTypeExactly | src/lock_tracking.c:32-45 | a spelling is an acquire if and only if it is the first name of a default pair, a release if and only if it is the second name of one, never both, and nothing otherwise |
| LockTracking.ExtendKeepsWellFormed | src/lock_tracking.c:297-336 | splitting or reopening any selection of chains keeps the array a disjoint union of forward-linked chains, one start each, only tails open, starts in acquire order |
| LockTracking.ClosingKeepsWellFormed | src/lock_tracking.c:281-293 | closing any segments keeps that |
| LockTracking.AcquireKeepsWellFormed | src/lock_tracking.c:218-242 | a new chain for a later acquire keeps that |
| LockTracking.NeverCondProt | src/lock_tracking.c:355-361 | in such an array the conditional-protection test is false at every element |
| LockTracking.ProtectionFieldArray.constructor | src/lock_tracking.c:174-182 | an empty, well-formed array of the initial capacity |
| LockTracking.ProtectionFieldArray.AddLockProtectionField | src/lock_tracking.c:218-242 | appends one open start segment; doubles the capacity exactly when it is used up |
| LockTracking.ProtectionFieldArray.AddLockProtectionCopy | src/lock_tracking.c:244-269 | appends an unlinked copy that is no start; doubles the capacity one element early |
| LockTracking.ProtectionFieldArray.GetLinkedListEnd | src/lock_tracking.c:271-279 | ends at the tail of the same chain; the identity at an element without a successor |
| LockTracking.ProtectionFieldArray.SetProtectionRangeEnd | src/lock_tracking.c:281-293 | closes every open segment with the hash of the released lock at the given index, and changes nothing else |
| LockTracking.ProtectionFieldArray.AddProtectionRangeFieldsActive | src/lock_tracking.c:297-315 | splits every open segment at the branch start, in one pass over the old elements; the capacity stays exactly when nothing is open or all the new segments fit |
| LockTracking.ProtectionFieldArray.AddProtectionRangeFieldsInactive | src/lock_tracking.c:317-336 | continues every closed tail of the given depth by an open segment; same capacity clause |
| LockTracking.ExtensionLength | src/lock_tracking.c:297-336 | one new element for every selected one, which decides whether the array stays put |
| LockTracking.ProtectionFieldArray.GetLpFieldsInRange | src/lock_tracking.c:365-393 | reports exactly the segments that cover an index, each once, chain by chain in acquire order, never more than the array holds |
| LockTracking.MatchingProtectionFieldArrays | src/lock_tracking.c:406-448 | unequal counts are unprotected; otherwise every lock of the first must be found in the second before a segment cut by an if, which makes it uncertain; otherwise protected |
| LockRanges.AnnotateLockProtectionRanges | src/core.c:1044-1093 | the loop over a footprint leaves the array that the step function defines, with wrapping depth |
| LockRanges.FieldsAreWellFormed | src/core.c:1044-1093 | every reachable array is well formed, for every footprint |
| LockRanges.AcquiredBefore | src/core.c:1053-1059 | every segment belongs to an acquire so far and carries the hash of its lock |
| LockRanges.OneChainPerAcquire | src/core.c:1053-1059 | every acquire so far starts exactly one chain, and nothing else does |
| LockRanges.GrowsWhileSplitting | src/lock_tracking.c:301-313 | five acquires and an if make the array grow while its elements are being split |
| LockRanges.OpenInClosedForm | src/core.c:1052-1087 | a chain is open if and only if its acquire lies before and every release of it since has a depth-1 else behind it |
| LockRanges.ArrayFollowsMachine | src/core.c:1044-1093 | after every prefix of any footprint the tails follow the one-pass machine, and segments that reach into the future stand for ifs still in their condition |
| RangeQueries.AnswersAreFinal | src/lock_tracking.c:365-393 | later entries of a footprint never change what a query at an earlier index reports |
| RangeQueries.RangesRefineMachine | src/core.c:1044-1093 | at any entry but a then-block, a chain is reported if and only if the machine has it open before and after the entry, or had it open at an if whose condition the entry lies in |
| RangeQueries.CleanRangesAreTheMachine | src/core.c:1064-1083 | without releases and elses in conditions, reported means open before and after |
| RangeInvariants.SegmentsAreApart | src/lock_tracking.c:297-336 | where no else begins in a condition, each segment of a chain ends no later than the next one starts, after every prefix |
| RangeInvariants.ReportedOnce | src/lock_tracking.c:365-393 | then at most one segment of a chain covers an index, in the finished array |
| RangeInvariants.SegmentsAreOrdered | src/lock_tracking.c:297-336 | with no release and no else in a condition, each segment ends after it starts and before the next of its chain starts |
| RangeInvariants.DepthMeansCut | src/lock_tracking.c:303-335 | in every reachable array tails have depth zero, and a segment has a non-zero depth if and only if an if cut it |
| RangeInvariants.DeepElseChangesNothing | src/core.c:1075-1084 | an else at any nesting depth but one leaves the array unchanged |
| Verdict.ActiveAreTheShown | src/lock_tracking.c:411-420 | where no else begins in a condition, exactly one segment is reported for each lock that is held there or was open at an if in whose condition the entry lies |
| Verdict.ActiveAreTheHeld | src/lock_tracking.c:411-420 | without elses, releases in conditions and re-acquires, the hashes reported at an entry are exactly those of the held locks, one segment each |
| Verdict.VerdictIsRight | src/lock_tracking.c:406-448 | in two such footprints, protected means equal sets of held hashes, unprotected unequal ones, and uncertain that a segment of the second was cut |
| Verdict.VerdictExactly | src/lock_tracking.c:406-448 | in two such footprints, the second with a then-block behind every if: protected if and only if the held hashes are equal and no lock held in the second meets an if; uncertain if and only if equally many are held and one does; unprotected otherwise |
| Verdict.HeldOrdersAgreeExactly | src/lock_tracking.c:406-448 | without elses, releases in conditions and re-acquires, the order matters if and only if equally many locks are held and held locks meet an if in one function only |
| Verdict.OrdersAgreeExactly | src/lock_tracking.c:406-448 | where no else begins in a condition and every if has a then-block: the two orders give the same verdict if and only if different numbers of locks are shown, or each function's hashes are all matched in the other, or in neither and locks meet ifs in both or neither |
| Verdict.FateOfOpenSegment | src/core.c:1060-1074 | whether an open segment ends up open, released or cut is settled by which of a release and an if comes first |
| Verdict.CutExactly | src/lock_tracking.c:434-435 | where no else begins in a condition and every if has a then-block: some reported segment is cut if and only if some shown lock meets an if |
| Verdict.VerdictInGeneral | src/lock_tracking.c:406-448 | where no else begins in a condition and, in the second, every if has a then-block: unprotected if different numbers of locks are shown; else protected if and only if each hash shown in the first belongs to a shown lock of the second with no lock up to it meeting an if; else uncertain if some lock meets one, unprotected if none does |
| Verdict.HashesCountChains | src/lock_tracking.c:411-420 | as many hashes as locks are shown if and only if no hash is shown twice |
| Verdict.VerdictBySets | src/lock_tracking.c:406-448 | there, if no hash is shown twice in either: protected if and only if the shown hashes are equal and no shown lock of the second meets an if; uncertain if and only if equally many are shown and one does; unprotected otherwise |
| Verdict.MeetsIfPlainly | src/core.c:1085-1087 | where end-ifs close ifs, a lock meets an if exactly when an if comes before its release, or found it open and has the entry in its condition: no depth wraps around |
| Verdict.BranchFreeVerdict | src/lock_tracking.c:406-448 | without elses, releases in conditions and re-acquires, and no if in the second, the verdict is exactly the equality of the sets of held hashes |
| Verdict.BranchFreeVerdictIsSymmetric | src/lock_tracking.c:406-448 | for such footprints without ifs the order of the two functions does not matter |
| Verdict.HashesStandForUsrs | src/lock_tracking.c:349-353 | where the hash separates the held locks, equal hash sets mean equal sets of lock USRs |
| Executions.MustHoldExactly | src/core.c:1044-1093 | held on every execution if and only if all branches around the acquire are around the access and every release up to it lies in an opposite branch |
| Executions.ElseFreeRangesAreExact | src/core.c:1047-1092 | without elses, held on every execution if and only if reported, acquired in an enclosing branch, and not released before the access in the same condition |
| Executions.ConditionHidesRelease | src/core.c:1064-1074 | a footprint in which a lock released in a condition is reported behind the release |
| Executions.ReportedInClosedForm | src/core.c:1064-1083 | reported if and only if acquired before and each release since has a depth-1 else behind it, or open at an if in whose condition the access lies |
| Executions.ReportLooksPastReleases | src/core.c:1064-1083 | every release between an acquire and a place where its chain is reported has a depth-1 else behind it or lies in the same condition as that place |
| Executions.RangesAreRightExactly | src/core.c:1064-1084 | a report is right if and only if the acquire's branches enclose the access and each release looked past is opposite to it; a held lock is reported if and only if each release has a depth-1 else behind it or the access lies in a condition that found the lock open |
| Executions.FlatRangesMissNothing | src/core.c:1075-1084 | without nested ifs every lock held on all executions is reported |
| Executions.ElseReopensReleasedLock | src/lock_tracking.c:317-336 | a footprint in which a lock released before the if, and so held on no execution, is reported in the else-branch |
| Executions.NestedElseForgetsLock | src/core.c:1083 | a footprint in which a lock held in a nested else-branch is not reported |
| Reporting.GreedyIsMaximalMatching | src/core.c:1107-1154 | no entry is reported twice and every candidate pair has a reported endpoint |
| Reporting.FindVaOverlap | src/core.c:986-1012 | reports a greedy matching of the pairs of equal USR whose entries are reads, writes, escapes or lock calls, so that each such pair has a reported end; and nulls exactly the reported entries |
| Reporting.SharedAccessesAreReported | src/core.c:986-1012 | of any two entries of one USR that are accesses or lock calls one is reported, and no call entry, branch marker or null entry is |
| Reporting.OverlapCount | src/core.c:986-1012 | for every USR it reports the first with the first, the second with the second, and so on, exactly min of the two counts |
| Reporting.NothingLeftToReport | src/core.c:986-1012 | afterwards no live pair of equal USR is left, in either order |
| Reporting.BadProtection | src/core.c:1115-1121 | decides the badly protected pairs, including those of a function that takes no lock |
| Reporting.FindUnprotectedVa | src/core.c:1095-1158 | the same of the badly protected ones of those pairs as they stood at the start, each with its verdict |
| Reporting.BadlyProtectedAreReported | src/core.c:1107-1154 | with lock tracking the same holds of the badly protected pairs, and no other pair is reported |
| Reporting.EmptyIndexMeansNoLocks | src/core.c:1120-1121 | the array stays empty if and only if the footprint acquires nothing |
| Reporting.UnprotectedExactly | src/core.c:1112-1121 | where no else begins in a condition and, in the second, every if has a then-block: a pair of equal USR is a candidate if and only if different numbers of locks are shown, or some hash of the first is not matched in the second, or one function takes no lock at all |
| Reporting.UnprotectedBySets | src/core.c:1112-1121 | there, if no hash is shown twice: if and only if the shown hashes differ, or a lock meets an if in the second, or one function takes none |
| Reporting.BranchFreeUnprotected | src/core.c:1112-1121 | without elses, releases in conditions and re-acquires, and no if in the second: if and only if the held hashes differ or one function takes no lock |
| Reporting.UnlockedPairIsMissed | src/core.c:1120-1121 | two functions that access a variable before either takes its lock, which is not reported |
| Reporting.OrderMatters | src/lock_tracking.c:434-435 | two functions whose accesses under one lock are reported in one order and not in the other |
| Reporting.SameLocksAreReported | src/lock_tracking.c:411-420 | two functions whose accesses are made under the same lock, taken twice in one, which are reported |
| Reporting.DifferentLocksAreNotReported | src/lock_tracking.c:411-447 | two functions whose accesses are made under different locks, two each counting the repeated one, which are not reported |
| Reporting.StrayEndIfHidesIf | src/core.c:1085-1087 | a function with a stray end-if whose lock meets an if that no depth records, so that the verdict is protected |
| Comparisons.ComparisonKeepsRun | src/prong.c:248-279 | a comparison, whatever its candidates, keeps every report genuine, every entry in one report at most, and the nulled entries exactly the reported ones |
| Comparisons.AccessesDoNotProtect | src/core.c:1044-1093 | nulling live entries other than locks leaves the protection ranges as they were |
| Comparisons.LaterCandidates | src/core.c:1112-1121 | unless a lock entry was reported, a later comparison has its original candidates less the reported entries |
| Comparisons.RunConcludes | src/prong.c:248-279 | a complete run reports live pairs of one variable, no entry twice, and nulls exactly what it reports; without lock tracking, or if no original candidate has a lock entry at either end, it reports only original candidates and leaves none with both ends unreported; if one has a lock entry at both ends, a lock entry is reported |
| Comparisons.LockPairIsReported | src/core.c:1112-1121 | a run that reports no lock entry had no candidates with two of them |
| Comparisons.CompareAll | src/prong.c:248-279 | the double loop compares the ordered pairs of different functions row by row, and meets RunConcludes |
| Comparisons.NoOverlapIsLeft | src/prong.c:250-261 | without lock tracking no two functions are left with a live common variable |
| Comparisons.ReportedLockProtectsNoMore | src/core.c:1145-1146 | every run over three given functions reports a pair of accesses that was well protected at the start, after reporting a pair of lock entries |
| Comparisons.RunOverThree | src/prong.c:263-279 | such a run |
| CallForest.Visitor.ProcessFuncInfo | src/core.c:565-640 | one walk pushes a call entry and a callee for every USR not touched before, in order, sharing the touched list |
| CallForest.Visitor.TouchCallee | src/core.c:580-635 | touches the callee, and enters it only if it is defined outside the system headers |
| CallForest.TouchedIsPreorder | src/core.c:590-635 | the touched list grows by exactly the pre-order of the new callees |
| CallForest.ProcessRoots | src/prong.c:203-207 | all roots are walked in order with one touched list |
| CallForest.ForestIsComplete | src/core.c:565-640 | the touched USRs are exactly those reachable by a call from a root through expanded functions; each is one node of the forest |
| AccessFootprint.VisitIsPaired | src/core.c:602-621 | in the whole forest the k-th call entry names the k-th callee |
| AccessFootprint.VarAccessArr.constructor | src/var_access.c:66-76 | an empty block of the initial capacity |
| AccessFootprint.VarAccessArr.PushAccessCopy | src/var_access.c:121-136 | appends the entry; though the growth test compares bytes with a number of entries, one doubling always leaves room and the block stays within 128 times what is needed |
| AccessFootprint.BuildVarAccessFootprint | src/core.c:866-890 | appends the recursive in-order inlining of the tree, and never looks past the callees |
| AccessFootprint.InlinedDropsNull | src/core.c:885-887 | inlining without null entries is inlining everything and then dropping them |
| AccessFootprint.NullAloneIsDropped | src/core.c:885-887 | every entry that is not null stays, as often as it was there, and null entries go |
| AccessFootprint.InliningIsFlattening | src/core.c:565-640 | inlining the collected tree is flattening the program depth first |
| AccessFootprint.CalleeContributes | src/core.c:626-635 | a callee from a system header or without a definition contributes nothing, any other the flattening of its body |
| AccessFootprint.ResolveVarAccessAlias | src/core.c:693-723 | renames, to the call entry's USR, exactly the live entries with the USR that libclang gives for the call entry's parameter index |
| AccessFootprint.RenamedExactly | src/core.c:703-717 | an entry takes the new USR if and only if it is an access or lock call with the old one |
| AccessFootprint.AliasingStopsAtSystemHeader | src/core.c:803-818 | the k-th callee is aliased by the k-th call, up to the first callee from a system header, and no further |
| AccessFootprint.NoArgumentIsAliased | src/core.c:703-717 | every entry of a callee keeps its USR or gets the callee's own, never that of an argument |
| AccessFootprint.CalleeIsAliasedExactly | src/core.c:811-816 | the alias pass leaves a callee as it is or puts the callee's own USR where libclang's answer for no index stood; the latter if and only if no system-header callee precedes it or there is nothing to rename |
| AccessFootprint.SettleEntries | src/core.c:821-851 | turns the first arguments of locking functions into lock entries and of the others nulls exactly the accesses to locals that neither are pointers nor escape and the reads and writes of parameters |
| AccessFootprint.SettledExactly | src/core.c:821-851 | the same of one entry, wherever it is settled |
| AccessFootprint.UnwindFuncInfo | src/core.c:767-861 | aliasing, settling and recursion, in that order, on every expanded node |
| AccessFootprint.UnwindingKeepsShape | src/core.c:767-861 | unwinding keeps the tree, the number and place of entries, and every call and branch marker |
| AccessFootprint.ShapeKeepsPaired | src/core.c:871-880 | so call entries and callees stay paired |
| AccessFootprint.ShapeSettlesInlining | src/core.c:866-890 | and the inlinings before and after correspond entry by entry |
| AccessFootprint.FootprintIsFlattening | src/core.c:866-890 | the footprint of an unwound root is the flattening of its program, entry by entry and less the nulled ones, up to the USR and the settled type that unwinding may give an entry |
| ExactFootprint.FootprintExactly | src/core.c:767-890 | the footprint of a named and unwound root, nulled entries included, is one recursion over the program that renames and settles each entry where it is met; without them, its live part |
| RootFootprints.NameParameters | src/core.c:778-801 | parameter by parameter, renames the live entries whose USR starts with the parameter's after the argument |
| RootFootprints.NamedAfterFirst | src/core.c:785-794 | an access whose USR is a parameter's followed by anything is named after that parameter's argument, unless an earlier parameter is a prefix too, provided that the name given starts with no later parameter |
| RootFootprints.LeftAlone | src/core.c:785-794 | an entry that is no access, or starts with no parameter that has an argument, stays as it is |
| RootFootprints.EarlierParameterTakesOver | src/core.c:787-789 | two parameters, one a prefix of the other: an access to the second is named after the first argument |
| RootFootprints.NamingSettles | src/core.c:785-794 | naming changes nothing but the USRs of entries that are no markers |
| RootFootprints.UnwindRoot | src/core.c:767-861 | a root is named, then unwound |
| RootFootprints.FlatteningKeepsThens | src/core.c:866-890 | if in every body each if has a then-block behind it, then so it is in the flattening |
| RootFootprints.FootprintHasThens | src/core.c:1066-1068 | and in the footprint of every root, which is the settled flattening without nulls |
| RootFootprints.FlatteningFits | src/core.c:866-890 | if in every body an else has a then-block between it and the last if, then so it is in the flattening; and if moreover end-ifs close ifs in every body, they do in the flattening |
| RootFootprints.FootprintIsStructured | src/core.c:1066-1087 | then the footprint of every root has no else in a condition and a then-block behind every if; and, up to the size limit, only end-ifs that close ifs, if so it is in every body |
| FootprintShape.FittingIsBracketed | src/core.c:1085-1087 | end-ifs that close ifs never take the wrapping depth below zero, up to the size limit |
| FootprintShape.FittingHasNoElseInCondition | src/core.c:1075-1084 | if each else has a then-block between it and the last if, none begins in a condition |
| Tracing.PrintCallTrace | src/core.c:892-950 | prints the string array from bottom to top |
| Tracing.HoldsAccess | src/core.c:964-972 | finds the access among the node's own entries |
| Tracing.TraceVaOverlap | src/core.c:955-984 | prints the specified traces and leaves the string array as it was |
| Tracing.TracesExactly | src/core.c:955-984 | a trace is printed if and only if it is the names from the root to a visited node holding the access, with none above it holding it |
| Tracing.NothingPrintsBelow | src/core.c:967-970 | no node below a printing node prints |
| Tracing.FootprintIsTraced | src/core.c:955-984 | every entry of the footprint is printed at least once |
| AstVisitor.FuncVisitor.Visit | src/core.c:134-234 | one visit adjusts the ancestor stack, closes the ifs it leaves, and adds the node's markers and entries |
| AstVisitor.FuncVisitor.AdjustStack | src/core.c:145-175 | pushes the parent if it was visited last, else pops down to it, with an end-if for every if that goes |
| AstVisitor.FuncVisitor.AddEntries | src/core.c:196-234 | then-block, else or nothing, then an if marker, then the node's own entries |
| AstVisitor.FuncVisitor.VisitBelow | src/core.c:683-685 | the recursion over all nodes below |
| AstVisitor.VisitorRefinesBrackets | src/core.c:145-234 | the entries, and one end-if for every if left on the stack, are the recursively defined bracketing of the tree, also after an earlier function left its ifs on the stack; what a node adds of its own is said in VisitWritesBody |
| AstVisitor.StackIsPath | src/core.c:145-175 | at every visit the stack is the path to the parent with call nodes twice; without adjacent duplicates it is the path |
| AstVisitor.VisitedIfsHaveThens | src/core.c:196-234 | the entries of a visited body have a then-block behind every if, as the range pass needs |
| VisitedShape.VisitedElsesFit | src/core.c:196-234 | in the entries of a visited body each else has a then-block between it and the last if, and none begins in a condition |
| VisitedShape.VisitedIsBracketedExactly | src/core.c:145-175 | its end-ifs all close ifs if and only if no if of an earlier function was left on the stack |
| VisitedShape.EndIfGoesAstray | src/core.c:145-175 | a function without any if, visited after one that ends with an if, whose only entry is that end-if |
| VisitedAccesses.VisitCollectsAccesses | src/core.c:236-621 | less the branch markers, the entries a visit adds are the accesses of all nodes in pre-order, from any state |
| VisitedAccesses.VisitWritesBody | src/core.c:145-234 | with an end-if for every if left on the stack, the entries are the body written out branch by branch |
| VisitedAccesses.IfIsLaidOut | src/core.c:196-234 | an if is written as its marker, the condition, a then-block and the second child, an else and the third if there is one, and the end-if |
| VisitedAccesses.WrittenHasTheAccesses | src/core.c:196-621 | the part written for a node has exactly the accesses of its tree, so those of a branch lie behind that branch's marker and before the end-if |
| DynAos.DynamicAos.constructor | src/dyn_aos.c:16-30 | an empty array |
| DynAos.DynamicAos.GrowStrings | src/dyn_aos.c:73-82 | doubles the table of pointers and keeps the strings |
| DynAos.DynamicAos.GrowData | src/dyn_aos.c:85-98 | doubles the block, which may move anywhere, and rebases every pointer |
| DynAos.DynamicAos.UpdateOldStrings | src/dyn_aos.c:60-65 | shifts the first count pointers by the distance the block moved |
| DynAos.DynamicAos.PushString | src/dyn_aos.c:69-109 | appends one string, over as many doublings as it takes |
| DynAos.DynamicAos.StringAt | src/dyn_aos.c:178-184 | the i-th string, or nothing past the end, for an array that is not empty |
| DynAos.DynamicAos.PopString | src/dyn_aos.c:112-123 | removes exactly the last string, or reports an empty array |
| DynAos.DynamicAos.ContainsString | src/dyn_aos.c:148-158 | membership |
| DynAos.PackedAt | src/dyn_aos.c:103-106 | string i lies, with its terminator, where the lengths before it add up to |
| DynAos.PackedAppend | src/dyn_aos.c:103-106 | appending at the end leaves all earlier places alone |
| ThreadPool.RunKeepsInv | src/prong_thread_pool.c:26-105 | the protocol's invariant in every state of every interleaving of any number of threads |
| ThreadPool.MutualExclusion | src/prong_thread_pool.c:34-45 | at most one thread is between lock and unlock |
| ThreadPool.NothingClaimedTwice | src/prong_thread_pool.c:36-37 | no file is claimed or written twice; a write follows a claim; the counter is claims plus threads that gave up |
| ThreadPool.ExhaustionMeansAllClaimed | src/prong_thread_pool.c:39-43 | one exhausted thread means every file was claimed, and at the end every slot written |
| ThreadPool.AllWrittenExactly | src/prong_thread_pool.c:79-94 | when all threads are done, every slot is written if and only if there is no file, or fewer files than threads cannot be parsed, the last file aside |
| ThreadPool.FileIsLeftUnclaimed | src/prong_thread_pool.c:88-94 | a run of one thread over two files that leaves the second unclaimed |
| ThreadPool.RunsTerminate | src/prong_thread_pool.c:33-105 | a bound on the length of every run |
| ThreadPool.NoDeadlock | src/prong_thread_pool.c:33-105 | while some thread is not done, some thread can step |
| CallParser.ParseFuncCall | src/core.c:1307-1380 | error code and everything pushed, also on the error paths |
| CallParser.ParseArguments | src/core.c:1355-1377 | the loop over comma-separated arguments with nested parentheses |
| CallParser.SplitSemicolonList | src/core.c:1384-1409 | the items between semicolons, without leading blanks and empty ones |
| CallParser.CallRoundTrip | src/core.c:1303-1380 | parsing a printed call gives its name and its arguments, whatever white space is around them and whatever follows the last closing parenthesis; arguments that are missing between commas are dropped |
| CallParser.NestedIsGoodArg | src/core.c:1347-1358 | any text whose parentheses nest and whose commas lie inside them is one argument |
| CallParser.NoOpening | src/core.c:1313-1314 | a text without an opening parenthesis is a syntax error and nothing is pushed |
| CallParser.NoName | src/core.c:1316-1324 | so is one with only white space before it |
| CallParser.NoClosing | src/core.c:1326-1333 | with a name and no closing parenthesis behind the opening one it is a syntax error and the name has been pushed; with one it is none |
| CallParser.ListRoundTrip | src/core.c:1384-1409 | splitting a printed list of calls, with any blanks in front of each, gives back the printed calls, and each parses to its name and arguments |
| CallParser.SplitJoined | src/core.c:1399-1406 | splitting any list gives its items without the blanks in front, and drops those that are empty then |

## Left out

- libclang: cursors, USRs, locations and compile commands. Nodes carry unique ids, functions a USR, and what libclang answers about arguments, locals and parameters is a parameter of unwinding.
- The classification of an access as read, write or escape by its ancestors (src/core.c:247-558): an entry arrives classified.
- LockTracking.ProtectionFieldArray.AddProtectionRangeFieldsActive: what the C writes through its stale element pointer once the array has moved (src/lock_tracking.c:302-306); links are array indices, and the capacity clause says when the array does not move.
- LockTracking.ProtectionFieldArray.AddProtectionRangeFieldsInactive: the same.
- AccessFootprint.UnwindFuncInfo: trees of functions and their entries are values, so in-place update of a callee and sharing of strings are not captured.
- AccessFootprint.FootprintIsFlattening: leaves open what USR and type an entry ends up with; ExactFootprint.FootprintExactly says which.
- RootFootprints.NameParameters: how an artificial USR is put together (src/core.c:728-759) is a parameter; a root without parameters keeps its entries, where the C's bound on the parameter list wraps around.
- AccessFootprint.ResolveVarAccessAlias: the warning for a null function is not modelled; what libclang says about an argument with no index is a parameter.
- AstVisitor.VisitorRefinesBrackets: bodies whose calls are not expanded, since entering a callee continues on the caller's stack; ifs are taken to be tracked. An end-if that no later cursor triggers is missing from the entries, which is why the statement completes them.
- CallForest.Visitor.ProcessFuncInfo: a body is its accesses and calls in order; branch markers and the stack are in AstVisitor.
- LockRanges.AnnotateLockProtectionRanges: requires a then-block after every if; without one the C reads past the footprint. FootprintHasThens shows it for footprints built from bodies that have them, and VisitedIfsHaveThens for the bodies.
- The hashes of the locking and unlocking functions (src/lock_tracking.c:161-162), which nothing reads.
- DynAos.DynamicAos.StringAt: nothing is promised for an empty array, where the C's bound wraps around and the read is out of bounds.
- DynAos.DynamicAos.PopString: the model of the packed array does not capture null arguments or running out of memory; nor does any other member.
- ThreadPool.RunKeepsInv: what a thread does between claiming a file and writing its slot is not broken down; whether a file can be parsed does not depend on when.
- CallParser.ParseFuncCall: null arguments and running out of memory; the loop that trims and the loops that read arguments are methods of their own.
- Soundness of ranges after a join: the code does not decide it; RangesAreRightExactly says when a report is right.
- Comparisons.RunConcludes: between no original candidate with a lock entry and one with two, whether a lock entry is reported depends on the order of the comparisons, and is left open.
- get_end_of_branch_idx (unused), the lock-pairs option (parsed, then not consulted), find_exclusive_va_names, printing, option and glob handling, and freeing memory: easy or unrelated.
