# Verified core of a CDCL solver with an external propagator

A Dafny model of the parts of the CaDiCaL SAT solver whose correctness is a
statement about formulas and models: the online proof checker, the techniques
that remove clauses and repair models afterwards, conflict analysis under
chronological backtracking, the external propagator protocol, and the in-place
data structures for compacting variables and for priority queues.
`dafny verify dfyconfig.toml` checks everything.

Literals are nonzero integers, a clause is a sequence of literals, a formula a
set of clauses, a model the set of true variables (`Cnf`).  Clause objects are
named by their index in a store.  Flags, counters, stacks and tables of the
solver are sequences, maps and sets that methods rewrite step by step; where a
C++ method changes several members, they are grouped in one datatype, and the
class holds those.  A method is stated against its meaning: entailment,
reconstruction of models, fixpoints, permutations.

| module | contents |
|---|---|
| `Cnf`, `Arithmetic`, `Sorting`, `Watching`, `UnitPropagation` | clauses and models, sorting, watch lists, naive unit propagation |
| `CheckerWatches`, `CheckerTable`, `Checker` | proof checker: propagation, clause table, additions and deletions |
| `Extension` | extension stack and model reconstruction |
| `Resolution`, `Resolvents`, `Runs` | resolving two clauses, counting and adding the resolvents of a pivot, what all runs of these loops keep |
| `Propagation`, `Gates`, `GatesTernaryXor`, `GateSearch` | propagating units over occurrence lists, gate detection |
| `Removal`, `Attempts`, `Elim` | bounded variable elimination: saved clauses, the course of an attempt and of a round, the methods |
| `ElimFailure`, `RoundFailure` | data bases on which elimination with a gate loses models, and a round that gets to one |
| `Block`, `CoverWatches`, `Cover`, `Condition` | blocked, covered and globally blocked clauses |
| `ImplicationGraph`, `Decompose`, `Equivalences` | equivalent literals and their substitution |
| `Trail`, `Backtrack`, `Cuts`, `Analyze`, `Minimize` | conflict analysis; cuts of the implication graph |
| `Explain`, `ExternalClause`, `Notify` | external propagator |
| `Compact`, `Heap` | compaction, binary heap |

## Main results

- *Checker.* `Check` accepts every clause that has the reverse unit propagation
  property for the live clauses and only clauses that have it for the stored
  ones (garbage binary clauses are still propagated); over any run everything
  stored, every root-level literal and every accepted clause is entailed by the
  original clauses; a deletion is rejected if and only if the clause was not
  added more often than deleted (and is neither satisfied nor tautological).
- *Removal.* Elimination, blocked, covered and globally blocked clause
  elimination and the substitution of equivalent literals all end in the same
  statement, `Reconstructs`, and `WholeStackReconstructs` composes any sequence
  of them; `Extend` on the flat stack computes exactly that replay, and the flat
  stack decodes to one list of entries only.  If the internal assignment satisfies
  the final formula through the mapping of variables, the assignment given to the
  user satisfies the original one, and a variable in no witness keeps its value.
- *Elimination.* An attempt follows the program step by step (`Attempts.Attempt`:
  sorted lists, gate search, each pair counted and added in order, removal) and
  ends without elimination only for the reasons the code has.  Every such
  attempt loses no model, reconstructs if the gate defines the pivot (as it does
  without an if-then-else or exclusive-or gate, or if no live clause of the pivot
  is satisfied), removes the pivot, and adds clauses within the bound, apart from
  those that replaced a clause of the pivot.  `ElimRound` adds these up over any
  schedule: no eliminated variable comes back, growth is bounded by the sum, and
  the whole round reconstructs whenever no resolvent added before the last
  attempt is a unit, whatever gates are searched for.  `ElimPropagate` agrees with
  naive unit propagation: it ends in a conflict if and only if that derives one,
  and otherwise in a fixpoint.
- *Covered clauses.* If `CoverClause` keeps a clause that is not satisfied, what
  it added to the clause is a fixpoint: every covered literal that is not frozen
  has a resolution candidate that is not blocked, no further literal is in all of
  them, and no other live clause would add a literal or subsume.  So a clause that
  is blocked on such a literal, or subsumed, is always removed.
- *Equivalences.* The iterative search is proved to compute exactly the strongly
  connected components, by an invariant over working stack, component stack and
  search tree; representatives commute with negation; substituting them
  everywhere and saving two clauses per variable reconstructs.
- *Conditioning.* The refinement ends with a conditional autarky, or there is
  none at all inside the assignment it started from; below the limit this decides
  every candidate, and candidates are all live clauses with a true literal.
- *Analysis.* The learned clause is entailed, false, and has one literal on the
  conflict level; after backtracking to any level the code may choose, exactly
  that literal is unassigned, with literals kept out of level order and with
  external propagations whose reasons are still unknown: `ExplainAndAnalyze`
  first explains those the conflict depends on, no others, and that is all that
  analysis needs.  `Learn` gives the level of the flipped literal exactly.  The
  literal flipped is the first unique implication point, defined by cuts of the
  implication graph (`Cuts`) and not by the loop, and the other literals are
  exactly those on lower levels reached by then.  Minimization drops only literals
  that are redundant by a definition without cache, and all of them if the depth
  limit is not below the size of the trail.
- *Notification.* After each notification the list of a level is the subsequence
  of its part of the trail with exactly the observed literals that are not fixed,
  each once and with its sign.

## Findings

- The searches for if-then-else and exclusive-or gates leave out every assigned
  literal, true ones too (src/gates.cpp:275-291, src/gates.cpp:379-417), and a
  unit resolvent is assigned without propagation while resolvents are added
  (src/elim.cpp:471), so a live clause can be satisfied when the next pivot is
  tried.  What the searches return defines the pivot if and only if none of the
  clauses is satisfied (`IteGate`, `XorGate`).  `SpoiledGate` states for a family
  of data bases of each kind that the whole gate search ends with clauses that do
  not define the pivot, and `EliminationFails` that `TryToEliminateVariable` then
  eliminates it and what it pushes does not repair every model of what is left.
  `RoundLosesModels` is a whole round that gets there: from a data base without
  satisfied clauses `ElimRound` eliminates two variables, the first one leaves a
  satisfied clause, and the round does not reconstruct.  It has the searches for
  equivalences and AND gates switched off, which would find the first unit; the
  backward subsumption left out here looks at added clauses only, of which there
  are none before the second pivot.  A single attempt is safe if no live clause
  with the pivot's variable is satisfied, and a round is if no resolvent added
  before the last attempt is a unit (`TryToEliminateVariable`, `ElimRound`).
- Without chronological backtracking but with a propagator connected the solver
  may return to a level above the jump level (src/analyze.cpp:495) and then puts
  the flipped literal there (src/propagate.cpp:85-86), above all other literals
  of the learned clause.  It is on their highest level if and only if
  chronological backtracking is on, the clause is a unit, or the level returned
  to is the jump level (`Learn`); `FlippedAbove` is a conflict where it is not.
- The search for if-then-else gates takes the first other literal of the earlier
  clause as condition (src/gates.cpp:330-349), so it passes over a gate whose
  condition comes last there (`ConditionLastMissed`); `FindIfThenElse` states
  exactly when one is found.  This costs gates, not correctness.
- `find` with a table of size zero violates the assertion of `reduce_hash`
  (src/checker.cpp:271-282).  `DeleteClause` ends that way if and only if the
  clause is not ignored and the table has no chains, as for the first deletion
  in a fresh checker (`FreshDeletion`); `DeletionAllowed` shows that it cannot
  happen for a clause that was added and not yet deleted.
- In `backtrack` the number of literals kept is counted only in logging builds
  (src/backtrack.cpp:119-121, src/backtrack.cpp:138-141), so otherwise the
  listener is not told about them again.  Its lists are complete afterwards if
  and only if no observed literal of a level that stays, and that is not fixed,
  was assigned after the next level had been opened (`MissedIffKept`);
  `MissedRun` is a run in which one is missed.  The next notification repairs
  the lists (`NotifiedExactly`).
- Explaining an external propagation can move a literal to the root level
  (src/external_propagate.cpp:451-455), about which the listener is told at once
  although the literal stays in its lists.  The lists hold no fixed literal
  afterwards if and only if no literal notified before was moved
  (`MirrorIffNoneMoved`, `ExplainedRunMirrors`).
- Counters of frozen variables (src/compact.cpp:284-293) are added up correctly
  if and only if no dropped variable whose index is reused has a count
  (`CountsConserved`); in `CountNotConserved` a count of 1 becomes 6.

## Model

| member | source | states |
|---|---|---|
| `UnitPropagation.FixpointClosed` | src/checker.cpp:364-413 | a fixpoint contains everything naive unit propagation derives, in any order, and no conflict |
| `UnitPropagation.RupSound` | src/checker.cpp:415-424 | a clause whose negation propagates to a conflict holds in every model |
| `Watching.ListUnwatched` | src/checker.cpp:401-404 | replacing a watch keeps every other watch list correct and makes that of the replacement correct |
| `CheckerWatches.VisitLong` | src/checker.cpp:384-408 | visiting a clause through its false watch: satisfied, replaced by a literal that is not false, unit, or falsified; literals only permuted |
| `CheckerWatches.VisitWatch` | src/checker.cpp:374-408 | one watch: lists stay correct and complete, no deleted clause is reached, root-level coverage survives, every assignment is a unit and every conflict a falsified clause |
| `CheckerWatches.SettledFixpoint` | src/checker.cpp:364-413 | once every false watch has been visited the assignment is a unit propagation fixpoint for all live clauses |
| `Checker.Checker.Propagate` | src/checker.cpp:364-413 | true: fixpoint for the live clauses; false: a stored clause is falsified; every literal is derived by unit propagation; clauses only reordered |
| `Checker.Checker.Backtrack` | src/checker.cpp:342-357 | the trail is cut to its earlier length and the values agree with it |
| `Checker.Checker.Check` | src/checker.cpp:415-424 | accepts if the live clauses and units give a conflict by unit propagation, and only if the stored clauses and units do; assignment and root-level fixpoint are restored |
| `Checker.CheckMeaning` | src/checker.cpp:415-424 | a consistent fixpoint that falsifies the clause refutes every naive derivation of a conflict |
| `Checker.Checker.RootFixpoint` | src/checker.cpp:342-413 | between calls the root-level assignment is a fixpoint for all live clauses |
| `CheckerTable.Tautological` | src/checker.cpp:252-267 | true exactly for complementary literals or a true literal; otherwise the canonical order of the same set of literals |
| `CheckerTable.CanonicalUnique` | src/checker.cpp:242-267 | the order by variable and sign of a set of literals is unique, so hashing does not depend on the given order |
| `CheckerTable.ComputeHash` | src/checker.cpp:284-293 | the loop with rotating nonces computes the 64-bit hash function |
| `CheckerTable.ReduceHash` | src/checker.cpp:271-282 | the folded hash is the chain number, below the size of the table |
| `CheckerTable.Enlarge` | src/checker.cpp:82-101 | twice the chains; each live clause is exactly once in its chain |
| `CheckerTable.Find` | src/checker.cpp:295-314 | finds a clause with the same literals in any order if and only if there is a live one |
| `CheckerTable.InsertInTable` | src/checker.cpp:316-323 | the new clause is entered, enlarging if full; chains, hashes and count stay exact |
| `Checker.PickWatches` | src/checker.cpp:52-61 | a permutation whose first two literals are not false |
| `Checker.Checker.Insert` | src/checker.cpp:316-323 | the clause is stored, watched and counted; all invariants kept |
| `Checker.Checker.AddClause` | src/checker.cpp:428-457 | falsified, unit, or inserted: an entailed clause keeps all invariants or shows the originals unsatisfiable |
| `Checker.Checker.AddOriginalClause` | src/checker.cpp:459-472 | everything stored and assigned stays entailed by the originals; `inconsistent` means they are unsatisfiable |
| `Checker.Checker.AddDerivedClause` | src/checker.cpp:474-494 | accepted clauses are entailed by the originals; clauses that unit propagation over the live clauses confirms are accepted; a rejected clause changes nothing but the order of literals |
| `Checker.Checker.DeleteClause` | src/checker.cpp:498-531 | found if and only if satisfied, tautological, or added more often than deleted; the empty table is hit if and only if the clause is none of the first two and the table has no chains; counters exact; garbage is at most half of the larger of the two sizes after a deletion |
| `Checker.FreshDeletion` | src/checker.cpp:498-504 | in a fresh checker the deletion of any clause that is not tautological hits the empty table |
| `Checker.Checker.DeletionAllowed` | src/checker.cpp:295-300 | a clause added and not deleted is ignored or meets a nonempty table |
| `Checker.Checker.MoveToGarbage` | src/checker.cpp:506-515 | from its chain to the garbage list with both counters exact |
| `Checker.Checker.CollectGarbage` | src/checker.cpp:116-157 | exactly the satisfied and garbage clauses are deleted; no watch or chain refers to a deleted clause; the multiset of clauses is unchanged |
| `Checker.FlushWatchers` | src/checker.cpp:138-150 | watches of garbage clauses disappear, all others stay |
| `Checker.BookedInsert` | src/checker.cpp:316-323 | the table holds each clause as often as added and not deleted |
| `Checker.BookedDelete` | src/checker.cpp:506-515 | likewise after a deletion |
| `Extension.ForceAllMeaning` | src/extend.cpp:140-158 | replaying a consistent witness makes exactly its literals true |
| `Extension.RemovalReconstructs` | src/extend.cpp:94-165 | a clause with a witness may be removed if nothing else is lost and forcing the witness repairs every model that falsifies it |
| `Resolution.ClauseRemoval` | src/extend.cpp:94-165 | the same for a clause of the data base, in any order of its literals |
| `Extension.ReconstructsCompose` | src/extend.cpp:94-165 | two justified removals in sequence are repaired by replaying both |
| `Extension.WholeStackReconstructs` | src/extend.cpp:94-165 | one backward pass over the whole stack turns every model of the final formula into a model of the original one |
| `Extension.ReplayOther` | src/extend.cpp:140-158 | the replay leaves every variable alone that is in no witness |
| `Extension.EncodeInjective` | src/extend.cpp:38-80 | the flat zero-separated stack decodes uniquely |
| `Extension.External.StackDecodes` | src/extend.cpp:38-80 | the flat stack is the encoding of the entries pushed and of no others |
| `Extension.External.Init` | src/external.cpp:36-73 | new external variables are mapped to fresh internal ones, mapped ones stay |
| `Extension.External.PushExternalClauseAndWitness` | src/extend.cpp:65-80 | appends one entry to the flat stack and maps variables that are new |
| `Extension.External.PushClause` | src/extend.cpp:46-50 | appends the clause with the pivot as witness |
| `Extension.External.PushBinaryClause` | src/extend.cpp:52-60 | appends the binary clause with its first literal as witness |
| `Extension.External.ReplayEntry` | src/extend.cpp:127-159 | one entry read backwards: the witness is flipped if and only if the clause is false |
| `Extension.External.Extend` | src/extend.cpp:94-165 | the loop computes the replay of all entries; a variable in no witness has the value of its internal literal; if the internal values satisfy a formula through the mapping, the imported assignment is a model of it, and the final one of every formula the stack reconstructs from it |
| `Extension.External.TraverseWitnessesBackward` | src/extend.cpp:169-188 | visits exactly the entries, last first, until the iterator stops |
| `Extension.External.TraverseWitnessesForward` | src/extend.cpp:190-212 | visits exactly the entries in the order pushed |
| `Resolution.Classify` | src/elim.cpp:232-365 | the marks-based resolution: satisfied antecedent, tautology, empty, unit, subsuming, or exactly the resolvent without duplicates and false literals |
| `Resolution.ReplayPivot` | src/extend.cpp:94-165 | replaying entries whose witnesses are the pivot's literals changes the pivot only, by the first falsified entry |
| `Resolution.PivotRepaired` | src/elim.cpp:490-541 | replaying the saved clauses of both phases satisfies all clauses of the pivot |
| `Resolvents.ResolveClauses` | src/elim.cpp:232-365 | exactly what a pair of clauses does to the data base (unit, strengthened, removed, resolvent), and that this preserves the models over the other variables; a pair that yields no resolvent never will |
| `Resolvents.ListsFollow` | src/elim.cpp:78-89 | connecting every new clause keeps the occurrence lists correct and complete |
| `Resolvents.AddResolvents` | src/elim.cpp:444-486 | the pairs are resolved in order, with gates only gate with non-gate pairs; every resolvent is implied by what is kept; at most the counted resolvents are added, within the size limit, and connected |
| `Resolvents.ResolventsAreBounded` | src/elim.cpp:376-440 | counting changes no model and goes through the pairs in order; success means that all pairs but at most the bound will yield no resolvent and those few are within the size limit; otherwise the pair at which it stopped assigned the pivot, exceeded the bound or was too long |
| `Runs.CountRunKeeps` | src/elim.cpp:400-435 | every run of the counting loop brings in no literal, leaves no clause satisfied that was not, and each clause it adds replaces a clause of the pivot |
| `Runs.AddRunKeeps` | src/elim.cpp:465-483 | every run of the adding loop brings in no literal, and leaves clauses satisfied only if it assigns a unit |
| `Elim.Eliminator.MarkEliminatedClausesAsGarbage` | src/elim.cpp:490-541 | removes all clauses of the pivot and empties its lists; saves the gate clauses, or all of them without a gate |
| `Removal.EliminationReconstructs` | src/elim.cpp:445-541 | from any model of the rest and the resolvents, replaying only the saved clauses satisfies every removed clause |
| `Elim.Eliminator.EliminateVariable` | src/elim.cpp:445-541 | resolving and removing keeps the models, drops the pivot, and reconstructs if the gate determines the pivot |
| `Elim.Eliminator.TryToEliminateVariable` | src/elim.cpp:547-592 | the course of the attempt, or the formula is unsatisfiable; it reconstructs if the gate used defines the pivot, which holds unless an if-then-else or exclusive-or gate with a satisfied clause was used; the pivot is gone; clauses grow by at most the bound and those shortened, which are at most the clauses of the pivot |
| `Removal.FewLive` | src/elim.cpp:376-393 | what is live after elimination was live before without the pivot, or was added |
| `Attempts.AttemptReconstructs` | src/elim.cpp:547-592 | every course of an attempt whose gate defines the pivot reconstructs |
| `Attempts.AttemptDefined` | src/elim.cpp:577-582 | the gate defines the pivot if no live clause of the pivot, or none at all, is satisfied before, and without the last two searches |
| `Attempts.AttemptKeeps` | src/elim.cpp:547-592 | no attempt loses a model or brings in a literal; one that adds no unit leaves a clean data base clean |
| `Attempts.AttemptGrowth` | src/elim.cpp:376-393 | the number of live clauses grows by at most the bound and the clauses shortened, at most one for each clause of the pivot |
| `Attempts.RoundReconstructs` | src/elim.cpp:723-740 | a round of attempts that all define their pivots reconstructs with all entries pushed |
| `Attempts.RoundDefined` | src/elim.cpp:723-740 | from a clean data base all do, if no resolvent added before the last attempt is a unit |
| `Attempts.RoundEliminates` | src/elim.cpp:723-740 | at the end of a round no eliminated variable occurs in any clause or unit |
| `Attempts.RoundGrowth` | src/elim.cpp:723-740 | the number of live clauses grows by at most the sum over the attempts |
| `Elim.Eliminator.ElimRound` | src/elim.cpp:618-745 | from any data base, any schedule of pivots: one attempt after the other from the clauses not satisfied; the round reconstructs if every gate used defined its pivot, so if no resolvent added before the last attempt is a unit; nothing eliminated comes back, growth is within the sum of the bounds, no model is lost |
| `Elim.Eliminator.FindGateClauses` | src/gates.cpp:508-522 | what is found defines the pivot, for the last two searches if and only if none of the clauses is satisfied; what an earlier search did not find is not there; which of the last two succeeds when the first ones find nothing; satisfied clauses do not appear |
| `Propagation.ElimPropagate` | src/elim.cpp:125-171 | propagating a unit keeps the models and leaves no clause satisfied that was not so before; everything assigned is derived by naive unit propagation; if only clauses with the negated unit are ready and the lists are complete, it is unsatisfiable if and only if naive unit propagation derives a conflict, and otherwise ends in a fixpoint |
| `Propagation.QuiescentFixpoint` | src/elim.cpp:125-171 | when no clause is unit or empty under the units, these are a fixpoint of naive unit propagation on the clauses as they were before, and there is no conflict |
| `Gates.MarkBinaryLiterals` | src/gates.cpp:54-89 | each marked literal has a live binary clause with the given one, and every such literal is marked |
| `Gates.EquivalenceGate` | src/gates.cpp:103-162 | two binary clauses in opposite phases force the pivot exactly one way |
| `Gates.FindEquivalence` | src/gates.cpp:103-162 | hyper units keep the models; the gate found defines the pivot; if none is found and no unit, no two live binary clauses are one; nothing changes when no clause of the pivot is recognised as satisfied or paired |
| `Gates.AndGate` | src/gates.cpp:170-271 | a base clause and its side clauses force the pivot exactly one way |
| `Gates.FindAndGate` | src/gates.cpp:170-271 | the gate found defines the pivot; if none is found, no live clause is the base of one; nothing changes when no clause of the pivot is recognised |
| `GatesTernaryXor.FindClause` | src/gates.cpp:391-417 | a live clause whose unassigned literals are exactly the given ones if and only if there is one |
| `GatesTernaryXor.IteGate` | src/gates.cpp:318-375 | the four clauses define the pivot if and only if none is satisfied at the root level |
| `GatesTernaryXor.FindIfThenElse` | src/gates.cpp:318-375 | returns such clauses if and only if two listed clauses can be completed with the first other literal of the earlier one as condition |
| `GatesTernaryXor.ConditionLastMissed` | src/gates.cpp:330-349 | four clauses that have the form of an if-then-else with its condition last are passed over, whatever the order of the lists |
| `GatesTernaryXor.XorGate` | src/gates.cpp:419-499 | the clauses of one parity define the pivot if and only if none is satisfied at the root level |
| `GatesTernaryXor.FindXorGate` | src/gates.cpp:419-499 | the enumeration of sign vectors of even parity returns such clauses if and only if there are any up to the size limit |
| `GatesTernaryXor.Reordered` | src/gates.cpp:443-458 | which clauses have even parity does not depend on the order of the literals |
| `ElimFailure.SpoiledGate` | src/gates.cpp:508-522 | the whole gate search takes a satisfied clause for a gate clause and returns the four clauses that do not define the pivot, for a family of data bases for each of the last two searches |
| `ElimFailure.EliminationFails` | src/elim.cpp:547-592 | on these data bases the attempt eliminates the pivot and what it pushes does not repair every model of what is left |
| `ElimFailure.SpoiledAttempt` | src/elim.cpp:547-592 | the same for every course of the attempt, with the model |
| `ElimFailure.SpoiledExample` | src/gates.cpp:275-291 | six clauses and one unit are such a data base |
| `RoundFailure.FirstAttempt` | src/elim.cpp:444-486 | from a clean data base the attempt on the first pivot assigns 9 while adding and leaves a satisfied clause |
| `RoundFailure.RoundLosesModels` | src/elim.cpp:618-745 | the round over both pivots eliminates them and does not reconstruct |
| `Block.SearchClause` | src/block.cpp:82-121 | finds a clashing literal and moves it to the front, or restores the order exactly |
| `Block.IsBlockedClause` | src/block.cpp:39-143 | true if and only if all resolvents are tautologies; the list is restored when blocked, else the witness is moved to its front; clauses only reordered |
| `Block.Candidates` | src/block.cpp:412-458 | exactly the live clauses within the limits with a literal negated in some negative clause |
| `Block.BlockedIsCandidate` | src/block.cpp:412-458 | the filter loses no blocked clause |
| `Block.Impossible` | src/block.cpp:466-501 | true if and only if some negative clause clashes with no candidate |
| `Block.ImpossibleMeansNone` | src/block.cpp:466-501 | then no candidate is blocked |
| `Block.BlockedRemoval` | src/block.cpp:582-586 | removing a blocked clause reconstructs with its literal |
| `Block.BlockMany` | src/block.cpp:507-596 | removes exactly the clauses within the limits all of whose resolvents are tautologies |
| `Block.BlockOne` | src/block.cpp:283-404 | the same with the single negative clause marked instead |
| `Block.BlockPure` | src/block.cpp:239-277 | all clauses of a pure literal are removed |
| `Block.Blocker.BlockLiteral` | src/block.cpp:648-688 | up to the occurrence limit the fast search equals the naive definition and beyond it nothing changes; what it pushes reconstructs |
| `Cover.Intersection` | src/cover.cpp:204-278 | marking and unmarking computes the exact intersection of the candidates that are not blocked, or that there is none |
| `CoverWatches.FindReplacement` | src/cover.cpp:138-149 | a literal that is not false searched from the saved position, or all are false |
| `CoverWatches.AllVisited` | src/cover.cpp:101-173 | when all false watches have been visited, every other live clause has a true literal or two that are not false |
| `Cover.Coveror.PropagateAsymmetric` | src/cover.cpp:101-173 | added literals are false whenever the covered clause is; subsumption means the covered clause holds; watch lists stay correct; every clause watched by the literal has been visited |
| `Cover.Coveror.PropagateCovered` | src/cover.cpp:178-304 | blocked, or the clause is extended by the intersection; the saved entries still repair the original clause; nothing is added only if the literal is frozen or some candidate is not blocked and no new literal is in all of them |
| `Cover.CoveredStep` | src/cover.cpp:62-77 | a covered literal addition keeps the repair property |
| `Cover.BlockedStep` | src/cover.cpp:284-288 | a blocked extended clause is repaired by the saved entries |
| `Cover.AsymmetricStep` | src/cover.cpp:81-93 | an asymmetric literal follows from the other clauses |
| `Cover.Coveror.CoverClause` | src/cover.cpp:308-393 | the candidate is removed only if replaying what was pushed turns every model of the other clauses into a model of all; if it is kept, the literals added are a fixpoint of both extensions; it is removed if blocked on a literal that is not frozen, or if subsumed; the assignment is restored; for asymmetric literals both watches are listed and not false at the root level, as connecting the watches gives it |
| `Cover.StuckNotBlocked` | src/cover.cpp:342-351 | at such a fixpoint the clause is not blocked on any literal that is not frozen |
| `Cover.NotSubsumed` | src/cover.cpp:342-351 | nor is it subsumed by another live clause |
| `Condition.GloballyBlocked` | src/condition.cpp:466-814 | for a conditional autarky, forcing its autarky part repairs every model that falsifies the candidate |
| `Condition.BlockedReconstructs` | src/condition.cpp:758-776 | removing the candidate with the remaining autarky literals as witness reconstructs |
| `Condition.Conditioner.Prepare` | src/condition.cpp:275-385 | watches and the initial conditional part cover every clause touched by the assignment; each initial conditional literal is one because of some clause; exactly the clauses satisfied at the root level are dropped, and the candidates are the other live clauses with a true literal, in order |
| `Condition.Conditioner.ProcessUnassigned` | src/condition.cpp:593-685 | each clause watched by an unassigned literal gets another true watch or its negated literals become conditional |
| `Condition.Conditioner.Refine` | src/condition.cpp:541-700 | the nested loops end with a conditional autarky that keeps an autarky literal of the candidate; giving up means that there is none inside the initial assignment for the clauses collected; at most one step for each literal of the assignment |
| `Condition.GivenUp` | src/condition.cpp:541-700 | the refinement keeps every conditional autarky inside it, so none is left when the candidate has no autarky literal |
| `Condition.Conditioner.Restore` | src/condition.cpp:785-812 | assignment, marks and watch coverage are as before the candidate |
| `Condition.Conditioner.TryCandidate` | src/condition.cpp:466-814 | a removed candidate has a conditional autarky and is reconstructed by its witness; one that is kept within the limit has none; everything is restored |
| `Condition.Conditioner.TryCandidates` | src/condition.cpp:466-814 | the whole sequence of candidates reconstructs; within the limit each is a reason, removed or without conditional autarky, and nothing else is removed |
| `ImplicationGraph.ReachSkew` | src/decompose.cpp:54-191 | reachability is skew-symmetric |
| `ImplicationGraph.ComplementSuffices` | src/decompose.cpp:119-132 | a component with any complementary pair contains the negation of each of its literals, so testing one suffices |
| `ImplicationGraph.EquivSameValue` | src/decompose.cpp:54-191 | literals of one component have the same value in every model |
| `Decompose.EnterInvariant` | src/decompose.cpp:167-187 | the first visit keeps the invariant of the search |
| `Decompose.CloseInvariant` | src/decompose.cpp:158-165 | so does the last visit of a literal that is not an entry |
| `Decompose.LowChain` | src/decompose.cpp:92-105 | no finished literal above an entry reaches below it |
| `Decompose.ComponentIsClass` | src/decompose.cpp:105-156 | what is popped at an entry is exactly one strongly connected component |
| `Decompose.NewMin` | src/decompose.cpp:92-100 | the minimum over the children that are not traversed |
| `Decompose.ScanComponent` | src/decompose.cpp:113-132 | whether the negation of the entry is in the component, and its literal with the smallest variable |
| `Decompose.PopComponent` | src/decompose.cpp:138-152 | pops exactly the component and assigns representatives; frozen literals represent themselves |
| `Decompose.PostFix` | src/decompose.cpp:85-165 | one last visit, also of a literal finished before, keeps the invariant and the representatives |
| `Decompose.Search` | src/decompose.cpp:57-190 | one depth first search terminates and traverses its root |
| `Decompose.DecomposeRound` | src/decompose.cpp:54-191 | exactly the active literals get a representative and are not equivalent to their negation, or the formula is unsatisfiable |
| `Decompose.ReprNegation` | src/decompose.cpp:54-191 | the representative of the negation is the negation of the representative |
| `Decompose.ReprSameValue` | src/decompose.cpp:138-152 | literal and representative agree in every model; frozen literals are kept |
| `Equivalences.Substitute` | src/decompose.cpp:236-258 | the rewritten clause has the same value in every model, without duplicates, false or complementary literals |
| `Equivalences.SearchGivesMap` | src/decompose.cpp:138-152 | representatives represent themselves and commute with negation |
| `Equivalences.SubstituteAll` | src/decompose.cpp:207-324 | after all clauses only representatives are left, and the same models that respect the equivalences |
| `Equivalences.PushEquivalences` | src/decompose.cpp:348-358 | two entries for each variable that is substituted |
| `Equivalences.EquationsMeaning` | src/decompose.cpp:348-358 | replaying them gives every literal the value of its representative |
| `Equivalences.SubstitutionReconstructs` | src/decompose.cpp:207-358 | hence every model of the substituted clauses becomes one of the original clauses |
| `Equivalences.SubstituteEquivalences` | src/decompose.cpp:24-358 | search, substitution and saved equivalences together reconstruct and lose no model, or the formula is unsatisfiable; only representatives are left in clauses, and replaying what was saved copies their values |
| `Trail.AssignmentLevel` | src/propagate.cpp:39-54 | the highest level of the other literals of the reason |
| `Trail.Search.SearchAssign` | src/propagate.cpp:58-112 | keeps the trail invariant; the level is the highest of the other literals, without chronological backtracking the current one; a literal forced by root-level literals becomes a unit |
| `Trail.Search.AssignExternal` | src/propagate.cpp:75-87 | an external propagation with unknown reason is on the current level and keeps the trail invariant |
| `Trail.NoPlaceholders` | src/analyze.cpp:623-625 | without unexplained literals on the trail every falsified clause is ready for analysis |
| `Trail.Search.AssignUnit` | src/propagate.cpp:123-126 | learned units are on level zero wherever they are on the trail |
| `Trail.Search.AssumeDecision` | src/propagate.cpp:131-139 | opens a level and assigns its decision there, without a reason |
| `Backtrack.Compact` | src/backtrack.cpp:80-124 | the two-index loop keeps exactly the literals up to the level, in order, with new positions |
| `Backtrack.BacktrackCorrect` | src/backtrack.cpp:72-145 | reasons stay earlier on the trail and on levels not above; exactly the literals up to the level stay assigned |
| `Backtrack.BacktrackTo` | src/backtrack.cpp:72-145 | the whole operation keeps the trail invariant |
| `Analyze.ConflictLevel` | src/analyze.cpp:415-443 | the highest level of the conflict, and its literal there if it is the only one |
| `Analyze.MoveHighest` | src/analyze.cpp:445-478 | a permutation with literals of the two highest levels first |
| `Analyze.AnalyzeLiteral` | src/analyze.cpp:225-246 | `open` counts the seen literals of the level before the current position |
| `Analyze.AnalyzeReason` | src/analyze.cpp:248-256 | all literals of the reason are accounted for |
| `Analyze.HasReason` | src/analyze.cpp:706-719 | while another literal is pending the current one is not the decision |
| `Cuts.ReachedBack` | src/analyze.cpp:706-719 | expanding one literal reaches its reason and nothing else in addition |
| `Cuts.AllReachedResolve` | src/analyze.cpp:706-719 | resolving with the reason of a seen literal keeps the seen literals exactly those reached |
| `Analyze.Derive` | src/analyze.cpp:697-721 | the loop terminates; the clause is entailed; its literal on the conflict level is the negated first unique implication point, and the others are exactly those on lower levels that are reached from the conflict without passing it |
| `Analyze.DrivingClause` | src/analyze.cpp:366-405 | the literal of the conflict level first, jump level the highest of the others |
| `Analyze.BacktrackLevel` | src/analyze.cpp:489-563 | at least the jump level and below the current one; the jump level itself with neither chronological backtracking nor a propagator, and which of both as the options say; when the trail is reused, the level in whose part of the trail the best variable above the jump level is, below the current one |
| `Analyze.OnlyTopUnassigned` | src/analyze.cpp:766-772 | backtracking to any such level leaves exactly that literal unassigned |
| `Analyze.Force` | src/analyze.cpp:638-657 | a single highest literal is forced by the conflict itself, on the highest level of the others or on the level returned to |
| `Analyze.Learn` | src/analyze.cpp:697-772 | learned clause entailed and cut at the first implication point, only redundant literals missing and none without minimization; all but its first literal still false on their levels after backtracking, that one then true on the jump level or the level returned to; on the highest level of the others if and only if chronological backtracking is on, the clause is a unit or these two levels agree |
| `Analyze.FlippedAbove` | src/analyze.cpp:489-563 | a conflict, with a propagator and without chronological backtracking, after which the flipped literal is above all others |
| `Analyze.AnalyzeConflict` | src/analyze.cpp:609-772 | a conflict that depends on no unexplained literal ends in the empty clause if and only if it has no literal above the root level, in a forced literal if and only if one is highest and levels may be out of order, and otherwise in a clause learned at the first implication point of the conflict level; the trail invariant is kept |
| `Minimize.MinimizeLiteral` | src/minimize.cpp:17-42 | a literal reported removable is implied by the kept ones and redundant by the definition without cache, one refused within the depth limit is not, apart from the test of the level; literals of the current level never are; recursion goes down the trail |
| `Minimize.KeepEntailed` | src/minimize.cpp:65-82 | dropping implied literals keeps the clause entailed |
| `Minimize.MinimizeClause` | src/minimize.cpp:65-101 | an entailed subset that still holds the implication point; every literal dropped is redundant given those kept, and within the depth limit no literal kept is; all flags are cleared |
| `Explain.ExplainReason` | src/external_propagate.cpp:374-398 | afterwards every literal of the clause is root-level, a decision, or seen with a real reason |
| `Explain.Collect` | src/external_propagate.cpp:415-437 | `open` ends at zero and everything the conflict depends on has been explained, and nothing else |
| `Explain.MaxOtherMeaning` | src/external_propagate.cpp:445-450 | the computed level is the maximum of the others |
| `Explain.Repair` | src/external_propagate.cpp:440-457 | from lower to higher positions every level becomes the maximum of the others in its reason; all seen flags are cleared |
| `Explain.ExplainExternalPropagations` | src/external_propagate.cpp:415-464 | both passes together: only placeholder reasons on a path of reasons from the conflict change, levels agree with the reasons, root-level literals stay there, the trail invariant is kept, and the conflict is ready for analysis |
| `Explain.NoPlaceholderReachable` | src/external_propagate.cpp:415-464 | no literal on any path of reasons from the conflict still has the placeholder |
| `Explain.ExplainAndAnalyze` | src/analyze.cpp:623-772 | explaining and analyzing a conflict on a trail with unexplained literals, near the conflict or away from it; outcome and learned clause are those of the explained trail |
| `ExternalClause.ReadClause` | src/external_propagate.cpp:230-299 | skipped exactly if tautological or satisfied at the root level, else the distinct literals that are not fixed |
| `ExternalClause.ReadEquivalent` | src/external_propagate.cpp:230-299 | the simplified clause is equivalent under the root-level assignment |
| `ExternalClause.MoveLiteralToWatch` | src/external_propagate.cpp:149-189 | a permutation with no better literal behind the chosen place |
| `ExternalClause.ChooseWatches` | src/external_propagate.cpp:336-347 | both passes: the best two literals first |
| `ExternalClause.TwoSuffice` | src/external_propagate.cpp:782-845 | the first two literals decide whether the whole clause is falsified or propagates, and hold the highest levels |
| `ExternalClause.Classify` | src/external_propagate.cpp:552-628 | the case split agrees with inspecting all literals of the clause as given |
| `ExternalClause.Handle` | src/external_propagate.cpp:585-610 | conflict, propagation or neither; without chronological backtracking the solver first returns to the highest false level, with it no level is closed and the propagated literal is on the highest level of the others |
| `Notify.NotifyAssignments` | src/external_propagate.cpp:733-746 | the observed literals not yet notified and not fixed are appended in order, each as it is on the trail |
| `Notify.SelectedMeaning` | src/external_propagate.cpp:733-746 | such a selection of trail positions holds exactly the true literals there to be told, once each and with their sign |
| `Notify.BacktrackKeeps` | src/backtrack.cpp:89-143 | after backtracking the lists agree with the compacted trail up to the notified position |
| `Notify.ExactAfterBacktrack` | src/backtrack.cpp:119-141 | after backtracking all lists are complete if and only if nothing observed is behind the notified position |
| `Notify.MissedIffKept` | src/backtrack.cpp:89-141 | that is, if and only if no observed literal of a level that stays was assigned after the next level was opened |
| `Notify.MissedRun` | src/backtrack.cpp:119-141 | a run in which the listener misses a literal that is kept |
| `Notify.StepKeeps` | src/propagate.cpp:131-139 | every step keeps the listener's lists in agreement with the trail |
| `Notify.RunMirrors` | src/external_propagate.cpp:733-756 | so over all runs |
| `Notify.NotifiedExactly` | mobical.cpp:546-577 | after each notification the list of each level holds each true literal of its part of the trail that is observed and not fixed once, in order, and no other, those kept out of order included |
| `Notify.MirrorIffNoneMoved` | src/external_propagate.cpp:440-457 | after an explanation the lists agree if and only if no notified literal was moved to the root level |
| `Notify.ExplainedRunMirrors` | src/external_propagate.cpp:733-756 | over all runs with explanations the lists agree up to the first one that does that, and not after it |
| `Notify.NotifyBacktrack` | mobical.cpp:568-577 | the listener drops the lists above the level |
| `Compact.BuildMapper` | src/compact.cpp:44-65 | strictly monotone, never above the old index, onto, defined exactly on active variables and the first fixed one |
| `Compact.MapLitNegation` | src/compact.cpp:85-97 | mapping commutes with negation |
| `Compact.MapLitValue` | src/compact.cpp:85-97 | the mapped literal has the same root-level value; only inactive literals without value are dropped |
| `Compact.MapLitInjective` | src/compact.cpp:85-97 | active literals keep distinct images |
| `Compact.MapLitMeaning` | src/compact.cpp:85-97 | in a model of the new variables the mapped literal means what the literal means in the old ones |
| `Compact.MapClauseMeaning` | src/compact.cpp:85-97 | so renaming a clause keeps its meaning |
| `Compact.MapValues` | src/compact.cpp:329-343 | values move with their variables |
| `Compact.MapExternal` | src/compact.cpp:203-210 | every external index keeps its fixed value |
| `Compact.MapVector` | src/compact.cpp:103-113 | moving entries down in place loses none |
| `Compact.FlushLits` | src/compact.cpp:136-149 | the images of exactly the mapped literals, in order and with their signs |
| `Compact.CompactQueue` | src/compact.cpp:234-249 | the relinked queue lists the images of the active variables in the same order |
| `Compact.MapCounts` | src/compact.cpp:284-293 | counters with the same new index are added up |
| `Compact.CountsConserved` | src/compact.cpp:284-293 | exactly the counts of the mapped variables if and only if no dropped variable with a reused index has a count |
| `Compact.CountNotConserved` | src/compact.cpp:284-293 | a concrete mapping after which a count of 1 reads 6 |
| `Compact.TotalConserved` | src/compact.cpp:284-293 | then the total is conserved |
| `Heap.UpStep` | src/heap.hpp:67-71 | moving an element up repairs the order below |
| `Heap.DownStep` | src/heap.hpp:75-85 | moving an element below its larger child repairs the order above |
| `Heap.FrontIsMaximal` | src/heap.hpp:148-148 | the first element of an ordered heap is a maximum |
| `Heap.ChangedKey` | src/heap.hpp:165-170 | after an arbitrary change of one key the heap is in order everywhere else |
| `Heap.Heap.Exchange` | src/heap.hpp:59-63 | swaps two elements; positions stay the inverse of the array |
| `Heap.Heap.Up` | src/heap.hpp:67-71 | terminates with the element not above its parent |
| `Heap.Heap.Down` | src/heap.hpp:75-85 | terminates with the whole heap in order |
| `Heap.Heap.PushBack` | src/heap.hpp:135-144 | adds the element and keeps the order |
| `Heap.Heap.PopFront` | src/heap.hpp:152-161 | removes and returns a maximum |
| `Heap.Heap.Update` | src/heap.hpp:165-170 | restores the order after a change of one key |

## Left out

- Everything outside these components: parsing, options, statistics, proof tracing, the C interface, limits and schedules as such; limits that steer an operation are parameters.
- Decision heuristics, restarts, and the search loop of `propagate` in src/propagate.cpp; its effect on the trail is `SearchAssign`.
- The full unit propagation of src/propagate.cpp and its watch lists; those of the checker and of covered clause elimination are modelled.
- Machine arithmetic other than the 64-bit hash: indices and counters are unbounded.
- The values of a literal in `Trail` are read off the trail, the array `vals` is not a separate table there; update of saved phases, scores and queue in `unassign` is not modelled.
- The counts and first positions of seen literals for each level, which steer minimization, are a parameter with any values.
- `shrink_and_minimize_clause`, glue and bumping in conflict analysis, eager subsumption; moving watches in `find_conflict_level`.
- The order of clauses of equal size in sorted occurrence lists, schedules, backward subsumption, and the flags of eliminated variables in elimination.
- The mapping between external and internal literals when pushing on the extension stack; entries are in one numbering.
- Covered clause elimination: the order of candidates and the round that connects lists; the private stack holds entries instead of zero-separated literals.
- Conditioning: the choice of the initial assignment and the final restoration of the search trail.
- Decompose: units found by substitution are not propagated before the equivalences are saved; the order of clauses in the clause list; the index TRAVERSED is a set of traversed literals.
- Elim.Eliminator.ElimRound: the schedule is given, not updated while clauses are removed, and garbage collection between pivots is not modelled.
- Callbacks of the external propagator are parameters: given clauses, given reasons and an observed set; asking for decisions and the final model check are not modelled.
- Compaction of the remaining tables, which use the same moves as `MapVector`.
- Clause memory: arena, clause objects and pointers are store indices.
