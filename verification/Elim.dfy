// Bounded variable elimination (src/elim.cpp): finding a gate, counting and
// adding resolvents, and removing the clauses of the pivot while saving what is
// needed to repair models on the extension stack.
module Elim {
  import opened Cnf
  import opened Extension
  import opened Resolution
  import opened Propagation
  import opened Gates
  import opened Resolvents
  import opened GateSearch
  import opened Removal
  import opened Attempts
  import Sorting
  import GatesTernaryXor

  lemma Flushed(b: Base, occs: map<Lit, seq<nat>>, l: Lit, os: seq<nat>)
    requires Connected(b, occs) && Distinct(os)
    requires forall k :: 0 <= k < |os| ==> os[k] in Occs(occs, l)
    requires forall x :: x in Occs(occs, l) && x !in b.garbage ==> x in os
    ensures Connected(b, occs[l := os])
  {
    var occs' := occs[l := os];
    forall k | k in occs' ensures Occurrences(b, k, occs'[k]) && Distinct(occs'[k]) {
      if k in occs { assert Occurrences(b, k, occs[k]); }
    }
    forall x, k | 0 <= x < |b.clauses| && x !in b.garbage && k in b.clauses[x] && Neg(k) !in b.units
      ensures x in Occs(occs', k)
    {
      assert x in Occs(occs, k);
    }
  }

  // Sizes count falsified literals, too; the order of clauses of equal size is left open.
  method SortBySize(b: Base, os: seq<nat>) returns (os': seq<nat>)
    requires forall x :: x in os ==> x < |b.clauses|
    ensures multiset(os') == multiset(os) && BySize(b, os')
  {
    var le := (x: nat, y: nat) => SizeOf(b, x) <= SizeOf(b, y);
    os' := Sorting.Sort(os, le);
    Sorting.SameMembers(os, os');
    forall i, j | 0 <= i < j < |os'| ensures SizeOf(b, os'[i]) <= SizeOf(b, os'[j]) {
      assert le(os'[i], os'[j]);
    }
  }

  // What eliminating the pivot promises: nothing is lost, and replaying what
  // was pushed repairs every model unless the gate does not determine the pivot.
  ghost predicate Eliminates(t: Pivot, now: Base, es: seq<Entry>) {
    && (t.gate == {} || Determined(t.b, t) ==> Reconstructs(t.b.Formula(), es, now.Formula()))
    && (forall m: Model :: Models(m, t.b.Formula()) ==> Models(m, now.Formula()))
    && Without(now, t.p)
  }

  // ---------- Setting up a round ----------

  // Exactly the clauses satisfied are removed.
  ghost predicate SatisfiedMarked(b: Base, b': Base) {
    && b'.Valid() && b'.clauses == b.clauses && b'.units == b.units && Clean(b')
    && (forall i: nat :: i in b'.garbage <==> i in b.garbage || (i < |b.clauses| && Satisfied(b.clauses[i], b.units)))
    && (forall m: Model :: b.Live(m) <==> b'.Live(m))
  }

  // Mark satisfied clauses as garbage.
  method MarkSatisfied(b: Base) returns (b': Base)
    requires b.Valid()
    ensures SatisfiedMarked(b, b')
  {
    b' := b;
    for i := 0 to |b.clauses|
      invariant Propagated(b, b') && b'.units == b.units
      invariant forall x :: 0 <= x < i && x !in b'.garbage ==> !Satisfied(b.clauses[x], b.units)
      invariant forall x: nat :: i <= x ==> (x in b'.garbage <==> x in b.garbage)
    {
      if i !in b'.garbage {
        assert NoDup(b.clauses[i]);
        var satisfied, _, _ := ScanUnit(b.clauses[i], b.units);
        if satisfied {
          ghost var b1 := b';
          RemoveSatisfied(b1, i);
          b' := b'.(garbage := b'.garbage + {i});
          PropagatedTransitive(b, b1, b');
        }
      }
    }
    NotSatisfied(b');
  }

  lemma NotSatisfied(b: Base)
    ensures Clean(b) <==> forall x :: 0 <= x < |b.clauses| && x !in b.garbage ==> !Satisfied(b.clauses[x], b.units)
  {
    assert forall x: nat :: x < |b.clauses| && x !in b.garbage ==> x in LiveSet(b);
  }

  // Connect the unassigned literals of all live clauses.
  method ConnectClauses(b: Base) returns (occs: map<Lit, seq<nat>>)
    requires b.Valid()
    requires Clean(b)
    ensures Connected(b, occs)
  {
    NotSatisfied(b);
    occs := map[];
    for x := 0 to |b.clauses|
      invariant ListsBelow(b, occs, x)
    {
      var live, lits := GatesTernaryXor.GetClause(b, x);
      ghost var before := occs;
      if live {
        occs := Connect(occs, lits, x);
        forall l: Lit ensures Occs(occs, l) == if l in lits then Occs(before, l) + [x] else Occs(before, l) {
          ListClauseMeaning(before, lits, x, l);
        }
        OpenListed(b, x, lits);
        OneMore(b, before, occs, lits, x);
      } else {
        OneMore(b, before, occs, [], x);
      }
    }
    BelowConnected(b, occs);
  }

  lemma OpenListed(b: Base, x: nat, lits: Clause)
    requires GatesTernaryXor.Reads(b, x, Lits(lits)) && !Satisfied(b.clauses[x], b.units)
    ensures forall l :: l in lits ==> l in b.clauses[x]
    ensures forall l :: l in b.clauses[x] ==> l in lits || Neg(l) in b.units
  {
    forall l | l in lits ensures l in b.clauses[x] { assert l in Lits(lits); }
    forall l | l in b.clauses[x] && Neg(l) !in b.units ensures l in lits {
      assert l in Unassigned(b.clauses[x], b.units);
    }
  }

  class Eliminator {
    var db: Base                 // irredundant clauses, garbage flags, root-level units
    var occs: map<Lit, seq<nat>> // occurrence lists
    var unsat: bool
    var pushed: seq<Entry>       // pushed on the extension stack

    ghost predicate Valid() reads this {
      db.Valid() && Connected(db, occs)
    }

    // Remove the live clauses with p, saving those needed to repair models.
    method RemoveOccurrences(p: Lit, os: seq<nat>, gate: set<nat>) returns (ghost es: seq<Entry>)
      requires db.Valid() && Occurrences(db, p, os)
      modifies this`db, this`pushed
      ensures db == old(db).(garbage := old(db.garbage) + set x | x in os)
      ensures pushed == old(pushed) + es && PivotEntries(es, p)
      ensures EntryClauses(es) == ClausesOf(db, Saved(old(db), gate, os))
    {
      es := [];
      ghost var b := db;
      for i := 0 to |os|
        invariant db == b.(garbage := b.garbage + set x | x in os[..i])
        invariant pushed == old(pushed) + es && PivotEntries(es, p)
        invariant EntryClauses(es) == ClausesOf(b, Saved(b, gate, os[..i]))
      {
        var c := os[i];
        assert os[..i + 1] == os[..i] + [c];
        assert NoDup(b.clauses[c]) && !Tautology(b.clauses[c]);
        if c !in db.garbage {
          db := db.(garbage := db.garbage + {c});
          if gate == {} || c in gate {
            pushed := pushed + [Entry([p], db.clauses[c])];
            SavedSnoc(b, gate, os[..i], c, es, Entry([p], b.clauses[c]));
            es := es + [Entry([p], db.clauses[c])];
          } else {
            assert Saved(b, gate, os[..i + 1]) == Saved(b, gate, os[..i]);
          }
        } else {
          assert Saved(b, gate, os[..i + 1]) == Saved(b, gate, os[..i]);
        }
      }
      assert os[..|os|] == os;
    }

    // Remove all clauses with the pivot and empty its occurrence lists.
    method MarkEliminatedClausesAsGarbage(t: Pivot) returns (ghost ep: seq<Entry>, ghost en: seq<Entry>)
      requires Valid() && AllOccurrences(db, t.p, t.ps) && AllOccurrences(db, Neg(t.p), t.ns)
      modifies this`db, this`pushed, this`occs
      ensures db == WithoutPivot(old(db), t) && Connected(db, occs)
      ensures pushed == old(pushed) + ep + en && EntriesOf(old(db), t, ep, en)
    {
      ghost var b := db;
      ep := RemoveOccurrences(t.p, t.ps, t.gate);
      Disjoint(b, t.p, t.ps, t.ns);
      assert Saved(db, t.gate, t.ns) == Saved(b, t.gate, t.ns);
      en := RemoveOccurrences(Neg(t.p), t.ns, t.gate);
      Erased(t, b, occs);
      occs := occs[t.p := []][Neg(t.p) := []];
    }

    // Elimination of the pivot once the number of resolvents is known to be bounded.
    method EliminateVariable(t: Pivot, ghost r: set<(nat, nat)>, ghost limit: nat)
      returns (ghost added: Base, ghost ep: seq<Entry>, ghost en: seq<Entry>)
      requires FullPivot(t) && t.b == db && t.occs == occs && t.Budget(db, |t.ps|, 0, r, limit)
      modifies this`db, this`unsat, this`pushed, this`occs
      ensures unsat ==> Unsatisfiable(t.b.Formula())
      ensures unsat || (Valid() && pushed == old(pushed) + (ep + en) && Eliminates(t, db, ep + en))
      ensures unsat || (SameModels(t.b, added, t.p) && t.ResolvedTo(added, |t.ps|, 0))
      ensures unsat || (t.AddRun(|t.ps|, 0, added) && Added(t.b, added, |r|, limit))
      ensures unsat || (db == WithoutPivot(added, t) && EntriesOf(added, t, ep, en))
    {
      added, ep, en := t.b, [], [];
      var b1, lists;
      unsat, b1, lists := AddResolvents(t, r, limit);
      if unsat {
        NoModels(t.b);
        return;
      }
      added := b1;
      db, occs := b1, lists;
      SameLists(t.b, b1, t.p, t.ps, t.ns);
      ep, en := MarkEliminatedClausesAsGarbage(t);
      EliminationKeeps(t, b1);
      if t.gate == {} || Determined(t.b, t) {
        EliminationReconstructs(t, b1, ep, en);
      }
    }

    // Look for a gate: equivalence, AND gate of either sign, if-then-else, XOR.
    method FindGateClauses(p: Lit, opts: Options) returns (gates: seq<nat>, kind: GateKind)
      requires Valid() && p !in db.units && Neg(p) !in db.units
      modifies this`db, this`unsat
      ensures unsat ==> kind == NoGate && forall m: Model :: !old(db).Live(m)
      ensures Simplified(old(db), db) && (unsat || Searched(old(db), db, occs, p, opts, gates, kind))
      ensures Untouched(old(db), occs, p, opts) ==> !unsat
    {
      db, unsat, gates, kind := SearchGates(db, occs, p, opts);
    }

    // Drop garbage clauses from an occurrence list.
    method FlushOccs(l: Lit) returns (os: seq<nat>)
      requires Valid()
      modifies this`occs
      ensures Valid() && os == Occs(occs, l) && Distinct(os)
      ensures forall k :: k != l ==> Occs(occs, k) == Occs(old(occs), k)
      ensures forall x :: x in os ==> x !in db.garbage
    {
      var all := Occs(occs, l);
      os := [];
      for i := 0 to |all|
        invariant forall k :: 0 <= k < |os| ==> os[k] in all[..i] && os[k] !in db.garbage
        invariant forall k :: 0 <= k < i && all[k] !in db.garbage ==> all[k] in os
        invariant Distinct(os)
      {
        assert all[..i + 1] == all[..i] + [all[i]];
        if all[i] !in db.garbage {
          assert all[i] !in all[..i];
          os := os + [all[i]];
        }
      }
      assert forall x :: x in all && x !in db.garbage ==> x in os;
      Flushed(db, occs, l, os);
      occs := occs[l := os];
    }

    // Eliminate the variable of p0 if the number of resolvents is bounded.
    method TryToEliminateVariable(p0: Lit, opts: Options)
      returns (eliminated: bool, kind: GateKind, ghost a: Attempt)
      requires Valid() && !unsat && Unset(p0, db.units)
      modifies this
      ensures unsat ==> Unsatisfiable(old(db).Formula())
      ensures unsat || (Valid() && a.Ok({}, opts) && a.end != PassedOver && a.pivot == p0)
      ensures unsat || (a.before == old(db) && a.after == db && pushed == old(pushed) + a.Entries())
      ensures unsat || ((eliminated <==> a.end == Eliminated) && kind == a.kind && Promised(a, opts))
    {
      var p, ps, ns := FlushPivot(p0);
      a := Attempt(p0, p, occs, [], NoGate, {}, db, db, db, db, db, [], [], TooFrequent);
      if |ps| != 0 && |ns| > opts.occLimit {
        eliminated, kind := false, NoGate;
      } else {
        eliminated, kind, a := TryFlushed(p, opts, a);
      }
      if !unsat { AttemptPromised(a, {}, opts); }
    }

    method TryFlushed(p: Lit, opts: Options, ghost a0: Attempt)
      returns (eliminated: bool, kind: GateKind, ghost a: Attempt)
      requires Valid() && !unsat && a0.Starts() && !a0.Frequent(opts)
      requires a0.p == p && a0.before == db && a0.occs == occs && a0.ep == [] && a0.en == []
      modifies this
      ensures unsat ==> Unsatisfiable(old(db).Formula())
      ensures unsat || (Valid() && a.Ok({}, opts) && a.end != PassedOver && a.pivot == a0.pivot)
      ensures unsat || (a.before == old(db) && a.after == db && pushed == old(pushed) + a.Entries())
      ensures unsat || ((eliminated <==> a.end == Eliminated) && kind == a.kind)
    {
      a := SortPivot(p, a0);
      eliminated, kind, a := TryPivot(p, opts, a);
    }

    // One round over a schedule of pivots.
    method ElimRound(schedule: seq<Lit>, opts: Options)
      returns (eliminated: set<Lit>, ghost start: Base, ghost run: seq<Attempt>)
      requires db.Valid() && !unsat
      modifies this
      ensures unsat ==> Unsatisfiable(old(db).Formula())
      ensures unsat || (Valid() && SatisfiedMarked(old(db), start) && Chain(start, run, opts) && Follows(run, schedule))
      ensures unsat || (db == Last(start, run) && pushed == old(pushed) + AllEntries(run) && eliminated == Gone(run))
      ensures unsat || RoundPromised(old(db), run, db, opts)
    {
      ghost var b := db;
      db := MarkSatisfied(db);
      occs := ConnectClauses(db);
      start := db;
      SameFormulas(b, start);
      eliminated, run := TryAll(schedule, opts);
      if !unsat { KeptPromise(b, start, run, opts); }
    }

    method TryAll(schedule: seq<Lit>, opts: Options) returns (eliminated: set<Lit>, ghost run: seq<Attempt>)
      requires Valid() && !unsat
      modifies this
      ensures unsat ==> Unsatisfiable(old(db).Formula())
      ensures unsat || (Valid() && Chain(old(db), run, opts) && Follows(run, schedule))
      ensures unsat || (db == Last(old(db), run) && pushed == old(pushed) + AllEntries(run) && eliminated == Gone(run))
    {
      ghost var start, base := db, pushed;
      eliminated, run := {}, [];
      var i := 0;
      while i < |schedule| && !unsat
        invariant 0 <= i <= |schedule|
        invariant unsat ==> Unsatisfiable(start.Formula())
        invariant unsat || (Valid() && Chain(start, run, opts) && db == Last(start, run))
        invariant unsat || (pushed == base + AllEntries(run) && eliminated == Gone(run))
        invariant unsat || Follows(run, schedule[..i])
      {
        ghost var before := run;
        eliminated, run := TryNext(schedule[i], opts, eliminated, start, run, base);
        if !unsat { FollowsNext(before, schedule, i, run[i]); }
        i := i + 1;
      }
      assert schedule[..|schedule|] == schedule;
    }

    // The next attempt of a round.
    method TryNext(p: Lit, opts: Options, eliminated: set<Lit>, ghost start: Base, ghost run: seq<Attempt>,
          ghost base: seq<Entry>)
      returns (eliminated': set<Lit>, ghost run': seq<Attempt>)
      requires Valid() && !unsat && start.Valid() && Chain(start, run, opts) && db == Last(start, run)
      requires pushed == base + AllEntries(run) && eliminated == Gone(run)
      modifies this
      ensures unsat ==> Unsatisfiable(start.Formula())
      ensures unsat || (Valid() && Chain(start, run', opts) && db == Last(start, run') && |run'| == |run| + 1)
      ensures unsat || (pushed == base + AllEntries(run') && eliminated' == Gone(run'))
      ensures unsat || (run' == run + [run'[|run|]] && run'[|run|].pivot == p)
    {
      ghost var a;
      eliminated', run' := eliminated, run;
      if Unset(p, db.units) && p !in eliminated && Neg(p) !in eliminated {
        var done, kind;
        done, kind, a := TryToEliminateVariable(p, opts);
        if unsat {
          ChainLinked(start, run, opts);
          RoundKeeps(start, run, opts);
          return;
        }
        if done { eliminated' := eliminated + {p}; }
      } else {
        a := Attempt(p, p, occs, [], NoGate, {}, db, db, db, db, db, [], [], PassedOver);
      }
      run' := run + [a];
      OneMoreAttempt(start, run, a, opts, base);
    }

    // Flush both lists; the pivot is the phase with fewer occurrences.
    method FlushPivot(p0: Lit) returns (p: Lit, ps: seq<nat>, ns: seq<nat>)
      requires Valid()
      modifies this`occs
      ensures Valid() && p == FewerOccurrences(occs, p0) && |ps| <= |ns|
      ensures ps == Occs(occs, p) && ns == Occs(occs, Neg(p)) && Distinct(ps) && Distinct(ns)
      ensures forall x :: x in ps || x in ns ==> x !in db.garbage
    {
      assert Neg(Neg(p0)) == p0;
      p := p0;
      ps := FlushOccs(p);
      ns := FlushOccs(Neg(p));
      if |ps| > |ns| {
        p, ps, ns := Neg(p), ns, ps;
      }
    }

    // Sort an occurrence list such that shorter clauses come first.
    method SortOccs(l: Lit) returns (os: seq<nat>)
      requires Valid()
      modifies this`occs
      ensures Valid() && os == Occs(occs, l) && BySize(db, os) && multiset(os) == multiset(Occs(old(occs), l))
      ensures forall k :: k != l ==> Occs(occs, k) == Occs(old(occs), k)
    {
      os := SortBySize(db, Occs(occs, l));
      Sorting.SameMembers(Occs(occs, l), os);
      Sorting.SameDistinct(Occs(occs, l), os);
      Flushed(db, occs, l, os);
      occs := occs[l := os];
    }

    method SortPivot(p: Lit, ghost a0: Attempt) returns (ghost a: Attempt)
      requires Valid() && a0.Starts() && a0.p == p && a0.before == db && a0.occs == occs
      modifies this`occs
      ensures Valid() && a == a0.(occs := occs) && a.Starts() && a.Ordered()
      ensures |a.Positive()| == |a0.Positive()| && |a.Negative()| == |a0.Negative()|
    {
      assert Neg(p) != p;
      var ps := SortOccs(p);
      var ns := SortOccs(Neg(p));
      a := a0.(occs := occs);
      SortedStarts(a0, a);
    }

    // The attempt for that phase.
    method TryPivot(p: Lit, opts: Options, ghost a0: Attempt)
      returns (eliminated: bool, kind: GateKind, ghost a: Attempt)
      requires Valid() && !unsat && a0.Starts() && a0.Ordered() && !a0.Frequent(opts)
      requires a0.p == p && a0.before == db && a0.occs == occs && a0.ep == [] && a0.en == []
      modifies this
      ensures unsat ==> Unsatisfiable(old(db).Formula())
      ensures unsat || (Valid() && a.Ok({}, opts) && a.end != PassedOver && a.pivot == a0.pivot)
      ensures unsat || (a.before == old(db) && a.after == db && pushed == old(pushed) + a.Entries())
      ensures unsat || ((eliminated <==> a.end == Eliminated) && kind == a.kind)
    {
      var gates;
      gates, kind, a := SearchPivot(p, opts, a0);
      eliminated := false;
      if !unsat && Unset(p, db.units) {
        var t := Pivot(db, occs, p, Occs(occs, p), Occs(occs, Neg(p)), set x | x in gates);
        SearchKeeps(a, opts);
        ListsOfPivot(a.before, t);
        eliminated, a := EliminateIfBounded(t, opts, a);
      }
    }

    // Look for a gate unless the pivot has clauses of one sign only.
    method SearchPivot(p: Lit, opts: Options, ghost a0: Attempt)
      returns (gates: seq<nat>, kind: GateKind, ghost a: Attempt)
      requires Valid() && !unsat && a0.Starts() && a0.Ordered() && !a0.Frequent(opts)
      requires a0.p == p && a0.before == db && a0.occs == occs && a0.ep == [] && a0.en == []
      modifies this`db, this`unsat
      ensures unsat ==> Unsatisfiable(old(db).Formula())
      ensures unsat || (Valid() && a.Searches(opts) && a.searched == a.counted == a.after == db && a.end == Assigned)
      ensures a == a0.(gates := gates, kind := kind, searched := db, counted := db, added := db, after := db,
                       end := Assigned)
    {
      gates, kind := [], NoGate;
      if |Occs(occs, p)| != 0 {
        gates, kind := FindGateClauses(p, opts);
        if unsat { NoModels(a0.before); }
        ListsSimplified(a0.before, db, occs);
      }
      a := a0.(gates := gates, kind := kind, searched := db, counted := db, added := db, after := db, end := Assigned);
    }

    method EliminateIfBounded(t: Pivot, opts: Options, ghost a0: Attempt)
      returns (eliminated: bool, ghost a: Attempt)
      requires FullPivot(t) && t.b == db && t.occs == occs && !unsat && t == a0.Counting()
      requires a0.Starts() && !a0.Frequent(opts) && a0.Searches(opts) && a0.ep == [] && a0.en == []
      modifies this
      ensures unsat ==> Unsatisfiable(a0.before.Formula())
      ensures unsat || (Valid() && a.Ok({}, opts) && pushed == old(pushed) + a.Entries() && a.after == db)
      ensures unsat || (eliminated && a.end == Eliminated) || (!eliminated && a.end == TooManyResolvents)
      ensures unsat || (a.before == a0.before && a.pivot == a0.pivot && a.kind == a0.kind)
    {
      eliminated, a := false, a0;
      ghost var r;
      var v, b2, lists;
      SameBefore(a0, opts);
      v, b2, lists, r := ResolventsAreBounded(t, opts.bound, opts.clauseLimit);
      if v.Refuted? {
        NoModels(t.b);
        unsat := true;
        return;
      }
      ListsFollow(t.b, b2, t.occs);
      SameFormulas(t.b, b2);
      db, occs := b2, lists;
      if v.Bounded? {
        eliminated := true;
        a := EliminateBounded(t.(b := b2, occs := lists), opts, a0.(r := r, counted := b2));
      } else {
        a := GivenUp(a0, b2, r, opts);
      }
    }

    method EliminateBounded(t: Pivot, opts: Options, ghost a0: Attempt) returns (ghost a: Attempt)
      requires t.b == db && t.occs == occs && !unsat && t == a0.Adding()
      requires a0.Starts() && !a0.Frequent(opts) && a0.Searches(opts) && Unset(a0.p, a0.searched.units)
      requires FullPivot(a0.Counting()) && a0.Bounds(opts)
      modifies this
      ensures unsat ==> Unsatisfiable(old(db).Formula())
      ensures unsat || (Valid() && a.Ok({}, opts) && pushed == old(pushed) + a.Entries() && a.after == db)
      ensures unsat || (a.before == a0.before && a.pivot == a0.pivot && a.kind == a0.kind && a.end == Eliminated)
    {
      a := a0;
      Recounted(a0, opts);
      ghost var added, ep, en := EliminateVariable(t, a0.r, opts.clauseLimit);
      if !unsat {
        a := Finished(a0, added, db, ep, en, opts);
      }
    }
  }

  // The flushed lists hold all live clauses of the pivot.
  lemma ListsOfPivot(b: Base, t: Pivot)
    requires Simplified(b, t.b) && Connected(b, t.occs)
    requires t.p !in t.b.units && Neg(t.p) !in t.b.units
    requires t.ps == Occs(t.occs, t.p) && t.ns == Occs(t.occs, Neg(t.p))
    ensures FullPivot(t)
  {
    ListsSimplified(b, t.b, t.occs);
    assert Neg(Neg(t.p)) == t.p;
  }
}
