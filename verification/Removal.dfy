// Removing the clauses of a pivot (src/elim.cpp): which of them are saved on the
// extension stack, and why replaying these repairs every model.
module Removal {
  import opened Cnf
  import opened Extension
  import opened Resolution
  import opened Propagation
  import opened Gates
  import opened Resolvents
  import GatesTernaryXor

  // No clause or unit has the variable of p.
  ghost predicate Without(b: Base, p: Lit) {
    forall c :: c in b.Formula() ==> !Occurs(p, c)
  }

  // The live clauses among os that are pushed on the extension stack.
  function Saved(b: Base, gate: set<nat>, os: seq<nat>): set<nat> {
    set x | x in os && x !in b.garbage && (gate == {} || x in gate)
  }

  lemma SavedSnoc(b: Base, gate: set<nat>, os: seq<nat>, c: nat, es: seq<Entry>, e: Entry)
    requires c < |b.clauses| && c !in b.garbage && (gate == {} || c in gate)
    requires e.clause == b.clauses[c]
    requires EntryClauses(es) == ClausesOf(b, Saved(b, gate, os))
    ensures EntryClauses(es + [e]) == ClausesOf(b, Saved(b, gate, os + [c]))
  {
    assert Saved(b, gate, os + [c]) == Saved(b, gate, os) + {c};
    EntryClausesSnoc(es, e);
  }

  // The clauses with p and with -p that are pushed.
  ghost function Positive(b: Base, t: Pivot): set<Clause> { ClausesOf(b, Saved(b, t.gate, t.ps)) }

  ghost function Negative(b: Base, t: Pivot): set<Clause> { ClausesOf(b, Saved(b, t.gate, t.ns)) }

  // In every model of the other clauses the gate clauses determine the pivot.
  ghost predicate Determined(b: Base, t: Pivot) {
    forall m: Model :: b.Other(m, t.p) ==> ExactlyOneForced(m, Positive(b, t), Negative(b, t), t.p)
  }

  ghost predicate EntriesOf(b: Base, t: Pivot, ep: seq<Entry>, en: seq<Entry>) {
    && PivotEntries(ep, t.p) && EntryClauses(ep) == Positive(b, t)
    && PivotEntries(en, Neg(t.p)) && EntryClauses(en) == Negative(b, t)
  }

  // The pivot with the lists of all its live clauses.
  ghost predicate FullPivot(t: Pivot) {
    t.Valid() && AllOccurrences(t.b, t.p, t.ps) && AllOccurrences(t.b, Neg(t.p), t.ns)
  }

  function WithoutPivot(b: Base, t: Pivot): Base {
    b.(garbage := b.garbage + (set x | x in t.ps) + (set x | x in t.ns))
  }

  lemma PairDone(t: Pivot, b1: Base, ci: nat, di: nat)
    requires t.Valid() && t.ResolvedTo(b1, |t.ps|, 0) && ci in t.ps && di in t.ns
    requires t.Wanted(t.b, ci, di)
    ensures b1.Resolved(t.b.clauses[ci], t.p, t.b.clauses[di])
  {
    var k, l :| 0 <= k < |t.ps| && t.ps[k] == ci && 0 <= l < |t.ns| && t.ns[l] == di;
    assert t.In(k, l) && Before(k, l, |t.ps|, 0);
    assert t.PairResolved(b1, k, l);
  }

  lemma EliminationReconstructs(t: Pivot, b1: Base, ep: seq<Entry>, en: seq<Entry>)
    requires FullPivot(t) && SameModels(t.b, b1, t.p) && t.ResolvedTo(b1, |t.ps|, 0)
    requires t.gate != {} ==> Determined(t.b, t)
    requires EntriesOf(b1, t, ep, en)
    ensures Reconstructs(t.b.Formula(), ep + en, WithoutPivot(b1, t).Formula())
  {
    var b, b2 := t.b, WithoutPivot(b1, t);
    SameLists(b, b1, t.p, t.ps, t.ns);
    NothingLeft(b, b1, t.p, t.ps, t.ns, b2);
    forall m: Model | Models(m, b2.Formula()) ensures Models(Replay(ep + en, m), b.Formula()) {
      FormulaModels(b2, m);
      EliminationRepairs(t, b1, ep, en, m);
      FormulaModels(b, Replay(ep + en, m));
    }
  }

  // Why replaying the saved clauses works: if a saved clause with p is
  // falsified apart from p, all clauses with -p hold without it, and otherwise
  // all clauses with p hold without p.
  lemma EliminationRepairs(t: Pivot, b1: Base, ep: seq<Entry>, en: seq<Entry>, m: Model)
    requires FullPivot(t) && Extends(t.b, b1, t.p) && t.ResolvedTo(b1, |t.ps|, 0)
    requires t.gate != {} ==> Determined(t.b, t)
    requires EntriesOf(b1, t, ep, en) && b1.Other(m, t.p)
    ensures t.b.Live(Replay(ep + en, m))
  {
    var b, p := t.b, t.p;
    var pos, neg := ClausesOf(b, LiveOf(b, t.ps)), ClausesOf(b, LiveOf(b, t.ns));
    ExtendsOther(b, b1, p, m);
    assert PivotClauses(pos, p) && PivotClauses(neg, Neg(p)) by {
      assert forall x :: x in LiveOf(b, t.ps) || x in LiveOf(b, t.ns) ==> !Tautology(b.clauses[x]);
    }
    if Forced(m, Positive(b1, t), p) {
      ForcedPositive(t, b1, m);
    } else {
      NotForcedPositive(t, b1, m);
      if !Forced(m, Negative(b1, t), Neg(p)) {
        NothingForced(t, b1, m);
      }
    }
    PivotRepaired(m, pos, neg, ep, en, p);
    AllSatisfied(t, m, Replay(ep + en, m));
  }

  lemma AllSatisfied(t: Pivot, m: Model, m': Model)
    requires FullPivot(t) && t.b.Other(m, t.p)
    requires Models(m', ClausesOf(t.b, LiveOf(t.b, t.ps)) + ClausesOf(t.b, LiveOf(t.b, t.ns)))
    requires forall l: Lit :: l != t.p && l != Neg(t.p) ==> True(m', l) == True(m, l)
    ensures t.b.Live(m')
  {
    var b, p := t.b, t.p;
    forall i | 0 <= i < |b.clauses| && i !in b.garbage ensures Sat(m', b.clauses[i]) {
      if p in b.clauses[i] {
        assert i in LiveOf(b, t.ps) && b.clauses[i] in ClausesOf(b, LiveOf(b, t.ps));
      } else if Neg(p) in b.clauses[i] {
        assert i in LiveOf(b, t.ns) && b.clauses[i] in ClausesOf(b, LiveOf(b, t.ns));
      } else {
        var l :| l in b.clauses[i] && True(m, l);
        assert True(m', l);
      }
    }
  }

  lemma ForcedPositive(t: Pivot, b1: Base, m: Model)
    requires t.Valid() && Extends(t.b, b1, t.p) && t.ResolvedTo(b1, |t.ps|, 0)
    requires b1.Other(m, t.p)
    requires t.gate != {} ==> Determined(t.b, t)
    requires Forced(m, Positive(b1, t), t.p)
    ensures AllRestSat(m, ClausesOf(t.b, LiveOf(t.b, t.ns)), Neg(t.p))
  {
    var b := t.b;
    ExtendsOther(b, b1, t.p, m);
    var c :| c in Positive(b1, t) && !RestSat(m, c, t.p);
    var ci :| ci in Saved(b1, t.gate, t.ps) && ci < |b1.clauses| && b1.clauses[ci] == c;
    assert b.clauses[ci] == c && ci in Saved(b, t.gate, t.ps);
    forall d | d in ClausesOf(b, LiveOf(b, t.ns)) ensures RestSat(m, d, Neg(t.p)) {
      var di :| di in LiveOf(b, t.ns) && di < |b.clauses| && b.clauses[di] == d;
      if t.Wanted(b, ci, di) {
        PairDone(t, b1, ci, di);
      } else {
        assert di in Saved(b, t.gate, t.ns) && d in Negative(b, t);
        assert c in Positive(b, t);
        assert ExactlyOneForced(m, Positive(b, t), Negative(b, t), t.p);
      }
    }
  }

  // A saved clause that forces nothing afterwards holds without its pivot literal.
  lemma SavedRestSat(t: Pivot, b1: Base, os: seq<nat>, q: Lit, m: Model, x: nat)
    requires t.Valid() && Extends(t.b, b1, t.p) && b1.Other(m, t.p) && Occurrences(t.b, q, os)
    requires q == t.p || q == Neg(t.p)
    requires !Forced(m, ClausesOf(b1, Saved(b1, t.gate, os)), q)
    requires x in LiveOf(t.b, os) && (t.gate == {} || x in t.gate)
    ensures RestSat(m, t.b.clauses[x], q)
  {
    var c := t.b.clauses[x];
    assert !Tautology(c) && b1.clauses[x] == c;
    if x in b1.garbage {
      assert b1.RestImplied(c, t.p) && PivotIn(c, t.p) == q;
    } else {
      assert c in ClausesOf(b1, Saved(b1, t.gate, os));
    }
  }

  // With a gate whose positive half forces nothing, a saved negative gate clause forces -p.
  lemma NegativeForced(t: Pivot, b1: Base, m: Model) returns (di: nat)
    requires t.Valid() && Extends(t.b, b1, t.p) && b1.Other(m, t.p) && t.gate != {}
    requires Determined(t.b, t)
    requires !Forced(m, Positive(b1, t), t.p)
    ensures di in Saved(t.b, t.gate, t.ns) && di in Saved(b1, t.gate, t.ns)
    ensures !RestSat(m, t.b.clauses[di], Neg(t.p))
    ensures Forced(m, Negative(b1, t), Neg(t.p))
  {
    var b, gp, gn := t.b, Positive(t.b, t), Negative(t.b, t);
    forall c | c in gp ensures RestSat(m, c, t.p) {
      var x :| x in Saved(b, t.gate, t.ps) && x < |b.clauses| && b.clauses[x] == c;
      SavedRestSat(t, b1, t.ps, t.p, m, x);
    }
    ExtendsOther(b, b1, t.p, m);
    assert ExactlyOneForced(m, gp, gn, t.p);
    var d :| d in gn && !RestSat(m, d, Neg(t.p));
    di :| di in Saved(b, t.gate, t.ns) && di < |b.clauses| && b.clauses[di] == d;
    assert !Tautology(d);
    assert di in b1.garbage ==> b1.RestImplied(d, t.p);
    assert b1.clauses[di] == d && d in Negative(b1, t);
  }

  lemma NotForcedPositive(t: Pivot, b1: Base, m: Model)
    requires t.Valid() && Extends(t.b, b1, t.p) && t.ResolvedTo(b1, |t.ps|, 0)
    requires b1.Other(m, t.p)
    requires t.gate != {} ==> Determined(t.b, t)
    requires !Forced(m, Positive(b1, t), t.p)
    ensures AllRestSat(m, ClausesOf(t.b, LiveOf(t.b, t.ps)), t.p)
  {
    var b := t.b;
    forall c | c in ClausesOf(b, LiveOf(b, t.ps)) ensures RestSat(m, c, t.p) {
      var x :| x in LiveOf(b, t.ps) && x < |b.clauses| && b.clauses[x] == c;
      if t.gate == {} || x in t.gate {
        SavedRestSat(t, b1, t.ps, t.p, m, x);
      } else {
        var di := NegativeForced(t, b1, m);
        PairDone(t, b1, x, di);
      }
    }
  }

  lemma NothingForced(t: Pivot, b1: Base, m: Model)
    requires t.Valid() && Extends(t.b, b1, t.p) && b1.Other(m, t.p)
    requires t.gate != {} ==> Determined(t.b, t)
    requires !Forced(m, Positive(b1, t), t.p) && !Forced(m, Negative(b1, t), Neg(t.p))
    ensures AllRestSat(m, ClausesOf(t.b, LiveOf(t.b, t.ns)), Neg(t.p))
  {
    if t.gate != {} {
      var di := NegativeForced(t, b1, m);
      assert false;
    }
    var b := t.b;
    forall d | d in ClausesOf(b, LiveOf(b, t.ns)) ensures RestSat(m, d, Neg(t.p)) {
      var x :| x in LiveOf(b, t.ns) && x < |b.clauses| && b.clauses[x] == d;
      SavedRestSat(t, b1, t.ns, Neg(t.p), m, x);
    }
  }

  // ---------- The gate determines the pivot ----------

  lemma GateDetermines(t: Pivot, gates: seq<nat>)
    requires FullPivot(t) && IsGate(t.b, gates, t.p) && gates != []
    requires t.gate == (set x | x in gates)
    ensures Determined(t.b, t)
  {
    assert gates[0] in t.gate;
    forall m: Model | t.b.Other(m, t.p) ensures ExactlyOneForced(m, Positive(t.b, t), Negative(t.b, t), t.p) {
      ForcedBySaved(t.b, t.gate, gates, t.p, t.ps, m);
      ForcedBySaved(t.b, t.gate, gates, Neg(t.p), t.ns, m);
    }
  }

  lemma ForcedBySaved(b: Base, gate: set<nat>, gates: seq<nat>, q: Lit, os: seq<nat>, m: Model)
    requires gate != {} && gate == (set x | x in gates) && AllOccurrences(b, q, os)
    requires forall x :: x in gates ==> x < |b.clauses| && x !in b.garbage
    ensures ForcedBy(b, gates, q, m) <==> Forced(m, ClausesOf(b, Saved(b, gate, os)), q)
  {
    var saved := Saved(b, gate, os);
    if ForcedBy(b, gates, q, m) {
      var x :| x in gates && x < |b.clauses| && q in b.clauses[x] && !RestSat(m, b.clauses[x], q);
      assert x in saved && b.clauses[x] in ClausesOf(b, saved);
    }
    if Forced(m, ClausesOf(b, saved), q) {
      var c :| c in ClausesOf(b, saved) && !RestSat(m, c, q);
      var x :| x in saved && x < |b.clauses| && b.clauses[x] == c;
      assert x in gates && q in b.clauses[x];
    }
  }

  // A gate keeps determining the pivot while resolvents are counted.
  lemma DeterminedKept(t: Pivot, b1: Base)
    requires t.Valid() && Extends(t.b, b1, t.p) && Determined(t.b, t)
    ensures Determined(b1, t)
  {
    assert Neg(Neg(t.p)) == t.p;
    forall m: Model | b1.Other(m, t.p) ensures ExactlyOneForced(m, Positive(b1, t), Negative(b1, t), t.p) {
      ExtendsOther(t.b, b1, t.p, m);
      ForcedKept(t, b1, t.p, t.ps, m);
      ForcedKept(t, b1, Neg(t.p), t.ns, m);
      assert ExactlyOneForced(m, Positive(t.b, t), Negative(t.b, t), t.p);
    }
  }

  lemma ForcedKept(t: Pivot, b1: Base, q: Lit, os: seq<nat>, m: Model)
    requires t.Valid() && Extends(t.b, b1, t.p) && b1.Other(m, t.p) && Occurrences(t.b, q, os)
    requires q == t.p || q == Neg(t.p)
    ensures Forced(m, ClausesOf(b1, Saved(b1, t.gate, os)), q) <==> Forced(m, ClausesOf(t.b, Saved(t.b, t.gate, os)), q)
  {
    var b, was, now := t.b, Saved(t.b, t.gate, os), Saved(b1, t.gate, os);
    if Forced(m, ClausesOf(b, was), q) {
      var c :| c in ClausesOf(b, was) && !RestSat(m, c, q);
      var x :| x in was && x < |b.clauses| && b.clauses[x] == c;
      assert !Tautology(c) && b1.clauses[x] == c;
      assert x in b1.garbage ==> b1.RestImplied(c, t.p) && PivotIn(c, t.p) == q;
      assert x in now && c in ClausesOf(b1, now);
    }
    if Forced(m, ClausesOf(b1, now), q) {
      var c :| c in ClausesOf(b1, now) && !RestSat(m, c, q);
      var x :| x in now && x < |b1.clauses| && b1.clauses[x] == c;
      assert b.clauses[x] == c && x in was && c in ClausesOf(b, was);
    }
  }

  lemma CleanNoneSatisfied(b: Base, gates: seq<nat>, p: Lit)
    requires CleanFor(b, p)
    requires forall x :: x in gates ==> x < |b.clauses| && x !in b.garbage && Occurs(p, b.clauses[x])
    ensures GatesTernaryXor.NoneSatisfied(b, gates)
  {
  }

  // ---------- Keeping lists, models and counts ----------

  // Emptying the lists of a pivot without live clauses.
  lemma Erased(t: Pivot, b1: Base, lists: map<Lit, seq<nat>>)
    requires b1.Valid() && Connected(b1, lists) && AllOccurrences(b1, t.p, t.ps)
    requires AllOccurrences(b1, Neg(t.p), t.ns)
    ensures Connected(WithoutPivot(b1, t), lists[t.p := []][Neg(t.p) := []])
  {
    var b', lists' := WithoutPivot(b1, t), lists[t.p := []][Neg(t.p) := []];
    forall l | l in lists' ensures Occurrences(b', l, lists'[l]) && Distinct(lists'[l]) {
      if l != t.p && l != Neg(t.p) { assert Occurrences(b1, l, lists[l]); }
    }
    forall x, l | 0 <= x < |b'.clauses| && x !in b'.garbage && l in b'.clauses[x] && Neg(l) !in b'.units
      ensures x in Occs(lists', l)
    {
      assert x in Occs(lists, l);
    }
  }

  lemma EliminationKeeps(t: Pivot, b1: Base)
    requires FullPivot(t) && SameModels(t.b, b1, t.p)
    ensures forall m: Model :: Models(m, t.b.Formula()) ==> Models(m, WithoutPivot(b1, t).Formula())
    ensures Without(WithoutPivot(b1, t), t.p) && WithoutPivot(b1, t).Valid()
  {
    var b2 := WithoutPivot(b1, t);
    SameLists(t.b, b1, t.p, t.ps, t.ns);
    NothingLeft(t.b, b1, t.p, t.ps, t.ns, b2);
    forall m: Model | Models(m, t.b.Formula()) ensures Models(m, b2.Formula()) {
      FormulaModels(t.b, m);
      FormulaModels(b2, m);
    }
  }

  // What is live after elimination was live before without the pivot, or is new.
  lemma FewLive(b: Base, b': Base, p: Lit, ps: seq<nat>, ns: seq<nat>)
    requires b.Valid() && b.clauses <= b'.clauses && b.garbage <= b'.garbage && Without(b', p)
    requires Occurrences(b, p, ps) && Occurrences(b, Neg(p), ns) && Distinct(ps) && Distinct(ns)
    requires forall x :: x in ps || x in ns ==> x !in b.garbage
    ensures |LiveSet(b')| + |ps| + |ns| <= |LiveSet(b)| + |b'.clauses| - |b.clauses|
  {
    var both := Elements(ps) + Elements(ns);
    DistinctSize(ps);
    DistinctSize(ns);
    Disjoint(b, p, ps, ns);
    assert Elements(ps) * Elements(ns) == {};
    assert |both| == |ps| + |ns|;
    assert both <= LiveSet(b);
    forall x | x in LiveSet(b') && x < |b.clauses| ensures x in LiveSet(b) - both {
      assert b'.clauses[x] in b'.Formula() && b'.clauses[x] == b.clauses[x];
    }
    LiveAbove(b', |b.clauses|, LiveSet(b) - both);
    assert |LiveSet(b) - both| == |LiveSet(b)| - |both|;
  }

  // The live clauses are at most those below n and all from n on.
  lemma {:induction false} LiveAbove(b: Base, n: nat, below: set<nat>)
    requires n <= |b.clauses| && forall x :: x in LiveSet(b) && x < n ==> x in below
    ensures |LiveSet(b)| <= |below| + |b.clauses| - n
    decreases |b.clauses| - n
  {
    if n < |b.clauses| {
      LiveAbove(b, n + 1, below + {n});
    } else {
      assert LiveSet(b) <= below;
      assert |below - LiveSet(b)| == |below| - |LiveSet(b)|;
    }
  }

  lemma NoModels(b: Base)
    requires forall m: Model :: !b.Live(m)
    ensures Unsatisfiable(b.Formula())
  {
    forall m: Model ensures !Models(m, b.Formula()) { FormulaModels(b, m); }
  }

  // An equivalent data base may take the place of the first one.
  lemma Composed(b: Base, b1: Base, es: seq<Entry>, b2: Base)
    requires forall m: Model :: b.Live(m) <==> b1.Live(m)
    requires forall m: Model :: Models(m, b1.Formula()) ==> Models(m, b2.Formula())
    ensures Reconstructs(b1.Formula(), es, b2.Formula()) ==> Reconstructs(b.Formula(), es, b2.Formula())
    ensures forall m: Model :: Models(m, b.Formula()) ==> Models(m, b2.Formula())
  {
    forall m: Model ensures Models(m, b.Formula()) <==> Models(m, b1.Formula()) {
      FormulaModels(b1, m);
      FormulaModels(b, m);
    }
    if Reconstructs(b1.Formula(), es, b2.Formula()) {
      forall m: Model | Models(m, b2.Formula()) ensures Models(Replay(es, m), b.Formula()) {
        assert Models(Replay(es, m), b1.Formula());
      }
    }
  }

  lemma NothingPushed(b: Base, b1: Base)
    requires forall m: Model :: b.Live(m) <==> b1.Live(m)
    ensures Reconstructs(b.Formula(), [], b1.Formula())
    ensures forall m: Model :: Models(m, b.Formula()) ==> Models(m, b1.Formula())
  {
    forall m: Model ensures Models(m, b.Formula()) <==> Models(m, b1.Formula()) {
      FormulaModels(b1, m);
      FormulaModels(b, m);
    }
  }
}
