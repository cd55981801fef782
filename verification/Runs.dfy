// What every run of the two loops over the pairs of a pivot keeps (src/elim.cpp):
// no new variables, satisfied clauses, and the number of clauses.
module Runs {
  import opened Cnf
  import opened Resolution
  import opened Propagation
  import opened Gates
  import opened Resolvents

  // ---------- No new literals ----------

  // Literals of live clauses and new units were in live clauses before.
  ghost predicate NoNew(b: Base, b': Base) {
    UnitsOccur(b, b') && forall l {:trigger OccursLive(b', l)} :: OccursLive(b', l) ==> OccursLive(b, l)
  }

  lemma NoNewTransitive(a: Base, b: Base, c: Base)
    requires NoNew(a, b) && NoNew(b, c)
    ensures NoNew(a, c)
  {
    forall l | l in c.units && l !in a.units ensures OccursLive(a, l) {
      if l in b.units {
        assert OccursLive(a, l);
      } else {
        assert OccursLive(b, l);
      }
    }
    forall l | OccursLive(c, l) ensures OccursLive(a, l) {
      assert OccursLive(b, l);
    }
  }

  // The live clauses of b' are live clauses of b or have literals of those only.
  lemma NoNewClauses(b: Base, b': Base)
    requires b.clauses <= b'.clauses && b.garbage <= b'.garbage && UnitsOccur(b, b')
    requires forall i, l :: |b.clauses| <= i < |b'.clauses| && l in b'.clauses[i] ==> OccursLive(b, l)
    ensures NoNew(b, b')
  {
    forall l | OccursLive(b', l) ensures OccursLive(b, l) {
      var i :| 0 <= i < |b'.clauses| && i !in b'.garbage && l in b'.clauses[i];
      if i < |b.clauses| { assert b.clauses[i] == b'.clauses[i]; }
    }
  }

  lemma SimplifiedNoNew(b: Base, b': Base)
    requires Simplified(b, b') || Propagated(b, b')
    ensures NoNew(b, b')
  {
    NoNewClauses(b, b');
  }

  lemma MergeOccurs(b: Base, p: Lit, ci: nat, di: nat, l: Lit)
    requires ci < |b.clauses| && di < |b.clauses| && !Stuck(b, p, ci, di) && l in Merge(b, p, ci, di)
    ensures OccursLive(b, l) && l !in b.units && Neg(l) !in b.units
  {
  }

  // ---------- Satisfied clauses ----------

  lemma CleanShrinks(b: Base, b': Base)
    requires Clean(b) && b'.clauses == b.clauses && b.garbage <= b'.garbage && b'.units == b.units
    ensures Clean(b')
  {
  }

  lemma CleanAdded(b: Base, b': Base, s: Clause)
    requires Clean(b) && b'.clauses == b.clauses + [s] && b.garbage <= b'.garbage && b'.units == b.units
    requires forall l :: l in s ==> l !in b.units
    ensures Clean(b')
  {
    forall x, l | x in LiveSet(b') && l in b'.clauses[x] ensures l !in b'.units {
      if x < |b.clauses| {
        assert x in LiveSet(b) && b.clauses[x] == b'.clauses[x];
      } else {
        assert b'.clauses[x] == s;
      }
    }
  }

  lemma CleanSettled(b: Base, unit: Lit, b1: Base, b': Base)
    requires Clean(b) && b1 == b.(units := b.units + {unit}) && Settles(b1, unit, b')
    ensures Clean(b')
  {
    assert CleanBut(b1, LiveSet(b1), {unit}) by {
      forall x, l | x in LiveSet(b1) && l in b1.clauses[x] && l in b1.units ensures l in {unit} {
        assert x in LiveSet(b);
      }
    }
    forall x | x in LiveSet(b') ensures x in LiveSet(b1) {
    }
  }

  // ---------- The number of clauses ----------

  // The live clauses with the variable of p.
  function PivotLive(b: Base, p: Lit): set<nat> {
    set i: nat | i < |b.clauses| && i !in b.garbage && Occurs(p, b.clauses[i])
  }

  // Every clause added took the place of a clause of the pivot.
  ghost predicate Replaces(b: Base, b': Base, p: Lit) {
    && |b'.clauses| + |PivotLive(b', p)| <= |b.clauses| + |PivotLive(b, p)|
    && |LiveSet(b')| <= |LiveSet(b)|
  }

  lemma ReplacesShrinks(b: Base, b': Base, p: Lit)
    requires b'.clauses == b.clauses && b.garbage <= b'.garbage
    ensures Replaces(b, b', p)
  {
    SubsetSize(PivotLive(b', p), PivotLive(b, p));
    SubsetSize(LiveSet(b'), LiveSet(b));
  }

  lemma ReplacesShortens(b: Base, b': Base, p: Lit, s: Clause, x: nat)
    requires b'.clauses == b.clauses + [s] && b.garbage <= b'.garbage && x in b'.garbage && x in PivotLive(b, p)
    requires !Occurs(p, s)
    ensures Replaces(b, b', p)
  {
    var n := |b.clauses|;
    forall i | i in PivotLive(b', p) ensures i in PivotLive(b, p) - {x} {
      assert i < n ==> b'.clauses[i] == b.clauses[i];
    }
    SubsetSize(PivotLive(b', p), PivotLive(b, p) - {x});
    assert x in LiveSet(b);
    SubsetSize(LiveSet(b'), LiveSet(b) - {x} + {n});
  }

  // ---------- One step ----------

  // What counting keeps, over one step as over many.
  ghost predicate CountKeeps(b: Base, b': Base, p: Lit) {
    && b'.Valid() && Grows(b, b') && NoNew(b, b') && (Clean(b) ==> Clean(b')) && Replaces(b, b', p)
  }

  lemma CountKeepsTransitive(a: Base, b: Base, c: Base, p: Lit)
    requires CountKeeps(a, b, p) && CountKeeps(b, c, p)
    ensures CountKeeps(a, c, p)
  {
    NoNewTransitive(a, b, c);
  }

  lemma KeepsSelf(b: Base, p: Lit)
    requires b.Valid()
    ensures CountKeeps(b, b, p) && AddKeeps(b, b)
  {
    NoNewClauses(b, b);
  }

  // What adding keeps; satisfied clauses appear only with new units.
  ghost predicate AddKeeps(b: Base, b': Base) {
    b'.Valid() && Grows(b, b') && NoNew(b, b') && (Clean(b) && b'.units == b.units ==> Clean(b'))
  }

  lemma AddKeepsTransitive(a: Base, b: Base, c: Base)
    requires AddKeeps(a, b) && AddKeeps(b, c)
    ensures AddKeeps(a, c)
  {
    NoNewTransitive(a, b, c);
    assert c.units == a.units ==> b.units == a.units;
  }

  ghost predicate OnPivot(b: Base, p: Lit, ci: nat, di: nat) {
    && b.Valid() && ci < |b.clauses| && di < |b.clauses| && ci !in b.garbage && di !in b.garbage
    && p in b.clauses[ci] && Neg(p) in b.clauses[di]
  }

  lemma DropKeeps(b: Base, b': Base, p: Lit, ci: nat, di: nat)
    requires OnPivot(b, p, ci, di) && Drops(b, b', p, ci, di)
    ensures CountKeeps(b, b', p) && AddKeeps(b, b')
  {
    NoNewClauses(b, b');
    ReplacesShrinks(b, b', p);
    if Clean(b) { CleanShrinks(b, b'); }
  }

  // The literals of both clauses without the pivot make a clause without the pivot.
  lemma MergedClause(b: Base, p: Lit, ci: nat, di: nat, s: Clause)
    requires OnPivot(b, p, ci, di) && !Stuck(b, p, ci, di) && Lits(s) == Merge(b, p, ci, di)
    ensures !Tautology(s) && !Occurs(p, s)
    ensures forall l :: l in s ==> OccursLive(b, l) && l !in b.units
  {
    assert !Tautology(b.clauses[ci]) && !Tautology(b.clauses[di]) && Neg(Neg(p)) == p;
    assert forall l :: l in s <==> l in Lits(s);
    forall l | l in s ensures Neg(l) !in s {
      assert Neg(Neg(l)) == l;
    }
  }

  lemma ShortenKeeps(b: Base, b': Base, p: Lit, ci: nat, di: nat, s: Clause, gone: set<nat>)
    requires OnPivot(b, p, ci, di) && !Stuck(b, p, ci, di) && Shortens(b, b', p, ci, di, s, gone)
    ensures CountKeeps(b, b', p) && AddKeeps(b, b')
  {
    MergedClause(b, p, ci, di, s);
    assert b'.clauses[|b.clauses|] == s;
    NoNewClauses(b, b');
    var x := if ci in gone then ci else di;
    ReplacesShortens(b, b', p, s, x);
    if Clean(b) { CleanAdded(b, b', s); }
  }

  lemma AddKeepsResolvent(b: Base, p: Lit, ci: nat, di: nat, c: Clause)
    requires OnPivot(b, p, ci, di) && Resolves(b, NewResolvent(c), p, ci, di)
    ensures AddKeeps(b, b.(clauses := b.clauses + [c]))
  {
    var b' := b.(clauses := b.clauses + [c]);
    MergedClause(b, p, ci, di, c);
    assert b'.clauses[|b.clauses|] == c;
    NoNewClauses(b, b');
    if Clean(b) { CleanAdded(b, b', c); }
  }

  lemma UnitKeeps(b: Base, p: Lit, ci: nat, di: nat, unit: Lit)
    requires OnPivot(b, p, ci, di) && Resolves(b, Changed(b.(units := b.units + {unit}), unit), p, ci, di)
    ensures AddKeeps(b, b.(units := b.units + {unit}))
  {
    var b1 := b.(units := b.units + {unit});
    assert unit in Merge(b, p, ci, di);
    MergeOccurs(b, p, ci, di, unit);
    NoNewClauses(b, b1);
  }

  lemma SettleKeeps(b: Base, p: Lit, ci: nat, di: nat, unit: Lit, b': Base)
    requires OnPivot(b, p, ci, di) && Resolves(b, Changed(b.(units := b.units + {unit}), unit), p, ci, di)
    requires Settles(b.(units := b.units + {unit}), unit, b')
    ensures CountKeeps(b, b', p)
  {
    var b1 := b.(units := b.units + {unit});
    UnitKeeps(b, p, ci, di, unit);
    SimplifiedNoNew(b1, b');
    NoNewTransitive(b, b1, b');
    ReplacesShrinks(b, b', p);
    if Clean(b) { CleanSettled(b, unit, b1, b'); }
  }

  lemma CountStepKeeps(b: Base, b': Base, p: Lit, ci: nat, di: nat, counted: bool)
    requires OnPivot(b, p, ci, di) && CountsAs(b, b', p, ci, di, counted)
    ensures CountKeeps(b, b', p)
  {
    var e :| Resolves(b, e, p, ci, di) && CountEffect(b, e, b', counted);
    match e
    case NewResolvent(_) => KeepsSelf(b, p);
    case Changed(b1, unit) =>
      if unit != 0 {
        SettleKeeps(b, p, ci, di, unit, b');
      } else if |b1.clauses| == |b.clauses| {
        DropKeeps(b, b', p, ci, di);
      } else {
        var s, gone :| Shortens(b, b', p, ci, di, s, gone);
        ShortenKeeps(b, b', p, ci, di, s, gone);
      }
  }

  lemma AddStepKeeps(b: Base, b': Base, p: Lit, ci: nat, di: nat)
    requires OnPivot(b, p, ci, di) && AddsAs(b, b', p, ci, di)
    ensures AddKeeps(b, b')
  {
    var e :| Resolves(b, e, p, ci, di) && AddEffect(b, e, b');
    match e
    case NewResolvent(c) => AddKeepsResolvent(b, p, ci, di, c);
    case Changed(b1, unit) =>
      if unit != 0 {
        UnitKeeps(b, p, ci, di, unit);
      } else if |b1.clauses| == |b.clauses| {
        DropKeeps(b, b', p, ci, di);
      } else {
        var s, gone :| Shortens(b, b', p, ci, di, s, gone);
        ShortenKeeps(b, b', p, ci, di, s, gone);
      }
  }

  // ---------- Whole runs ----------

  lemma WantedOnPivot(t: Pivot, now: Base, i: nat, j: nat)
    requires t.Valid() && t.In(i, j) && Grows(t.b, now) && now.Valid() && t.Wanted(now, t.ps[i], t.ns[j])
    ensures OnPivot(now, t.p, t.ps[i], t.ns[j])
  {
    assert now.clauses[t.ps[i]] == t.b.clauses[t.ps[i]] && now.clauses[t.ns[j]] == t.b.clauses[t.ns[j]];
  }

  lemma {:induction false} CountRunKeeps(t: Pivot, i: nat, j: nat, now: Base, r: set<(nat, nat)>)
    requires t.Valid() && t.CountRun(i, j, now, r)
    ensures CountKeeps(t.b, now, t.p)
    decreases i, j
  {
    if j > 0 {
      assert t.CountAfter(i, j - 1, now, r);
      var b0, r0, counted :| t.CountLast(b0, r0, i, j - 1, now, r, counted);
      CountRunKeeps(t, i, j - 1, b0, r0);
      if t.Wanted(b0, t.ps[i], t.ns[j - 1]) {
        WantedOnPivot(t, b0, i, j - 1);
        CountStepKeeps(b0, now, t.p, t.ps[i], t.ns[j - 1], counted);
        CountKeepsTransitive(t.b, b0, now, t.p);
      }
    } else if i > 0 {
      CountRunKeeps(t, i - 1, |t.ns|, now, r);
    } else {
      KeepsSelf(t.b, t.p);
    }
  }

  lemma {:induction false} AddRunKeeps(t: Pivot, i: nat, j: nat, now: Base)
    requires t.Valid() && t.AddRun(i, j, now)
    ensures AddKeeps(t.b, now)
    decreases i, j
  {
    if j > 0 {
      assert t.AddAfter(i, j - 1, now);
      var b0 :| t.AddLast(b0, i, j - 1, now);
      AddRunKeeps(t, i, j - 1, b0);
      if t.Wanted(b0, t.ps[i], t.ns[j - 1]) {
        WantedOnPivot(t, b0, i, j - 1);
        AddStepKeeps(b0, now, t.p, t.ps[i], t.ns[j - 1]);
        AddKeepsTransitive(t.b, b0, now);
      }
    } else if i > 0 {
      AddRunKeeps(t, i - 1, |t.ns|, now);
    } else {
      KeepsSelf(t.b, t.p);
    }
  }
}
