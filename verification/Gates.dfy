// Gate detection for variable elimination (src/gates.cpp).
module Gates {
  import opened Cnf
  import opened Resolution
  import opened Propagation

  // ---------- Scanning clauses ----------

  // A scan for a second unassigned literal never gets as far as a true one.
  ghost predicate Hidden(c: Clause, first: Lit, units: set<Lit>) {
    forall i :: 0 <= i < |c| && c[i] != first && c[i] in units ==>
      exists j, k :: 0 <= j < k < i && c[j] != first && c[k] != first && Unset(c[j], units) && Unset(c[k], units)
  }

  // The second literal of a clause that is binary apart from falsified
  // literals, zero if it is not binary or satisfied.
  method SecondLiteral(c: Clause, first: Lit, units: set<Lit>) returns (second: int, satisfied: bool)
    requires Consistent(units) && NoDup(c)
    ensures second != 0 ==> Open(c, first, units) == {second} && !RestSatisfied(c, first, units)
    ensures satisfied ==> second == 0 && RestSatisfied(c, first, units) && !Hidden(c, first, units)
    ensures second == 0 && !satisfied ==> forall l :: Open(c, first, units) != {l}
  {
    second, satisfied := 0, false;
    var i := 0;
    while i < |c|
      invariant 0 <= i <= |c|
      invariant forall k :: 0 <= k < i && c[k] != first ==> c[k] !in units && (c[k] == second || Neg(c[k]) in units)
      invariant second != 0 ==> second in c && second != first && second !in units && Neg(second) !in units
      invariant second != 0 ==> forall k :: i <= k < |c| ==> c[k] != second
    {
      var lit := c[i];
      if lit != first && Neg(lit) !in units {
        if lit in units { return 0, true; }
        if second != 0 {
          assert second in Open(c, first, units) && lit in Open(c, first, units) && second != lit;
          return 0, false;
        }
        second := lit;
      }
      i := i + 1;
    }
  }

  // ---------- What a gate is ----------

  // Some listed clause with p has all its other literals false.
  ghost predicate ForcedBy(b: Base, gates: seq<nat>, p: Lit, m: Model) {
    exists x :: x in gates && x < |b.clauses| && p in b.clauses[x] && !RestSat(m, b.clauses[x], p)
  }

  // The listed clauses define p: whatever the other variables are, they force
  // exactly one of p and -p.
  ghost predicate IsGate(b: Base, gates: seq<nat>, p: Lit) {
    && (forall x :: x in gates ==> x < |b.clauses| && x !in b.garbage && Occurs(p, b.clauses[x]))
    && (forall m: Model :: Agrees(m, b.units) ==> ForcedBy(b, gates, p, m) != ForcedBy(b, gates, Neg(p), m))
  }

  lemma GateNegated(b: Base, gates: seq<nat>, p: Lit)
    requires IsGate(b, gates, p)
    ensures IsGate(b, gates, Neg(p))
  {
    assert Neg(Neg(p)) == p;
    forall m: Model | Agrees(m, b.units) ensures ForcedBy(b, gates, Neg(p), m) != ForcedBy(b, gates, Neg(Neg(p)), m) {
      assert ForcedBy(b, gates, p, m) != ForcedBy(b, gates, Neg(p), m);
    }
  }

  // A live clause that is binary apart from falsified literals.
  ghost predicate Binary(b: Base, x: nat, first: Lit, second: Lit) {
    && x < |b.clauses| && x !in b.garbage && first in b.clauses[x]
    && Open(b.clauses[x], first, b.units) == {second} && !RestSatisfied(b.clauses[x], first, b.units)
  }

  lemma BinaryRest(b: Base, x: nat, first: Lit, second: Lit, m: Model)
    requires Binary(b, x, first, second) && Agrees(m, b.units)
    ensures RestSat(m, b.clauses[x], first) <==> True(m, second)
  {
    OpenRestSat(m, b.clauses[x], first, b.units);
  }

  // Clauses, and what is assigned, only get simplified.
  ghost predicate Simplified(b: Base, b': Base) {
    && b'.Valid() && b'.clauses == b.clauses && b.units <= b'.units && b.garbage <= b'.garbage
    && (forall m: Model :: b.Live(m) <==> b'.Live(m))
    && UnitsOccur(b, b')
  }

  lemma SimplifiedTransitive(a: Base, b: Base, c: Base)
    requires Simplified(a, b) && (Simplified(b, c) || Propagated(b, c))
    ensures Simplified(a, c)
  {
    UnitsOccurTransitive(a, b, c);
  }

  lemma DuplicateBinary(b: Base, x: nat, y: nat, first: Lit, second: Lit)
    requires b.Valid() && Binary(b, x, first, second) && Binary(b, y, first, second) && x != y
    ensures Simplified(b, b.(garbage := b.garbage + {y}))
  {
    var b' := b.(garbage := b.garbage + {y});
    forall m: Model | b'.Live(m) ensures b.Live(m) {
      assert Sat(m, b.clauses[x]);
      BinaryRest(b, x, first, second, m);
      BinaryRest(b, y, first, second, m);
    }
  }

  // Resolving two binary clauses on a common literal yields a unit.
  lemma HyperUnit(b: Base, x: nat, y: nat, unit: Lit, other: Lit)
    requires b.Valid() && unit !in b.units && Neg(unit) !in b.units
    requires (Binary(b, x, unit, other) && Binary(b, y, unit, Neg(other))) ||
             (Binary(b, x, other, unit) && Binary(b, y, Neg(other), unit))
    ensures Propagated(b, b.(units := b.units + {unit}))
  {
    assert OccursLive(b, unit) by {
      if Binary(b, x, other, unit) { assert unit in Open(b.clauses[x], other, b.units); }
    }
    forall m: Model | b.Live(m) ensures True(m, unit) {
      assert Sat(m, b.clauses[x]) && Sat(m, b.clauses[y]);
      if Binary(b, x, unit, other) && Binary(b, y, unit, Neg(other)) {
        BinaryRest(b, x, unit, other, m);
        BinaryRest(b, y, unit, Neg(other), m);
        SatSplit(m, b.clauses[x], unit);
        SatSplit(m, b.clauses[y], unit);
      } else {
        BinaryRest(b, x, other, unit, m);
        BinaryRest(b, y, Neg(other), unit, m);
        SatSplit(m, b.clauses[x], other);
        SatSplit(m, b.clauses[y], Neg(other));
      }
    }
  }

  // Each marked literal is the second literal of a binary clause with first.
  ghost predicate Witnessed(b: Base, os: seq<nat>, first: Lit, marks: set<Lit>, wit: map<Lit, nat>) {
    marks == wit.Keys && forall s :: s in wit ==> wit[s] in os && Binary(b, wit[s], first, s)
  }

  // Simplification keeps the witness of a literal as long as both literals are unassigned.
  lemma WitnessKept(b: Base, b': Base, x: nat, first: Lit, s: Lit)
    requires Propagated(b, b') && Binary(b, x, first, s)
    requires first !in b'.units && Neg(first) !in b'.units
    requires s !in b'.units && Neg(s) !in b'.units
    ensures Binary(b', x, first, s)
  {
    var c := b.clauses[x];
    assert s in Open(c, first, b.units);
    forall l | l in c && l != first && l != s ensures Neg(l) in b'.units && l !in b'.units {
      assert l !in Open(c, first, b.units);
      assert Neg(Neg(l)) == l;
    }
    assert Open(c, first, b'.units) == {s};
  }

  // Assign and propagate the unit resolved from two binary clauses.
  method PropagateHyperUnit(db: Base, occs: map<Lit, seq<nat>>, ghost x: nat, ghost y: nat, unit: Lit,
        ghost other: Lit, ghost ids: set<nat>)
    returns (db': Base, unsat: bool)
    requires db.Valid() && Occurring(db, occs) && unit !in db.units && Neg(unit) !in db.units
    requires (Binary(db, x, unit, other) && Binary(db, y, unit, Neg(other))) ||
             (Binary(db, x, other, unit) && Binary(db, y, Neg(other), unit))
    ensures Propagated(db, db') && unit in db'.units
    ensures unsat ==> forall m: Model :: !db'.Live(m)
    ensures Complete(db, occs) && CleanIn(db, ids) && !unsat ==> CleanIn(db', ids)
  {
    HyperUnit(db, x, y, unit, other);
    var b := db.(units := db.units + {unit});
    StillListed(db, b, occs);
    db', unsat := ElimPropagate(b, occs, unit, ids);
    PropagatedTransitive(db, b, db');
  }

  lemma WitnessesLeft(b: Base, os: seq<nat>, first: Lit, marks: set<Lit>, wit: map<Lit, nat>, c: nat)
    requires Witnessed(b, os, first, marks, wit) && forall s :: s in wit ==> wit[s] != c
    ensures Witnessed(b.(garbage := b.garbage + {c}), os, first, marks, wit)
  {
  }

  lemma WitnessAdded(b: Base, os: seq<nat>, first: Lit, marks: set<Lit>, wit: map<Lit, nat>, second: Lit, c: nat)
    requires Witnessed(b, os, first, marks, wit) && c in os && Binary(b, c, first, second)
    ensures Witnessed(b, os, first, marks + {second}, wit[second := c])
  {
  }

  // What scanning one clause with first found: satisfied, a complementary
  // literal is marked, its literal is marked already, or it gets marked.
  method MarkSecond(db: Base, occs: map<Lit, seq<nat>>, first: Lit, c: nat, marks: set<Lit>, ghost wit: map<Lit, nat>,
        ghost ids: set<nat>)
    returns (db': Base, unsat: bool, marks': set<Lit>, ghost wit': map<Lit, nat>, done: bool)
    requires db.Valid() && Occurring(db, occs) && first !in db.units && Neg(first) !in db.units
    requires c in Occs(occs, first) && Witnessed(db, Occs(occs, first), first, marks, wit)
    requires forall s :: s in wit ==> wit[s] != c
    ensures Simplified(db, db')
    ensures unsat ==> done && forall m: Model :: !db'.Live(m)
    ensures Complete(db, occs) && CleanIn(db, ids) && !unsat ==> CleanIn(db', ids)
    ensures done ==> first in db'.units
    ensures !done ==> db'.units == db.units && Witnessed(db', Occs(occs, first), first, marks', wit')
    ensures !done ==> forall s :: s in wit' ==> wit'[s] == c || (s in wit && wit'[s] == wit[s])
    ensures !done ==> marks <= marks' && forall s :: Binary(db', c, first, s) ==> s in marks'
    ensures QuietSide(db, occs, first) ==> db' == db && !done
  {
    db', unsat, marks', wit', done := db, false, marks, wit, false;
    if c in db.garbage { return; }
    var second, satisfied := SecondLiteral(db.clauses[c], first, db.units);
    if satisfied {
      NoticedSatisfied(db, c, first);
      RemoveSatisfied(db, c);
      WitnessesLeft(db, Occs(occs, first), first, marks, wit, c);
      db' := db.(garbage := db.garbage + {c});
    } else if second != 0 {
      assert Binary(db, c, first, second);
      if Neg(second) in marks {
        assert Neg(Neg(second)) == second;
        BinaryPaired(db, c, first, second, wit[Neg(second)], first, Neg(second));
        db', unsat := PropagateHyperUnit(db, occs, c, wit[Neg(second)], first, second, ids);
        done := true;
      } else if second in marks {
        BinaryPaired(db, c, first, second, wit[second], first, second);
        DuplicateBinary(db, wit[second], c, first, second);
        WitnessesLeft(db, Occs(occs, first), first, marks, wit, c);
        db' := db.(garbage := db.garbage + {c});
      } else {
        WitnessAdded(db, Occs(occs, first), first, marks, wit, second, c);
        marks', wit' := marks + {second}, wit[second := c];
      }
    }
  }

  method MarkBinaryLiterals(db: Base, occs: map<Lit, seq<nat>>, first: Lit, ghost ids: set<nat>)
    returns (db': Base, unsat: bool, marks: set<Lit>, ghost wit: map<Lit, nat>)
    requires db.Valid() && Occurring(db, occs) && first !in db.units && Neg(first) !in db.units
    ensures Simplified(db, db')
    ensures unsat ==> forall m: Model :: !db.Live(m)
    ensures Complete(db, occs) && CleanIn(db, ids) && !unsat ==> CleanIn(db', ids)
    ensures !unsat && first !in db'.units && Neg(first) !in db'.units ==>
      Witnessed(db', Occs(occs, first), first, marks, wit) && Marking(db', Occs(occs, first), first, marks)
    ensures QuietSide(db, occs, first) ==> db' == db && !unsat
  {
    db', unsat, marks, wit := db, false, {}, map[];
    var os, i, done := Occs(occs, first), 0, false;
    while i < |os|
      invariant 0 <= i <= |os| && Simplified(db, db') && db'.units == db.units && !unsat
      invariant Witnessed(db', os, first, marks, wit) && Marking(db', os[..i], first, marks)
      invariant Complete(db, occs) && CleanIn(db, ids) ==> CleanIn(db', ids)
      invariant forall s, k :: s in wit && i <= k < |os| ==> wit[s] != os[k]
      invariant QuietSide(db, occs, first) ==> db' == db
    {
      ListsSimplified(db, db', occs);
      ghost var b := db';
      ghost var before := marks;
      db', unsat, marks, wit, done := MarkSecond(db', occs, first, os[i], marks, wit, ids);
      SimplifiedTransitive(db, b, db');
      if done { return; }
      MarkingNext(b, db', os, i, first, before, marks);
      i := i + 1;
    }
    assert os[..|os|] == os;
  }

  // The second literal of every listed binary clause is marked.
  ghost predicate Marking(b: Base, os: seq<nat>, first: Lit, marks: set<Lit>) {
    forall k, s :: 0 <= k < |os| && Binary(b, os[k], first, s) ==> s in marks
  }

  lemma MarkingNext(b: Base, b': Base, os: seq<nat>, i: nat, first: Lit, marks: set<Lit>, marks': set<Lit>)
    requires i < |os| && Marking(b, os[..i], first, marks) && marks <= marks'
    requires b'.clauses == b.clauses && b'.units == b.units && b.garbage <= b'.garbage
    requires forall s :: Binary(b', os[i], first, s) ==> s in marks'
    ensures Marking(b', os[..i + 1], first, marks')
  {
    var part := os[..i + 1];
    forall k, s | 0 <= k < |part| && Binary(b', part[k], first, s) ensures s in marks' {
      if k < i { assert Binary(b, os[..i][k], first, s); }
    }
  }

  lemma ListsSimplified(b: Base, b': Base, occs: map<Lit, seq<nat>>)
    requires Simplified(b, b') && Occurring(b, occs)
    ensures Occurring(b', occs) && (Complete(b, occs) ==> Complete(b', occs))
  {
    forall l | l in occs ensures Occurrences(b', l, occs[l]) {
      assert Occurrences(b, l, occs[l]);
    }
  }

  // ---------- When nothing is found ----------

  // Before any true literal of c comes an unassigned one at position j.
  ghost predicate Ahead(c: Clause, q: Lit, units: set<Lit>, j: int) {
    0 <= j < |c| && c[j] != q && Unset(c[j], units) && forall i :: 0 <= i < j ==> c[i] == q || c[i] !in units
  }

  // Every such literal is negated in a binary clause with the opposite pivot literal.
  ghost predicate AllMarked(b: Base, x: nat, q: Lit)
    requires x < |b.clauses|
  {
    forall j :: Ahead(b.clauses[x], q, b.units, j) ==> exists y :: Binary(b, y, Neg(q), Neg(b.clauses[x][j]))
  }

  // Live clause x with q can be recognised as satisfied or as the base clause of an AND gate.
  ghost predicate Noticed(b: Base, x: nat, q: Lit) {
    && x < |b.clauses| && x !in b.garbage
    && (!Hidden(b.clauses[x], q, b.units) || (|b.clauses[x]| >= 3 && AllMarked(b, x, q)))
  }

  // Two binary clauses over the same two variables.
  ghost predicate Paired(b: Base, x: nat, q: Lit, y: nat, r: Lit) {
    exists s, t :: Binary(b, x, q, s) && Binary(b, y, r, t) && Var(s) == Var(t)
  }

  ghost predicate QuietSide(b: Base, occs: map<Lit, seq<nat>>, q: Lit) {
    && (forall x {:trigger Noticed(b, x, q)} :: x in Occs(occs, q) ==> !Noticed(b, x, q))
    && (forall x, y {:trigger Paired(b, x, q, y, q)} ::
          x in Occs(occs, q) && y in Occs(occs, q) && x != y ==> !Paired(b, x, q, y, q))
  }

  // Then the searches for units, equivalences and AND gates change nothing.
  ghost predicate Quiet(b: Base, occs: map<Lit, seq<nat>>, p: Lit) {
    && QuietSide(b, occs, p) && QuietSide(b, occs, Neg(p))
    && (forall x, y {:trigger Paired(b, x, p, y, Neg(p))} ::
          x in Occs(occs, p) && y in Occs(occs, Neg(p)) ==> !Paired(b, x, p, y, Neg(p)))
  }

  lemma NoticedSatisfied(b: Base, x: nat, q: Lit)
    requires x < |b.clauses| && x !in b.garbage && !Hidden(b.clauses[x], q, b.units)
    ensures Noticed(b, x, q)
  {
  }

  lemma BinaryPaired(b: Base, x: nat, q: Lit, s: Lit, y: nat, r: Lit, t: Lit)
    requires Binary(b, x, q, s) && Binary(b, y, r, t) && (s == t || s == Neg(t))
    ensures Paired(b, x, q, y, r)
  {
    assert Var(s) == Var(t);
  }

  // All literals before a true one are marked in the candidate base clause.
  lemma NoticedBase(b: Base, x: nat, q: Lit, marks: set<Lit>, os: seq<nat>, wit: map<Lit, nat>)
    requires x < |b.clauses| && x !in b.garbage && |b.clauses[x]| >= 3 && Consistent(b.units)
    requires StillWitnessed(b, os, Neg(q), marks, wit)
    requires forall j :: Ahead(b.clauses[x], q, b.units, j) ==> Neg(b.clauses[x][j]) in marks
    ensures Noticed(b, x, q)
  {
    forall j | Ahead(b.clauses[x], q, b.units, j) ensures exists y :: Binary(b, y, Neg(q), Neg(b.clauses[x][j])) {
      var s := Neg(b.clauses[x][j]);
      assert Neg(s) == b.clauses[x][j];
      assert Binary(b, wit[s], Neg(q), s);
    }
  }

  // ---------- Equivalences ----------

  ghost predicate StillWitnessed(b: Base, os: seq<nat>, first: Lit, marks: set<Lit>, wit: map<Lit, nat>) {
    && marks == wit.Keys
    && forall s :: s in wit && s !in b.units && Neg(s) !in b.units ==> wit[s] in os && Binary(b, wit[s], first, s)
  }

  lemma AllWitnessKept(b: Base, b': Base, os: seq<nat>, first: Lit, marks: set<Lit>, wit: map<Lit, nat>)
    requires Propagated(b, b') && StillWitnessed(b, os, first, marks, wit)
    requires first !in b'.units && Neg(first) !in b'.units
    ensures StillWitnessed(b', os, first, marks, wit)
  {
    forall s | s in wit && s !in b'.units && Neg(s) !in b'.units ensures Binary(b', wit[s], first, s) {
      WitnessKept(b, b', wit[s], first, s);
    }
  }

  // Find the binary clause with first and second, which is known to exist.
  method FindBinary(db: Base, os: seq<nat>, first: Lit, second: Lit, ghost x: nat) returns (db': Base, d: nat)
    requires db.Valid() && Occurrences(db, first, os)
    requires first !in db.units && Neg(first) !in db.units
    requires x in os && Binary(db, x, first, second)
    ensures Propagated(db, db') && db'.units == db.units && d in os
    ensures Binary(db', d, first, second)
  {
    db' := db;
    var i := 0;
    while true
      invariant 0 <= i < |os| && Propagated(db, db') && db'.units == db.units
      invariant x in os[i..] && Binary(db', x, first, second)
      decreases |os| - i
    {
      var e := os[i];
      if e !in db'.garbage {
        var other, satisfied := SecondLiteral(db'.clauses[e], first, db'.units);
        if satisfied {
          ghost var b := db';
          RemoveSatisfied(db', e);
          db' := db'.(garbage := db'.garbage + {e});
          PropagatedTransitive(db, b, db');
        } else if other == second {
          return db', e;
        }
        assert second != 0 && e != x;
      }
      assert os[i..] == [e] + os[i + 1..];
      i := i + 1;
    }
  }

  lemma EquivalenceGate(b: Base, c: nat, d: nat, p: Lit, s: Lit)
    requires b.Valid() && Binary(b, c, Neg(p), s) && Binary(b, d, p, Neg(s))
    ensures IsGate(b, [c, d], p)
  {
    assert !Tautology(b.clauses[c]) && !Tautology(b.clauses[d]);
    forall m: Model | Agrees(m, b.units) ensures ForcedBy(b, [c, d], p, m) != ForcedBy(b, [c, d], Neg(p), m) {
      BinaryRest(b, c, Neg(p), s, m);
      BinaryRest(b, d, p, Neg(s), m);
      assert c in [c, d] && d in [c, d];
    }
  }

  // Compare a clause with the negated pivot with the binary clauses of the pivot.
  method MatchBinary(db: Base, occs: map<Lit, seq<nat>>, pivot: Lit, c: nat, marks: set<Lit>, ghost wit: map<Lit, nat>,
        ghost ids: set<nat>)
    returns (db': Base, unsat: bool, gates: seq<nat>)
    requires db.Valid() && Occurring(db, occs) && pivot !in db.units && Neg(pivot) !in db.units
    requires c in Occs(occs, Neg(pivot)) && StillWitnessed(db, Occs(occs, pivot), pivot, marks, wit)
    ensures Propagated(db, db')
    ensures unsat ==> forall m: Model :: !db'.Live(m)
    ensures Complete(db, occs) && CleanIn(db, ids) && !unsat ==> CleanIn(db', ids)
    ensures gates != [] ==> !unsat && db'.units == db.units && IsGate(db', gates, pivot)
    ensures Quiet(db, occs, pivot) ==> db' == db && !unsat && gates == []
    ensures gates == [] && !unsat && db'.units == db.units ==> Unmatched(db, c, pivot, marks)
  {
    db', unsat, gates := db, false, [];
    if c in db.garbage { return; }
    var second, satisfied := SecondLiteral(db.clauses[c], Neg(pivot), db.units);
    if satisfied {
      NoticedSatisfied(db, c, Neg(pivot));
      RemoveSatisfied(db, c);
      db' := db.(garbage := db.garbage + {c});
    } else if second != 0 {
      assert second in Open(db.clauses[c], Neg(pivot), db.units) && Binary(db, c, Neg(pivot), second);
      if second in marks {
        BinaryPaired(db, wit[second], pivot, second, c, Neg(pivot), second);
        db', unsat := PropagateHyperUnit(db, occs, wit[second], c, second, pivot, ids);
      } else if Neg(second) in marks {
        var d;
        assert Neg(Neg(second)) == second;
        BinaryPaired(db, wit[Neg(second)], pivot, Neg(second), c, Neg(pivot), second);
        db', d := FindBinary(db, Occs(occs, pivot), pivot, Neg(second), wit[Neg(second)]);
        WitnessKept(db, db', c, Neg(pivot), second);
        EquivalenceGate(db', c, d, pivot, second);
        gates := [c, d];
      }
    }
  }

  // The second literal of the clause, if it is binary, has no mark of either sign.
  ghost predicate Unmatched(b: Base, c: nat, pivot: Lit, marks: set<Lit>) {
    forall s :: Binary(b, c, Neg(pivot), s) ==> s !in marks && Neg(s) !in marks
  }

  // No binary clauses of both signs of the pivot over the same other variable are left.
  ghost predicate NoEquivalence(b: Base, occs: map<Lit, seq<nat>>, p: Lit) {
    forall x, y {:trigger Paired(b, x, p, y, Neg(p))} ::
      x in Occs(occs, p) && y in Occs(occs, Neg(p)) ==> !Paired(b, x, p, y, Neg(p))
  }

  lemma NoneMatched(a: Base, b: Base, occs: map<Lit, seq<nat>>, p: Lit, marks: set<Lit>)
    requires MatchingIf(a, b, occs, |Occs(occs, Neg(p))|, p, marks)
    ensures b.units == a.units ==> NoEquivalence(b, occs, p)
  {
    if b.units == a.units {
      forall x, y | x in Occs(occs, p) && y in Occs(occs, Neg(p)) ensures !Paired(b, x, p, y, Neg(p)) {
        var i :| 0 <= i < |Occs(occs, p)| && Occs(occs, p)[i] == x;
        var j :| 0 <= j < |Occs(occs, Neg(p))| && Occs(occs, Neg(p))[j] == y;
        forall s, t | Binary(b, x, p, s) && Binary(b, y, Neg(p), t) ensures Var(s) != Var(t) {
          assert s in marks && t !in marks && Neg(t) !in marks && Neg(Neg(t)) == t;
        }
      }
    }
  }

  // With the same units and more garbage there is less to find.
  lemma LessMarked(b: Base, b': Base, os: seq<nat>, p: Lit, marks: set<Lit>)
    requires b'.clauses == b.clauses && b'.units == b.units && b.garbage <= b'.garbage
    ensures Marking(b, os, p, marks) ==> Marking(b', os, p, marks)
    ensures forall c :: Unmatched(b, c, p, marks) ==> Unmatched(b', c, p, marks)
    ensures forall occs :: NoEquivalence(b, occs, p) ==> NoEquivalence(b', occs, p)
  {
    forall x, q, s | Binary(b', x, q, s) ensures Binary(b, x, q, s) {
    }
    forall occs | NoEquivalence(b, occs, p) ensures NoEquivalence(b', occs, p) {
      forall x, y | Paired(b', x, p, y, Neg(p)) ensures Paired(b, x, p, y, Neg(p)) {
      }
    }
  }

  method FindEquivalence(db: Base, occs: map<Lit, seq<nat>>, pivot: Lit, ghost ids: set<nat>)
    returns (db': Base, unsat: bool, gates: seq<nat>)
    requires db.Valid() && Occurring(db, occs) && pivot !in db.units && Neg(pivot) !in db.units
    ensures Simplified(db, db')
    ensures unsat ==> forall m: Model :: !db.Live(m)
    ensures Complete(db, occs) && CleanIn(db, ids) && !unsat ==> CleanIn(db', ids)
    ensures gates != [] ==> !unsat && pivot !in db'.units && Neg(pivot) !in db'.units && IsGate(db', gates, pivot)
    ensures Quiet(db, occs, pivot) ==> db' == db && !unsat && gates == []
    ensures gates == [] && !unsat && db'.units == db.units ==> NoEquivalence(db', occs, pivot)
  {
    gates := [];
    var marks;
    ghost var wit;
    db', unsat, marks, wit := MarkBinaryLiterals(db, occs, pivot, ids);
    if unsat || pivot in db'.units || Neg(pivot) in db'.units { return; }
    ghost var b := db';
    ListsSimplified(db, b, occs);
    db', unsat, gates := MatchAll(db', occs, pivot, marks, wit, ids);
    SimplifiedTransitive(db, b, db');
  }

  // All clauses with the negated pivot.
  method MatchAll(db: Base, occs: map<Lit, seq<nat>>, pivot: Lit, marks: set<Lit>, ghost wit: map<Lit, nat>,
        ghost ids: set<nat>)
    returns (db': Base, unsat: bool, gates: seq<nat>)
    requires db.Valid() && Occurring(db, occs) && pivot !in db.units && Neg(pivot) !in db.units
    requires StillWitnessed(db, Occs(occs, pivot), pivot, marks, wit) && Marking(db, Occs(occs, pivot), pivot, marks)
    ensures Simplified(db, db')
    ensures unsat ==> forall m: Model :: !db.Live(m)
    ensures Complete(db, occs) && CleanIn(db, ids) && !unsat ==> CleanIn(db', ids)
    ensures gates != [] ==> !unsat && pivot !in db'.units && Neg(pivot) !in db'.units && IsGate(db', gates, pivot)
    ensures Quiet(db, occs, pivot) ==> db' == db && !unsat && gates == []
    ensures gates == [] && !unsat && db'.units == db.units ==> NoEquivalence(db', occs, pivot)
  {
    db', unsat, gates := db, false, [];
    var ns, i := Occs(occs, Neg(pivot)), 0;
    while i < |ns|
      invariant 0 <= i <= |ns| && Simplified(db, db') && !unsat && gates == []
      invariant pivot !in db'.units && Neg(pivot) !in db'.units
      invariant StillWitnessed(db', Occs(occs, pivot), pivot, marks, wit) && MatchingIf(db, db', occs, i, pivot, marks)
      invariant Complete(db, occs) && CleanIn(db, ids) ==> CleanIn(db', ids)
      invariant Quiet(db, occs, pivot) ==> db' == db
    {
      ghost var b := db';
      ListsSimplified(db, b, occs);
      db', unsat, gates := MatchBinary(db', occs, pivot, ns[i], marks, wit, ids);
      SimplifiedTransitive(db, b, db');
      if gates != [] || unsat || pivot in db'.units || Neg(pivot) in db'.units { return; }
      AllWitnessKept(b, db', Occs(occs, pivot), pivot, marks, wit);
      MatchingNext(db, b, db', occs, i, pivot, marks);
      i := i + 1;
    }
    NoneMatched(db, db', occs, pivot, marks);
  }

  // As long as no unit is found, none of the first i clauses matches a marked literal.
  ghost predicate MatchingIf(b: Base, b': Base, occs: map<Lit, seq<nat>>, i: nat, p: Lit, marks: set<Lit>) {
    b'.units == b.units ==> Matching(b', Occs(occs, p), Occs(occs, Neg(p)), i, p, marks)
  }

  ghost predicate Matching(b: Base, ps: seq<nat>, ns: seq<nat>, i: nat, p: Lit, marks: set<Lit>) {
    Marking(b, ps, p, marks) && forall k :: 0 <= k < i && k < |ns| ==> Unmatched(b, ns[k], p, marks)
  }

  lemma MatchingNext(a: Base, b: Base, b': Base, occs: map<Lit, seq<nat>>, i: nat, p: Lit, marks: set<Lit>)
    requires MatchingIf(a, b, occs, i, p, marks) && a.units <= b.units <= b'.units
    requires i < |Occs(occs, Neg(p))| && (b'.units == b.units ==> Unmatched(b, Occs(occs, Neg(p))[i], p, marks))
    requires b'.clauses == b.clauses && b.garbage <= b'.garbage
    ensures MatchingIf(a, b', occs, i + 1, p, marks)
  {
    if b'.units == a.units {
      assert b.units == a.units;
      LessMarked(b, b', Occs(occs, p), p, marks);
    }
  }

  // ---------- AND gates ----------

  // The candidate base clause: unassigned literals other than the pivot must all be marked negatively.
  method ScanBase(c: Clause, negPivot: Lit, units: set<Lit>, marks: set<Lit>) returns (allMarked: bool, satisfied: bool)
    requires Consistent(units)
    ensures satisfied ==> RestSatisfied(c, negPivot, units)
    ensures allMarked ==> forall j :: Ahead(c, negPivot, units, j) ==> Neg(c[j]) in marks
    ensures !allMarked ==> exists l :: l in Open(c, negPivot, units) && Neg(l) !in marks
    ensures allMarked && !satisfied ==>
      !RestSatisfied(c, negPivot, units) && forall l :: l in Open(c, negPivot, units) ==> Neg(l) in marks
  {
    for i := 0 to |c|
      invariant forall k :: 0 <= k < i && c[k] != negPivot ==>
        c[k] !in units && (Neg(c[k]) in units || Neg(c[k]) in marks)
    {
      var lit := c[i];
      if lit != negPivot && Neg(lit) !in units {
        if lit in units { return true, true; }
        if Neg(lit) !in marks {
          assert lit in Open(c, negPivot, units);
          return false, false;
        }
      }
    }
    return true, false;
  }

  // The negations of the unassigned literals of the base clause get their mark doubled.
  method DoubleMarks(c: Clause, negPivot: Lit, units: set<Lit>) returns (doubled: set<Lit>)
    ensures doubled == Negations(Open(c, negPivot, units))
  {
    doubled := {};
    for i := 0 to |c|
      invariant doubled <= Negations(Open(c, negPivot, units))
      invariant forall k :: 0 <= k < i && c[k] in Open(c, negPivot, units) ==> Neg(c[k]) in doubled
    {
      var lit := c[i];
      if lit != negPivot && Neg(lit) !in units && lit !in units {
        doubled := doubled + {Neg(lit)};
      }
    }
    assert forall l :: l in c ==> exists k :: 0 <= k < |c| && c[k] == l;
  }

  ghost predicate IsSide(b: Base, d: nat, pivot: Lit, doubled: set<Lit>) {
    exists s :: s in doubled && Binary(b, d, pivot, s)
  }

  // The binary side clauses: those with the pivot and a literal with doubled mark.
  method CollectSides(db: Base, ps: seq<nat>, pivot: Lit, doubled: set<Lit>) returns (db': Base, sides: seq<nat>)
    requires db.Valid() && Occurrences(db, pivot, ps)
    requires pivot !in db.units && Neg(pivot) !in db.units
    requires forall s :: s in doubled ==> s !in db.units && Neg(s) !in db.units
    ensures Propagated(db, db') && db'.units == db.units
    ensures forall d {:trigger IsSide(db', d, pivot, doubled)} :: d in sides ==> IsSide(db', d, pivot, doubled)
    ensures forall d, s :: d in ps && s in doubled && Binary(db, d, pivot, s) ==> d in sides
  {
    db', sides := db, [];
    for i := 0 to |ps|
      invariant Propagated(db, db') && db'.units == db.units
      invariant forall d {:trigger IsSide(db', d, pivot, doubled)} :: d in sides ==> IsSide(db', d, pivot, doubled)
      invariant forall k, s :: 0 <= k < i && s in doubled && Binary(db, ps[k], pivot, s) ==> ps[k] in sides
    {
      var d := ps[i];
      ghost var b := db';
      if d !in db'.garbage {
        var other, satisfied := SecondLiteral(db'.clauses[d], pivot, db'.units);
        if satisfied {
          RemoveSatisfied(db', d);
          db' := db'.(garbage := db'.garbage + {d});
          PropagatedTransitive(db, b, db');
          SidesKept(b, db', sides, pivot, doubled);
        } else if other != 0 && other in doubled {
          assert Binary(db', d, pivot, other);
          assert IsSide(db', d, pivot, doubled);
          sides := sides + [d];
        }
      }
      forall s | s in doubled && Binary(db, d, pivot, s) ensures d in sides {
        WitnessKept(db, b, d, pivot, s);
      }
    }
  }

  lemma SidesKept(b: Base, b': Base, sides: seq<nat>, pivot: Lit, doubled: set<Lit>)
    requires Propagated(b, b') && b'.units == b.units
    requires pivot !in b.units && Neg(pivot) !in b.units
    requires forall s :: s in doubled ==> s !in b.units && Neg(s) !in b.units
    requires forall d {:trigger IsSide(b, d, pivot, doubled)} :: d in sides ==> IsSide(b, d, pivot, doubled)
    ensures forall d {:trigger IsSide(b', d, pivot, doubled)} :: d in sides ==> IsSide(b', d, pivot, doubled)
  {
    forall d | d in sides ensures IsSide(b', d, pivot, doubled) {
      assert IsSide(b, d, pivot, doubled);
      var s :| s in doubled && Binary(b, d, pivot, s);
      WitnessKept(b, b', d, pivot, s);
    }
  }

  // A base clause (-p, l1, ..., lk) with side clauses (p, -l1), ..., (p, -lk).
  ghost predicate AndClauses(b: Base, c: nat, sides: seq<nat>, p: Lit) {
    && c < |b.clauses| && c !in b.garbage && Neg(p) in b.clauses[c]
    && !RestSatisfied(b.clauses[c], Neg(p), b.units)
    && (forall d {:trigger SideClause(b, c, d, p)} :: d in sides ==> SideClause(b, c, d, p))
    && (forall l {:trigger HasSide(b, sides, p, l)} :: l in Open(b.clauses[c], Neg(p), b.units) ==>
         HasSide(b, sides, p, l))
  }

  ghost predicate HasSide(b: Base, sides: seq<nat>, p: Lit, l: Lit) {
    exists d :: d in sides && Binary(b, d, p, Neg(l))
  }

  ghost predicate SideClause(b: Base, c: nat, d: nat, p: Lit)
    requires c < |b.clauses|
  {
    exists l :: l in Open(b.clauses[c], Neg(p), b.units) && Binary(b, d, p, Neg(l))
  }

  lemma AndForced(b: Base, c: nat, sides: seq<nat>, p: Lit, m: Model)
    requires b.Valid() && AndClauses(b, c, sides, p) && Agrees(m, b.units)
    ensures ForcedBy(b, sides, p, m) <==> RestSat(m, b.clauses[c], Neg(p))
  {
    var open := Open(b.clauses[c], Neg(p), b.units);
    OpenRestSat(m, b.clauses[c], Neg(p), b.units);
    if RestSat(m, b.clauses[c], Neg(p)) {
      var l :| l in open && True(m, l);
      assert HasSide(b, sides, p, l);
      var d :| d in sides && Binary(b, d, p, Neg(l));
      BinaryRest(b, d, p, Neg(l), m);
    } else {
      forall d | d in sides && d < |b.clauses| ensures RestSat(m, b.clauses[d], p) {
        assert SideClause(b, c, d, p);
        var l :| l in open && Binary(b, d, p, Neg(l));
        BinaryRest(b, d, p, Neg(l), m);
      }
    }
  }

  lemma AndGate(b: Base, c: nat, sides: seq<nat>, p: Lit)
    requires b.Valid() && AndClauses(b, c, sides, p)
    ensures IsGate(b, [c] + sides, p)
  {
    var gates := [c] + sides;
    assert !Tautology(b.clauses[c]);
    forall d | d in sides
      ensures d < |b.clauses| && d !in b.garbage && p in b.clauses[d] && Neg(p) !in b.clauses[d]
    {
      assert SideClause(b, c, d, p);
      assert !Tautology(b.clauses[d]);
    }
    forall m: Model | Agrees(m, b.units) ensures ForcedBy(b, gates, p, m) != ForcedBy(b, gates, Neg(p), m) {
      AndForced(b, c, sides, p, m);
      assert c in gates;
    }
  }

  // A clause with the negated pivot that is the base of an AND gate.
  ghost predicate AndBase(b: Base, ps: seq<nat>, p: Lit, c: nat) {
    && c < |b.clauses| && c !in b.garbage && |b.clauses[c]| >= 3 && !RestSatisfied(b.clauses[c], Neg(p), b.units)
    && forall l {:trigger HasSide(b, ps, p, l)} :: l in Open(b.clauses[c], Neg(p), b.units) ==> HasSide(b, ps, p, l)
  }

  ghost predicate NoAndGate(b: Base, occs: map<Lit, seq<nat>>, p: Lit) {
    forall c {:trigger AndBase(b, Occs(occs, p), p, c)} :: c in Occs(occs, Neg(p)) ==> !AndBase(b, Occs(occs, p), p, c)
  }

  lemma FewerBases(b: Base, b': Base, ps: seq<nat>, p: Lit, c: nat)
    requires b'.clauses == b.clauses && b'.units == b.units && b.garbage <= b'.garbage && AndBase(b', ps, p, c)
    ensures AndBase(b, ps, p, c)
  {
    forall l | l in Open(b.clauses[c], Neg(p), b.units) ensures HasSide(b, ps, p, l) {
      assert HasSide(b', ps, p, l);
      var d :| d in ps && Binary(b', d, p, Neg(l));
      assert Binary(b, d, p, Neg(l));
    }
  }

  lemma FewerAndGates(b: Base, b': Base, occs: map<Lit, seq<nat>>, p: Lit)
    requires b'.clauses == b.clauses && b'.units == b.units && b.garbage <= b'.garbage && NoAndGate(b, occs, p)
    ensures NoAndGate(b', occs, p)
  {
    forall c | c in Occs(occs, Neg(p)) && AndBase(b', Occs(occs, p), p, c) ensures false {
      FewerBases(b, b', Occs(occs, p), p, c);
    }
  }

  // A literal of the clause without mark has no binary clause.
  lemma NotBase(b: Base, ps: seq<nat>, p: Lit, c: nat, marks: set<Lit>)
    requires Marking(b, ps, p, marks) && c < |b.clauses|
    requires exists l :: l in Open(b.clauses[c], Neg(p), b.units) && Neg(l) !in marks
    ensures !AndBase(b, ps, p, c)
  {
    var l :| l in Open(b.clauses[c], Neg(p), b.units) && Neg(l) !in marks;
    forall d | d in ps ensures !Binary(b, d, p, Neg(l)) {
      var k :| 0 <= k < |ps| && ps[k] == d;
    }
    assert !HasSide(b, ps, p, l);
  }

  method FindAndGate(db: Base, occs: map<Lit, seq<nat>>, pivot: Lit, ghost ids: set<nat>)
    returns (db': Base, unsat: bool, gates: seq<nat>)
    requires db.Valid() && Occurring(db, occs) && pivot !in db.units && Neg(pivot) !in db.units
    ensures Simplified(db, db')
    ensures unsat ==> forall m: Model :: !db.Live(m)
    ensures Complete(db, occs) && CleanIn(db, ids) && !unsat ==> CleanIn(db', ids)
    ensures gates != [] ==> !unsat && pivot !in db'.units && Neg(pivot) !in db'.units && IsGate(db', gates, pivot)
    ensures Quiet(db, occs, pivot) ==> db' == db && !unsat && gates == []
    ensures gates == [] && !unsat && pivot !in db'.units && Neg(pivot) !in db'.units ==> NoAndGate(db', occs, pivot)
  {
    gates := [];
    var marks;
    ghost var wit;
    db', unsat, marks, wit := MarkBinaryLiterals(db, occs, pivot, ids);
    if unsat || pivot in db'.units || Neg(pivot) in db'.units { return; }
    ghost var b := db';
    ListsSimplified(db, b, occs);
    db', gates := SearchBases(db', occs, pivot, marks, wit);
    SimplifiedTransitive(db, b, db');
  }

  // All candidates for the base clause of a gate.
  method SearchBases(db: Base, occs: map<Lit, seq<nat>>, pivot: Lit, marks: set<Lit>, ghost wit: map<Lit, nat>)
    returns (db': Base, gates: seq<nat>)
    requires db.Valid() && Occurring(db, occs) && pivot !in db.units && Neg(pivot) !in db.units
    requires StillWitnessed(db, Occs(occs, pivot), pivot, marks, wit) && Marking(db, Occs(occs, pivot), pivot, marks)
    ensures Propagated(db, db') && db'.units == db.units
    ensures gates != [] ==> IsGate(db', gates, pivot)
    ensures Quiet(db, occs, pivot) ==> db' == db && gates == []
    ensures gates == [] ==> NoAndGate(db', occs, pivot)
  {
    db', gates := db, [];
    var ps, ns, i := Occs(occs, pivot), Occs(occs, Neg(pivot)), 0;
    while i < |ns|
      invariant 0 <= i <= |ns| && Propagated(db, db') && db'.units == db.units && gates == []
      invariant StillWitnessed(db', ps, pivot, marks, wit) && Marking(db', ps, pivot, marks)
      invariant Quiet(db, occs, pivot) ==> db' == db
      invariant forall k :: 0 <= k < i ==> !AndBase(db', ps, pivot, ns[k])
    {
      ghost var b := db';
      db', gates := TryBase(db', occs, pivot, ns[i], marks, wit);
      PropagatedTransitive(db, b, db');
      if gates != [] { return; }
      AllWitnessKept(b, db', ps, pivot, marks, wit);
      LessMarked(b, db', ps, pivot, marks);
      forall k | 0 <= k < i ensures !AndBase(db', ps, pivot, ns[k]) {
        if AndBase(db', ps, pivot, ns[k]) { FewerBases(b, db', ps, pivot, ns[k]); }
      }
      i := i + 1;
    }
  }

  method TryBase(db: Base, occs: map<Lit, seq<nat>>, pivot: Lit, c: nat, marks: set<Lit>, ghost wit: map<Lit, nat>)
    returns (db': Base, gates: seq<nat>)
    requires db.Valid() && Occurring(db, occs) && pivot !in db.units && Neg(pivot) !in db.units
    requires StillWitnessed(db, Occs(occs, pivot), pivot, marks, wit) && Marking(db, Occs(occs, pivot), pivot, marks)
    requires c in Occs(occs, Neg(pivot))
    ensures Propagated(db, db') && db'.units == db.units
    ensures gates != [] ==> IsGate(db', gates, pivot)
    ensures Quiet(db, occs, pivot) ==> db' == db && gates == []
    ensures gates == [] ==> !AndBase(db', Occs(occs, pivot), pivot, c)
  {
    db', gates := db, [];
    if c in db.garbage || |db.clauses[c]| < 3 { return; }
    var allMarked, satisfied := ScanBase(db.clauses[c], Neg(pivot), db.units, marks);
    if !allMarked {
      NotBase(db, Occs(occs, pivot), pivot, c, marks);
      return;
    }
    assert Neg(Neg(pivot)) == pivot;
    NoticedBase(db, c, Neg(pivot), marks, Occs(occs, pivot), wit);
    if satisfied {
      RemoveSatisfied(db, c);
      db' := db.(garbage := db.garbage + {c});
    } else {
      db', gates := BuildAndGate(db, Occs(occs, pivot), c, pivot, marks, wit);
    }
  }

  // Both signs of the pivot in turn.
  method FindAndGates(db: Base, occs: map<Lit, seq<nat>>, p: Lit, ghost ids: set<nat>)
    returns (db': Base, unsat: bool, gates: seq<nat>)
    requires db.Valid() && Occurring(db, occs) && p !in db.units && Neg(p) !in db.units
    ensures Simplified(db, db')
    ensures unsat ==> forall m: Model :: !db.Live(m)
    ensures Complete(db, occs) && CleanIn(db, ids) && !unsat ==> CleanIn(db', ids)
    ensures gates != [] ==> !unsat && p !in db'.units && Neg(p) !in db'.units && IsGate(db', gates, p)
    ensures Quiet(db, occs, p) ==> db' == db && !unsat && gates == []
    ensures gates == [] && !unsat && db'.units == db.units ==> NoAndGate(db', occs, p) && NoAndGate(db', occs, Neg(p))
  {
    assert Neg(Neg(p)) == p;
    db', unsat, gates := FindAndGate(db, occs, p, ids);
    if gates != [] || unsat || p in db'.units || Neg(p) in db'.units { return; }
    ghost var b := db';
    ListsSimplified(db, b, occs);
    if Quiet(db, occs, p) { QuietNegated(db, occs, p); }
    db', unsat, gates := FindAndGate(db', occs, Neg(p), ids);
    SimplifiedTransitive(db, b, db');
    if db'.units == db.units {
      assert b.units == db.units;
      FewerAndGates(b, db', occs, p);
    }
    if gates != [] { GateNegated(db', gates, Neg(p)); }
  }

  lemma CleanNegated(b: Base, p: Lit)
    ensures CleanFor(b, p) <==> CleanFor(b, Neg(p))
  {
    assert Neg(Neg(p)) == p;
    assert PivotIds(b, p) == PivotIds(b, Neg(p));
  }

  lemma QuietNegated(b: Base, occs: map<Lit, seq<nat>>, p: Lit)
    requires Quiet(b, occs, p)
    ensures Quiet(b, occs, Neg(p))
  {
    assert Neg(Neg(p)) == p;
    forall x, y | x in Occs(occs, Neg(p)) && y in Occs(occs, p) ensures !Paired(b, x, Neg(p), y, p) {
      assert !Paired(b, y, p, x, Neg(p));
    }
  }

  method BuildAndGate(db: Base, ps: seq<nat>, c: nat, pivot: Lit, marks: set<Lit>, ghost wit: map<Lit, nat>)
    returns (db': Base, gates: seq<nat>)
    requires db.Valid() && Occurrences(db, pivot, ps)
    requires pivot !in db.units && Neg(pivot) !in db.units
    requires StillWitnessed(db, ps, pivot, marks, wit)
    requires c < |db.clauses| && c !in db.garbage && Neg(pivot) in db.clauses[c]
    requires !RestSatisfied(db.clauses[c], Neg(pivot), db.units)
    requires forall l :: l in Open(db.clauses[c], Neg(pivot), db.units) ==> Neg(l) in marks
    ensures Propagated(db, db') && db'.units == db.units && gates != []
    ensures IsGate(db', gates, pivot)
  {
    ghost var open := Open(db.clauses[c], Neg(pivot), db.units);
    var doubled := DoubleMarks(db.clauses[c], Neg(pivot), db.units);
    forall s | s in doubled ensures s !in db.units && Neg(s) !in db.units {
      var l :| l in open && s == Neg(l);
      assert Neg(s) == l;
    }
    var sides;
    db', sides := CollectSides(db, ps, pivot, doubled);
    forall d | d in sides ensures SideClause(db', c, d, pivot) {
      assert IsSide(db', d, pivot, doubled);
      var s :| s in doubled && Binary(db', d, pivot, s);
      var l :| l in open && s == Neg(l);
    }
    forall l | l in open ensures HasSide(db', sides, pivot, l) {
      SideFound(db, db', ps, pivot, marks, wit, doubled, sides, l);
    }
    NotRestSatisfied(db, c, Neg(pivot));
    AndGate(db', c, sides, pivot);
    gates := [c] + sides;
  }

  lemma SideFound(b: Base, b': Base, ps: seq<nat>, pivot: Lit, marks: set<Lit>, wit: map<Lit, nat>, doubled: set<Lit>,
        sides: seq<nat>, l: Lit)
    requires Propagated(b, b') && b'.units == b.units
    requires pivot !in b.units && Neg(pivot) !in b.units
    requires StillWitnessed(b, ps, pivot, marks, wit) && Neg(l) in marks
    requires l !in b.units && Neg(l) !in b.units
    requires Neg(l) in doubled
    requires forall d, s :: d in ps && s in doubled && Binary(b, d, pivot, s) ==> d in sides
    ensures HasSide(b', sides, pivot, l)
  {
    assert Neg(Neg(l)) == l;
    WitnessKept(b, b', wit[Neg(l)], pivot, Neg(l));
  }

  lemma NotRestSatisfied(b: Base, c: nat, p: Lit)
    requires c < |b.clauses| && p in b.clauses[c] && p !in b.units
    requires !RestSatisfied(b.clauses[c], p, b.units)
    ensures !Satisfied(b.clauses[c], b.units)
  {
  }
}
