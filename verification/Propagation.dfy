// Unit propagation over occurrence lists during variable elimination
// (src/elim.cpp): what it keeps, and that it is complete.
module Propagation {
  import opened Cnf
  import opened Resolution
  import UP = UnitPropagation

  function Unassigned(c: Clause, units: set<Lit>): set<Lit> {
    set l | l in c && l !in units && Neg(l) !in units
  }

  predicate Satisfied(c: Clause, units: set<Lit>) {
    exists l :: l in c && l in units
  }

  // Satisfied, empty (unit == 0), unit, or with at least two unassigned literals (many).
  method ScanUnit(c: Clause, units: set<Lit>) returns (satisfied: bool, unit: int, many: bool)
    requires NoDup(c)
    ensures satisfied == Satisfied(c, units)
    ensures !satisfied && !many && unit == 0 ==> Unassigned(c, units) == {}
    ensures !satisfied && !many && unit != 0 ==> Unassigned(c, units) == {unit}
    ensures many ==> exists k, l :: k in Unassigned(c, units) && l in Unassigned(c, units) && k != l
  {
    satisfied, unit, many := false, 0, false;
    var i := 0;
    while i < |c|
      invariant 0 <= i <= |c|
      invariant forall k :: 0 <= k < i ==> c[k] !in units && (many || c[k] == unit || Neg(c[k]) in units)
      invariant unit != 0 ==> unit in c[..i] && unit !in units && Neg(unit) !in units
      invariant many ==> exists k, l :: k in Unassigned(c, units) && l in Unassigned(c, units) && k != l
    {
      var other := c[i];
      if other in units { return true, 0, false; }
      if Neg(other) !in units {
        if unit != 0 {
          assert unit in Unassigned(c, units) && other in Unassigned(c, units) && other != unit;
          many := true;
        } else {
          unit := other;
        }
      }
      i := i + 1;
    }
  }

  lemma UnitImplied(m: Model, c: Clause, units: set<Lit>)
    requires Agrees(m, units) && Sat(m, c) && !Satisfied(c, units)
    ensures exists l :: l in Unassigned(c, units) && True(m, l)
  {
    var l :| l in c && True(m, l);
    assert l in Unassigned(c, units);
  }

  // Some live clause has the literal.
  ghost predicate OccursLive(b: Base, l: Lit) {
    exists i :: 0 <= i < |b.clauses| && i !in b.garbage && l in b.clauses[i]
  }

  // Every new unit is a literal of a live clause.
  ghost predicate UnitsOccur(b: Base, b': Base) {
    forall l {:trigger OccursLive(b, l)} :: l in b'.units && l !in b.units ==> OccursLive(b, l)
  }

  // Assigning units keeps the models and removes only satisfied clauses.
  ghost predicate Propagated(b: Base, b': Base) {
    && b'.Valid() && b'.clauses == b.clauses && b.units <= b'.units && b.garbage <= b'.garbage
    && (forall i :: i in b'.garbage && i !in b.garbage ==> i < |b.clauses| && Satisfied(b.clauses[i], b'.units))
    && (forall m: Model :: b.Live(m) <==> b'.Live(m))
    && UnitsOccur(b, b')
  }

  lemma UnitsOccurTransitive(a: Base, b: Base, c: Base)
    requires UnitsOccur(a, b) && UnitsOccur(b, c) && b.clauses == a.clauses && a.garbage <= b.garbage
    ensures UnitsOccur(a, c)
  {
    forall l | l in c.units && l !in a.units ensures OccursLive(a, l) {
      if l in b.units {
        assert OccursLive(a, l);
      } else {
        assert OccursLive(b, l);
      }
    }
  }

  // A live clause of b whose literals other than u are false by now.
  ghost predicate Supported(b: Base, units: set<Lit>, u: Lit) {
    exists i :: 0 <= i < |b.clauses| && i !in b.garbage && SupportedBy(b.clauses[i], units, u)
  }

  ghost predicate SupportedBy(c: Clause, units: set<Lit>, u: Lit) {
    u in c && forall k :: k in c && k != u ==> Neg(k) in units
  }

  // Every new unit is implied by a live clause and the units.
  ghost predicate UnitsSupported(b: Base, b': Base) {
    forall u {:trigger Supported(b, b'.units, u)} :: u in b'.units && u !in b.units ==> Supported(b, b'.units, u)
  }

  lemma UnitsSupportedTransitive(a: Base, b: Base, c: Base)
    requires UnitsSupported(a, b) && UnitsSupported(b, c) && b.clauses == a.clauses
    requires a.garbage <= b.garbage && b.units <= c.units
    ensures UnitsSupported(a, c)
  {
    forall u | u in c.units && u !in a.units ensures Supported(a, c.units, u) {
      if u in b.units {
        assert Supported(a, b.units, u);
        var i :| 0 <= i < |a.clauses| && i !in a.garbage && SupportedBy(a.clauses[i], b.units, u);
        assert SupportedBy(a.clauses[i], c.units, u);
      } else {
        assert Supported(b, c.units, u);
      }
    }
  }

  lemma PropagatedTransitive(a: Base, b: Base, c: Base)
    requires Propagated(a, b) && Propagated(b, c)
    ensures Propagated(a, c)
  {
    forall i | i in c.garbage && i !in a.garbage ensures i < |a.clauses| && Satisfied(a.clauses[i], c.units) {
      if i in b.garbage {
        var l :| l in a.clauses[i] && l in b.units;
        assert l in c.units;
      }
    }
    UnitsOccurTransitive(a, b, c);
  }

  lemma RemoveSatisfied(b: Base, x: nat)
    requires b.Valid() && x < |b.clauses| && Satisfied(b.clauses[x], b.units)
    ensures Propagated(b, b.(garbage := b.garbage + {x}))
  {
    var b' := b.(garbage := b.garbage + {x});
    forall m: Model ensures b.Live(m) <==> b'.Live(m) {
      if b'.Live(m) {
        var l :| l in b.clauses[x] && l in b.units;
        assert True(m, l);
      }
    }
  }

  lemma AssignUnit(b: Base, x: nat, u: Lit)
    requires b.Valid() && x < |b.clauses| && x !in b.garbage
    requires !Satisfied(b.clauses[x], b.units) && Unassigned(b.clauses[x], b.units) == {u}
    ensures Propagated(b, b.(units := b.units + {u})) && UnitsSupported(b, b.(units := b.units + {u}))
  {
    assert u in Unassigned(b.clauses[x], b.units);
    assert OccursLive(b, u);
    forall k | k in b.clauses[x] && k != u ensures Neg(k) in b.units {
      assert k !in Unassigned(b.clauses[x], b.units);
    }
    assert SupportedBy(b.clauses[x], b.units + {u}, u);
    assert Supported(b, b.units + {u}, u);
    forall m: Model | b.Live(m) ensures True(m, u) {
      UnitImplied(m, b.clauses[x], b.units);
    }
  }

  // Literals of all clauses, a bound on the units that propagation can find.
  function Literals(cs: seq<Clause>): set<Lit> {
    set i, l | 0 <= i < |cs| && l in cs[i] :: l
  }

  ghost function Remaining(b: Base): nat {
    |Literals(b.clauses) - b.units|
  }

  lemma OneLess(b: Base, c: nat, u: Lit)
    requires c < |b.clauses| && Unassigned(b.clauses[c], b.units) == {u}
    ensures Remaining(b.(units := b.units + {u})) < Remaining(b)
  {
    assert u in Unassigned(b.clauses[c], b.units);
    var r := Literals(b.clauses) - b.units;
    assert u in r;
    assert Literals(b.clauses) - (b.units + {u}) == r - {u};
  }

  // Every listed clause has the literal, and no clause is listed twice.
  ghost predicate Occurring(b: Base, occs: map<Lit, seq<nat>>) {
    forall l :: l in occs ==> Occurrences(b, l, occs[l]) && Distinct(occs[l])
  }

  // Every live clause below n is listed for each of its literals that is not false.
  ghost predicate CompleteBelow(b: Base, occs: map<Lit, seq<nat>>, n: nat) {
    forall x, l :: 0 <= x < n && x < |b.clauses| && x !in b.garbage && l in b.clauses[x] ==>
      x in Occs(occs, l) || Neg(l) in b.units
  }

  ghost predicate Complete(b: Base, occs: map<Lit, seq<nat>>) {
    CompleteBelow(b, occs, |b.clauses|)
  }

  ghost predicate Connected(b: Base, occs: map<Lit, seq<nat>>) {
    Occurring(b, occs) && Complete(b, occs)
  }

  // No live clause among the given ones is satisfied by a unit, except by those in s.
  ghost predicate CleanBut(b: Base, ids: set<nat>, s: set<Lit>) {
    forall x, l ::
      x in ids && x < |b.clauses| && x !in b.garbage && l in b.clauses[x] && l in b.units ==> l in s
  }

  ghost predicate CleanIn(b: Base, ids: set<nat>) {
    CleanBut(b, ids, {})
  }

  // No live clause with the variable of p is satisfied.
  ghost predicate CleanFor(b: Base, p: Lit) {
    CleanIn(b, PivotIds(b, p))
  }

  // No live clause is satisfied.
  ghost predicate Clean(b: Base) {
    CleanIn(b, LiveSet(b))
  }

  function PivotIds(b: Base, p: Lit): set<nat> {
    set x: nat | x < |b.clauses| && Occurs(p, b.clauses[x])
  }

  function LiveSet(b: Base): set<nat> {
    set i: nat | i < |b.clauses| && i !in b.garbage
  }

  // ---------- Completeness ----------

  // No literal is true and at most one is unassigned: a unit or a conflict.
  ghost predicate Ready(c: Clause, units: set<Lit>) {
    !Satisfied(c, units) && forall k, l :: k in Unassigned(c, units) && l in Unassigned(c, units) ==> k == l
  }

  // Every such live clause is in the list or has the negation of a pending unit.
  ghost predicate Waiting(b: Base, pending: set<Lit>, rest: seq<nat>) {
    forall x :: 0 <= x < |b.clauses| && x !in b.garbage && Ready(b.clauses[x], b.units) ==>
      x in rest || Hit(b.clauses[x], pending)
  }

  ghost predicate Hit(c: Clause, pending: set<Lit>) {
    exists k :: k in pending && Neg(k) in c
  }

  // Nothing is left to propagate.
  ghost predicate Quiescent(b: Base) {
    Waiting(b, {}, [])
  }

  // Live clauses are listed for all literals that were not false before the root was assigned.
  ghost predicate Reaching(b: Base, occs: map<Lit, seq<nat>>, root: Lit) {
    forall x, l :: 0 <= x < |b.clauses| && x !in b.garbage && l in b.clauses[x] ==>
      x in Occs(occs, l) || (Neg(l) in b.units && Neg(l) != root)
  }

  // The live clauses and the units as sets of literals.
  ghost function Sets(b: Base): UP.Clauses {
    (set x | 0 <= x < |b.clauses| && x !in b.garbage :: Lits(b.clauses[x])) + UP.Units(b.units)
  }

  ghost predicate LiveIn(b: Base, f: UP.Clauses) {
    forall x :: 0 <= x < |b.clauses| && x !in b.garbage ==> Lits(b.clauses[x]) in f
  }

  // Naive propagation derives exactly these literals in some order.
  ghost predicate Derivable(f: UP.Clauses, units: set<Lit>) {
    exists ls :: UP.Derives(f, {}, ls) && Lits(ls) == units
  }

  ghost predicate Tracked(b: Base, f: UP.Clauses) {
    LiveIn(b, f) && Derivable(f, b.units)
  }

  lemma {:induction false} UnitsDerivable(f: UP.Clauses, units: set<Lit>)
    requires forall u :: u in units ==> {u} in f
    ensures Derivable(f, units)
    decreases |units|
  {
    if units == {} {
      assert UP.Derives(f, {}, []);
      assert Lits([]) == {};
    } else {
      var u :| u in units;
      UnitsDerivable(f, units - {u});
      assert UP.UnitOn({u}, u, units - {u});
      DerivableMore(f, units - {u}, u);
      assert units - {u} + {u} == units;
    }
  }

  lemma DerivableMore(f: UP.Clauses, units: set<Lit>, u: Lit)
    requires Derivable(f, units) && UP.Propagates(f, u, units)
    ensures Derivable(f, units + {u})
  {
    var ls :| UP.Derives(f, {}, ls) && Lits(ls) == units;
    UP.DerivesSnoc(f, {}, ls, u);
    LitsSnoc(ls, u);
  }

  lemma TrackedStart(b: Base)
    ensures Tracked(b, Sets(b))
  {
    forall u | u in b.units ensures {u} in Sets(b) { assert {u} in UP.Units(b.units); }
    UnitsDerivable(Sets(b), b.units);
  }

  // A clause with one unassigned literal left propagates it.
  lemma UnitDerivable(b: Base, f: UP.Clauses, x: nat, u: Lit)
    requires Tracked(b, f) && x < |b.clauses| && x !in b.garbage
    requires !Satisfied(b.clauses[x], b.units) && Unassigned(b.clauses[x], b.units) == {u}
    ensures Tracked(b.(units := b.units + {u}), f)
  {
    var c := Lits(b.clauses[x]);
    assert u in Unassigned(b.clauses[x], b.units);
    forall k | k in c && k != u ensures Neg(k) in b.units { assert k !in Unassigned(b.clauses[x], b.units); }
    assert UP.UnitOn(c, u, b.units);
    DerivableMore(f, b.units, u);
  }

  lemma EmptyRefutes(b: Base, f: UP.Clauses, x: nat)
    requires Tracked(b, f) && x < |b.clauses| && x !in b.garbage
    requires !Satisfied(b.clauses[x], b.units) && Unassigned(b.clauses[x], b.units) == {}
    ensures UP.Rup(f, {})
  {
    var ls :| UP.Derives(f, {}, ls) && Lits(ls) == b.units;
    var c := Lits(b.clauses[x]);
    forall k | k in c ensures Neg(k) in b.units { assert k !in Unassigned(b.clauses[x], b.units); }
    assert UP.Falsified(c, Lits(ls)) && UP.Conflict(f, Lits(ls));
    assert UP.Negated({}) == {};
  }

  // A clause becomes ready only by losing the negation of the new unit.
  lemma NewlyReady(c: Clause, units: set<Lit>, u: Lit)
    requires Ready(c, units + {u}) && !Ready(c, units)
    ensures Neg(u) in c
  {
    assert !Satisfied(c, units) by {
      forall l | l in c ensures l !in units { assert l !in units + {u}; }
    }
    var k, l :| k in Unassigned(c, units) && l in Unassigned(c, units) && k != l;
    assert k !in Unassigned(c, units + {u}) || l !in Unassigned(c, units + {u});
    assert Neg(Neg(u)) == u;
  }

  // Assigning the unit of clause x, which is next in the list.
  lemma WaitingAssigned(b: Base, pending: set<Lit>, x: nat, rest: seq<nat>, u: Lit)
    requires Waiting(b, pending, [x] + rest) && x < |b.clauses| && u in b.clauses[x]
    ensures Waiting(b.(units := b.units + {u}), pending + {u}, rest)
  {
    var b' := b.(units := b.units + {u});
    forall y | 0 <= y < |b.clauses| && y !in b.garbage && Ready(b.clauses[y], b'.units)
      ensures y in rest || Hit(b.clauses[y], pending + {u})
    {
      assert y != x;
      if Ready(b.clauses[y], b.units) {
        assert y in [x] + rest || Hit(b.clauses[y], pending);
      } else {
        NewlyReady(b.clauses[y], b.units, u);
      }
    }
  }

  // Clause x is not ready, or gone.
  lemma WaitingPassed(b: Base, b': Base, pending: set<Lit>, x: nat, rest: seq<nat>)
    requires Waiting(b, pending, [x] + rest) && x < |b.clauses|
    requires b'.clauses == b.clauses && b'.units == b.units && b.garbage <= b'.garbage
    requires x in b'.garbage || !Ready(b.clauses[x], b.units)
    ensures Waiting(b', pending, rest)
  {
    forall y | 0 <= y < |b.clauses| && y !in b'.garbage && Ready(b.clauses[y], b'.units)
      ensures y in rest || Hit(b.clauses[y], pending)
    {
      assert y != x && y !in b.garbage;
    }
  }

  lemma WaitingFewer(b: Base, b': Base, pending: set<Lit>, rest: seq<nat>)
    requires Waiting(b, pending, rest) && b'.clauses == b.clauses && b'.units == b.units && b.garbage <= b'.garbage
    ensures Waiting(b', pending, rest)
  {
  }

  // The clauses with the negation of the next unit are those in its list.
  lemma WaitingList(b: Base, occs: map<Lit, seq<nat>>, lit: Lit, pending: set<Lit>)
    requires Waiting(b, pending + {lit}, []) && ListsNegation(b, occs, lit)
    ensures Waiting(b, pending, Occs(occs, Neg(lit)))
  {
    forall x | 0 <= x < |b.clauses| && x !in b.garbage && Ready(b.clauses[x], b.units)
      ensures x in Occs(occs, Neg(lit)) || Hit(b.clauses[x], pending)
    {
      assert Hit(b.clauses[x], pending + {lit});
    }
  }

  // All live clauses with the negation of lit are listed.
  ghost predicate ListsNegation(b: Base, occs: map<Lit, seq<nat>>, lit: Lit) {
    forall x :: 0 <= x < |b.clauses| && x !in b.garbage && Neg(lit) in b.clauses[x] ==> x in Occs(occs, Neg(lit))
  }

  lemma ReachingLists(b: Base, b': Base, occs: map<Lit, seq<nat>>, root: Lit, lit: Lit)
    requires Reaching(b, occs, root) && b'.clauses == b.clauses && b.garbage <= b'.garbage
    requires lit == root || lit !in b.units
    ensures ListsNegation(b', occs, lit)
  {
    assert Neg(Neg(lit)) == lit;
  }

  // Then the units are a fixpoint for all clauses that were there before.
  lemma QuiescentFixpoint(b: Base, b': Base)
    requires Propagated(b, b') && Quiescent(b')
    ensures UP.Fixpoint(Sets(b), b'.units) && !UP.Rup(Sets(b), {})
  {
    forall c | c in Sets(b) ensures (exists l :: l in c && l in b'.units) || UP.TwoOpen(c, b'.units) {
      if c in UP.Units(b.units) {
        var u :| u in b.units && c == {u};
        assert u in c && u in b'.units;
      } else {
        var x :| 0 <= x < |b.clauses| && x !in b.garbage && c == Lits(b.clauses[x]);
        QuiescentClause(b, b', x);
      }
    }
    assert UP.Negated({}) == {};
    UP.NoRup(Sets(b), b'.units, {});
  }

  lemma QuiescentClause(b: Base, b': Base, x: nat)
    requires Propagated(b, b') && Quiescent(b') && x < |b.clauses| && x !in b.garbage
    ensures (exists l :: l in Lits(b.clauses[x]) && l in b'.units) || UP.TwoOpen(Lits(b.clauses[x]), b'.units)
  {
    var c := b.clauses[x];
    assert x in b'.garbage || !Ready(c, b'.units);
    if Satisfied(c, b'.units) {
      var l :| l in c && l in b'.units;
      assert l in Lits(c);
    } else {
      var k, l :| k in Unassigned(c, b'.units) && l in Unassigned(c, b'.units) && k != l;
      assert k in Lits(c) && l in Lits(c);
    }
  }

  // ---------- Unit propagation over occurrence lists ----------

  // The work list grows by exactly the new units.
  ghost predicate Advanced(b: Base, work: seq<Lit>, b': Base, work': seq<Lit>) {
    && Propagated(b, b') && UnitsSupported(b, b') && work <= work'
    && (forall k :: |work| <= k < |work'| ==> work'[k] in b'.units && work'[k] !in b.units)
    && (forall l :: l in b'.units ==> l in b.units || l in work'[|work|..])
    && (Remaining(b') < Remaining(b) || (work' == work && Remaining(b') == Remaining(b)))
  }

  lemma AdvancedTransitive(a: Base, u: seq<Lit>, b: Base, v: seq<Lit>, c: Base, w: seq<Lit>)
    requires Advanced(a, u, b, v) && Advanced(b, v, c, w)
    ensures Advanced(a, u, c, w)
  {
    PropagatedTransitive(a, b, c);
    UnitsSupportedTransitive(a, b, c);
    forall l | l in c.units && l !in a.units ensures l in w[|u|..] {
      if l in b.units {
        var k :| |u| <= k < |v| && v[k] == l;
        assert w[k] == l;
      }
    }
    forall k | |u| <= k < |w| ensures w[k] in c.units && w[k] !in a.units {
      assert k < |v| ==> w[k] == v[k];
    }
  }

  // One clause with the negation of a new unit: satisfied, empty, unit or longer.
  method PropagateClause(db: Base, c: nat, work: seq<Lit>, ghost i: nat, ghost rest: seq<nat>, ghost f: UP.Clauses)
    returns (db': Base, unsat: bool, work': seq<Lit>)
    requires db.Valid() && c < |db.clauses| && c !in db.garbage && i <= |work| && Tracked(db, f)
    ensures Advanced(db, work, db', work') && Tracked(db', f)
    ensures unsat ==> (forall m: Model :: !db'.Live(m)) && UP.Rup(f, {})
    ensures !unsat && Waiting(db, Lits(work[i..]), [c] + rest) ==> Waiting(db', Lits(work'[i..]), rest)
  {
    db', work', unsat := db, work, false;
    assert NoDup(db.clauses[c]);
    var satisfied, unit, many := ScanUnit(db.clauses[c], db.units);
    if satisfied {
      RemoveSatisfied(db, c);
      db' := db.(garbage := db.garbage + {c});
      PassClause(db, db', work, i, c, rest);
    } else if !many && unit == 0 {
      EmptyClause(db, c);
      EmptyRefutes(db, f, c);
      unsat := true;
    } else if !many {
      UnitAdvances(db, work, c, unit, f);
      AssignClause(db, work, i, c, rest, unit);
      db' := db.(units := db.units + {unit});
      work' := work + [unit];
    } else {
      PassClause(db, db', work, i, c, rest);
    }
  }

  lemma UnitAdvances(b: Base, work: seq<Lit>, c: nat, u: Lit, f: UP.Clauses)
    requires b.Valid() && c < |b.clauses| && c !in b.garbage && Tracked(b, f)
    requires !Satisfied(b.clauses[c], b.units) && Unassigned(b.clauses[c], b.units) == {u}
    ensures Advanced(b, work, b.(units := b.units + {u}), work + [u]) && Tracked(b.(units := b.units + {u}), f)
  {
    AssignUnit(b, c, u);
    OneLess(b, c, u);
    UnitDerivable(b, f, c, u);
    assert u in Unassigned(b.clauses[c], b.units);
    assert (work + [u])[|work|..] == [u];
  }

  lemma EmptyClause(b: Base, c: nat)
    requires c < |b.clauses| && c !in b.garbage && !Satisfied(b.clauses[c], b.units)
    requires Unassigned(b.clauses[c], b.units) == {}
    ensures forall m: Model :: !b.Live(m)
  {
    forall m: Model ensures !b.Live(m) {
      if b.Live(m) { UnitImplied(m, b.clauses[c], b.units); }
    }
  }

  lemma PassClause(b: Base, b': Base, work: seq<Lit>, i: nat, c: nat, rest: seq<nat>)
    requires b'.clauses == b.clauses && b'.units == b.units && b.garbage <= b'.garbage && c < |b.clauses|
    requires c in b'.garbage || !Ready(b.clauses[c], b.units)
    requires i <= |work|
    ensures Waiting(b, Lits(work[i..]), [c] + rest) ==> Waiting(b', Lits(work[i..]), rest)
  {
    if Waiting(b, Lits(work[i..]), [c] + rest) { WaitingPassed(b, b', Lits(work[i..]), c, rest); }
  }

  lemma AssignClause(b: Base, work: seq<Lit>, i: nat, c: nat, rest: seq<nat>, u: Lit)
    requires i <= |work| && c < |b.clauses| && Unassigned(b.clauses[c], b.units) == {u}
    ensures Waiting(b, Lits(work[i..]), [c] + rest) ==>
      Waiting(b.(units := b.units + {u}), Lits((work + [u])[i..]), rest)
  {
    assert u in Unassigned(b.clauses[c], b.units);
    assert (work + [u])[i..] == work[i..] + [u];
    LitsSnoc(work[i..], u);
    if Waiting(b, Lits(work[i..]), [c] + rest) { WaitingAssigned(b, Lits(work[i..]), c, rest, u); }
  }

  // All clauses with the negation of a new unit.
  method PropagateNegative(db: Base, ns: seq<nat>, work: seq<Lit>, ghost i: nat, ghost f: UP.Clauses)
    returns (db': Base, unsat: bool, work': seq<Lit>)
    requires db.Valid() && forall k :: 0 <= k < |ns| ==> ns[k] < |db.clauses|
    requires i <= |work| && Tracked(db, f)
    ensures Advanced(db, work, db', work') && Tracked(db', f)
    ensures unsat ==> (forall m: Model :: !db'.Live(m)) && UP.Rup(f, {})
    ensures !unsat && Waiting(db, Lits(work[i..]), ns) ==> Waiting(db', Lits(work'[i..]), [])
  {
    db', work', unsat := db, work, false;
    var j := 0;
    assert ns[0..] == ns;
    while j < |ns| && !unsat
      invariant 0 <= j <= |ns| && Advanced(db, work, db', work') && Tracked(db', f)
      invariant unsat ==> (forall m: Model :: !db'.Live(m)) && UP.Rup(f, {})
      invariant !unsat && Waiting(db, Lits(work[i..]), ns) ==> Waiting(db', Lits(work'[i..]), ns[j..])
    {
      ghost var b, w := db', work';
      db', unsat, work' := VisitNegative(db', ns, j, work', i, f);
      AdvancedTransitive(db, work, b, w, db', work');
      j := j + 1;
    }
    assert j == |ns| ==> ns[j..] == [];
  }

  // The next clause of the list, unless it is garbage.
  method VisitNegative(db: Base, ns: seq<nat>, j: nat, work: seq<Lit>, ghost i: nat, ghost f: UP.Clauses)
    returns (db': Base, unsat: bool, work': seq<Lit>)
    requires db.Valid() && j < |ns| && ns[j] < |db.clauses| && i <= |work| && Tracked(db, f)
    ensures Advanced(db, work, db', work') && Tracked(db', f)
    ensures unsat ==> (forall m: Model :: !db'.Live(m)) && UP.Rup(f, {})
    ensures !unsat && Waiting(db, Lits(work[i..]), ns[j..]) ==> Waiting(db', Lits(work'[i..]), ns[j + 1..])
  {
    assert ns[j..] == [ns[j]] + ns[j + 1..];
    if ns[j] !in db.garbage {
      db', unsat, work' := PropagateClause(db, ns[j], work, i, ns[j + 1..], f);
    } else {
      PassClause(db, db, work, i, ns[j], ns[j + 1..]);
      db', unsat, work' := db, false, work;
    }
  }

  method RemovePositive(db: Base, ps: seq<nat>, lit: Lit) returns (db': Base)
    requires db.Valid() && Occurrences(db, lit, ps) && lit in db.units
    ensures Propagated(db, db') && db'.units == db.units
    ensures forall x :: x in ps ==> x in db'.garbage
  {
    db' := db;
    for i := 0 to |ps|
      invariant Propagated(db, db') && db'.units == db.units
      invariant forall k :: 0 <= k < i ==> ps[k] in db'.garbage
    {
      if ps[i] !in db'.garbage {
        ghost var b := db';
        RemoveSatisfied(db', ps[i]);
        db' := db'.(garbage := db'.garbage + {ps[i]});
        PropagatedTransitive(db, b, db');
      }
    }
  }

  // Propagate a root-level unit through the occurrence lists.  If nothing else
  // was waiting to be propagated, afterwards nothing is, and a contradiction is
  // found if and only if naive propagation finds one.
  method ElimPropagate(db: Base, occs: map<Lit, seq<nat>>, root: Lit, ghost ids: set<nat>)
    returns (db': Base, unsat: bool)
    requires db.Valid() && Occurring(db, occs) && root in db.units
    ensures Propagated(db, db') && UnitsSupported(db, db')
    ensures unsat ==> forall m: Model :: !db'.Live(m)
    ensures Complete(db, occs) && CleanBut(db, ids, {root}) && !unsat ==> CleanIn(db', ids)
    ensures Derivable(Sets(db), db'.units) && (unsat ==> UP.Rup(Sets(db), {}))
    ensures Reaching(db, occs, root) && Waiting(db, {root}, []) ==>
      (unsat <==> UP.Rup(Sets(db), {})) && (!unsat ==> Quiescent(db') && UP.Fixpoint(Sets(db), db'.units))
  {
    TrackedStart(db);
    db', unsat := PropagateAll(db, occs, root, ids, Sets(db));
    if Reaching(db, occs, root) && Waiting(db, {root}, []) && !unsat { QuiescentFixpoint(db, db'); }
  }

  method PropagateAll(db: Base, occs: map<Lit, seq<nat>>, root: Lit, ghost ids: set<nat>, ghost f: UP.Clauses)
    returns (db': Base, unsat: bool)
    requires db.Valid() && Occurring(db, occs) && root in db.units && Tracked(db, f)
    ensures Propagated(db, db') && UnitsSupported(db, db') && Tracked(db', f)
    ensures unsat ==> (forall m: Model :: !db'.Live(m)) && UP.Rup(f, {})
    ensures Complete(db, occs) && CleanBut(db, ids, {root}) && !unsat ==> CleanIn(db', ids)
    ensures Reaching(db, occs, root) && Waiting(db, {root}, []) && !unsat ==> Quiescent(db')
  {
    db', unsat := db, false;
    var work, i := [root], 0;
    ghost var first := work;
    assert work[0..] == [root] && Lits([root]) == {root};
    while i < |work| && !unsat
      invariant 0 <= i <= |work| && Going(db, db', f, first, work)
      invariant unsat ==> (forall m: Model :: !db'.Live(m)) && UP.Rup(f, {})
      invariant unsat || (CleanSoFar(db, occs, root, ids, db', work, i) && WaitingSoFar(db, occs, root, db', work, i))
      decreases Remaining(db'), |work| - i
    {
      db', unsat, work := PropagateNext(db, db', occs, root, ids, first, work, i, f);
      i := i + 1;
    }
    NothingPending(work);
    assert unsat || i == |work|;
  }

  lemma NothingPending(work: seq<Lit>)
    ensures Lits(work[|work|..]) == {}
  {
  }

  // Only units still to be propagated satisfy clauses, or can make clauses unit.
  ghost predicate CleanSoFar(b: Base, occs: map<Lit, seq<nat>>, root: Lit, ids: set<nat>, b': Base, work: seq<Lit>,
        i: nat)
    requires i <= |work|
  {
    Complete(b, occs) && CleanBut(b, ids, {root}) ==> CleanBut(b', ids, Lits(work[i..]))
  }

  ghost predicate WaitingSoFar(b: Base, occs: map<Lit, seq<nat>>, root: Lit, b': Base, work: seq<Lit>, i: nat)
    requires i <= |work|
  {
    Reaching(b, occs, root) && Waiting(b, {root}, []) ==> Waiting(b', Lits(work[i..]), [])
  }

  method PropagateNext(ghost db: Base, b: Base, occs: map<Lit, seq<nat>>, ghost root: Lit, ghost ids: set<nat>,
        ghost first: seq<Lit>, work: seq<Lit>, i: nat, ghost f: UP.Clauses)
    returns (b': Base, unsat: bool, work': seq<Lit>)
    requires db.Valid() && Occurring(db, occs) && root in db.units && first == [root] && Going(db, b, f, first, work)
    requires i < |work| && CleanSoFar(db, occs, root, ids, b, work, i) && WaitingSoFar(db, occs, root, b, work, i)
    ensures Going(db, b', f, first, work') && |work| <= |work'|
    ensures Remaining(b') < Remaining(b) || (work' == work && Remaining(b') == Remaining(b))
    ensures unsat ==> (forall m: Model :: !b'.Live(m)) && UP.Rup(f, {})
    ensures unsat ||
      (CleanSoFar(db, occs, root, ids, b', work', i + 1) && WaitingSoFar(db, occs, root, b', work', i + 1))
  {
    StillListed(db, b, occs);
    WorkLists(db, b, occs, root, first, work, i);
    b', unsat, work' := PropagateUnit(b, occs, work[i], work, i, ids, f);
    StillGoing(db, first, b, work, b', work', f);
  }

  lemma StillGoing(a: Base, u: seq<Lit>, b: Base, v: seq<Lit>, c: Base, w: seq<Lit>, f: UP.Clauses)
    requires Going(a, b, f, u, v) && Advanced(b, v, c, w) && Tracked(c, f)
    ensures Going(a, c, f, u, w)
  {
    AdvancedTransitive(a, u, b, v, c, w);
    forall k | 0 <= k < |w| ensures w[k] in c.units { assert k < |v| ==> w[k] == v[k]; }
  }

  // What the loop keeps.
  ghost predicate Going(b: Base, b': Base, f: UP.Clauses, work: seq<Lit>, work': seq<Lit>) {
    Advanced(b, work, b', work') && Tracked(b', f) && forall k :: 0 <= k < |work'| ==> work'[k] in b'.units
  }

  // The lists of the negations of all units to be propagated are complete.
  lemma WorkLists(b: Base, b': Base, occs: map<Lit, seq<nat>>, root: Lit, first: seq<Lit>, work: seq<Lit>, i: nat)
    requires Advanced(b, first, b', work) && first == [root] && i < |work|
    ensures Reaching(b, occs, root) ==> ListsNegation(b', occs, work[i])
  {
    assert i == 0 ==> work[i] == root;
    if Reaching(b, occs, root) { ReachingLists(b, b', occs, root, work[i]); }
  }

  // The occurrence lists stay complete for the clauses that are left.
  lemma StillListed(b: Base, b': Base, occs: map<Lit, seq<nat>>)
    requires Propagated(b, b') && Occurring(b, occs)
    ensures Occurring(b', occs) && (Complete(b, occs) ==> Complete(b', occs))
  {
    forall l | l in occs ensures Occurrences(b', l, occs[l]) {
      assert Occurrences(b, l, occs[l]);
    }
  }

  method PropagateUnit(db: Base, occs: map<Lit, seq<nat>>, lit: Lit, work: seq<Lit>, ghost i: nat, ghost ids: set<nat>,
        ghost f: UP.Clauses)
    returns (db': Base, unsat: bool, work': seq<Lit>)
    requires db.Valid() && Occurring(db, occs) && lit in db.units && i < |work| && work[i] == lit && Tracked(db, f)
    ensures Advanced(db, work, db', work') && Tracked(db', f)
    ensures unsat ==> (forall m: Model :: !db'.Live(m)) && UP.Rup(f, {})
    ensures Complete(db, occs) && CleanBut(db, ids, Lits(work[i..])) && !unsat ==>
      CleanBut(db', ids, Lits(work'[i + 1..]))
    ensures ListsNegation(db, occs, lit) && Waiting(db, Lits(work[i..]), []) && !unsat ==>
      Waiting(db', Lits(work'[i + 1..]), [])
  {
    NextList(db, occs, work, i);
    db', unsat, work' := PropagateNegative(db, Occs(occs, Neg(lit)), work, i + 1, f);
    if !unsat {
      ghost var b := db';
      db' := RemovePositive(db', Occs(occs, lit), lit);
      FewerAdvanced(db, work, b, db', work', f, i + 1);
      if Complete(db, occs) && CleanBut(db, ids, Lits(work[i..])) {
        StillClean(db, b, db', occs, ids, lit, work, work', i);
      }
    }
  }

  lemma NextList(b: Base, occs: map<Lit, seq<nat>>, work: seq<Lit>, i: nat)
    requires i < |work|
    ensures ListsNegation(b, occs, work[i]) && Waiting(b, Lits(work[i..]), []) ==>
      Waiting(b, Lits(work[i + 1..]), Occs(occs, Neg(work[i])))
  {
    assert Lits(work[i..]) == Lits(work[i + 1..]) + {work[i]} by { assert work[i..] == [work[i]] + work[i + 1..]; }
    if ListsNegation(b, occs, work[i]) && Waiting(b, Lits(work[i..]), []) {
      WaitingList(b, occs, work[i], Lits(work[i + 1..]));
    }
  }

  // Removing satisfied clauses changes nothing else.
  lemma FewerAdvanced(a: Base, work: seq<Lit>, b: Base, b': Base, work': seq<Lit>, f: UP.Clauses, i: nat)
    requires Advanced(a, work, b, work') && Tracked(b, f) && Propagated(b, b') && b'.units == b.units && i <= |work'|
    ensures Advanced(a, work, b', work') && Tracked(b', f)
    ensures Waiting(b, Lits(work'[i..]), []) ==> Waiting(b', Lits(work'[i..]), [])
  {
    PropagatedTransitive(a, b, b');
    UnitsSupportedTransitive(a, b, b');
    if Waiting(b, Lits(work'[i..]), []) { WaitingFewer(b, b', Lits(work'[i..]), []); }
  }

  // The unit just propagated satisfies no live clause any more.
  lemma StillClean(b: Base, b1: Base, b2: Base, occs: map<Lit, seq<nat>>, ids: set<nat>, lit: Lit, work: seq<Lit>,
        work': seq<Lit>, i: nat)
    requires Complete(b, occs) && i < |work| && work[i] == lit && work <= work'
    requires CleanBut(b, ids, Lits(work[i..]))
    requires Propagated(b, b1) && Propagated(b1, b2) && b2.units == b1.units && lit in b.units
    requires forall l :: l in b1.units ==> l in b.units || l in work'[|work|..]
    requires forall x :: x in Occs(occs, lit) ==> x in b2.garbage
    ensures CleanBut(b2, ids, Lits(work'[i + 1..]))
  {
  }
}
