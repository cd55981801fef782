// Naive unit propagation as the reference for the checker (src/checker.cpp).
// Clauses are sets of literals here, so that reordering is invisible.
module UnitPropagation {
  import opened Cnf

  type Clauses = set<set<Lit>>

  // All literals of c but l are false after the given literals have been made true.
  ghost predicate UnitOn(c: set<Lit>, l: Lit, trues: set<Lit>) {
    l in c && forall k :: k in c && k != l ==> Neg(k) in trues
  }

  ghost predicate Propagates(f: Clauses, l: Lit, trues: set<Lit>) {
    exists c :: c in f && UnitOn(c, l, trues)
  }

  ghost predicate Falsified(c: set<Lit>, trues: set<Lit>) {
    forall k :: k in c ==> Neg(k) in trues
  }

  ghost predicate Conflict(f: Clauses, trues: set<Lit>) {
    exists c :: c in f && Falsified(c, trues)
  }

  // A sequence of literals each of which is given or the last literal of a clause not yet false.
  ghost predicate Derives(f: Clauses, start: set<Lit>, ls: seq<Lit>) {
    forall i :: 0 <= i < |ls| ==> ls[i] in start || Propagates(f, ls[i], Lits(ls[..i]))
  }

  function Units(trues: set<Lit>): Clauses {
    set u | u in trues :: {u}
  }

  function Negated(c: set<Lit>): set<Lit> {
    set l | l in c :: Neg(l)
  }

  // Reverse unit propagation: making c false leads to a conflict.
  ghost predicate Rup(f: Clauses, c: set<Lit>) {
    exists ls :: Derives(f, Negated(c), ls) && Conflict(f, Lits(ls))
  }

  ghost predicate SatBy(c: Clause, trues: set<Lit>) {
    exists l :: l in c && l in trues
  }

  ghost predicate SetSat(m: Model, c: set<Lit>) {
    exists l :: l in c && True(m, l)
  }

  ghost predicate ModelsSets(m: Model, f: Clauses) {
    forall c :: c in f ==> SetSat(m, c)
  }

  // Nothing more to propagate: each clause is satisfied or has two literals that are not false.
  ghost predicate Fixpoint(f: Clauses, trues: set<Lit>) {
    forall c :: c in f ==> (exists l :: l in c && l in trues) || TwoOpen(c, trues)
  }

  ghost predicate TwoOpen(c: set<Lit>, trues: set<Lit>) {
    exists k, l :: k in c && l in c && k != l && Neg(k) !in trues && Neg(l) !in trues
  }

  lemma DerivesSnoc(f: Clauses, start: set<Lit>, ls: seq<Lit>, l: Lit)
    requires Derives(f, start, ls) && (l in start || Propagates(f, l, Lits(ls)))
    ensures Derives(f, start, ls + [l])
  {
    var r := ls + [l];
    forall i | 0 <= i < |r| ensures r[i] in start || Propagates(f, r[i], Lits(r[..i])) {
      assert r[..i] == ls[..i];
      assert i == |ls| ==> ls[..i] == ls;
    }
  }

  // Everything derived holds in every model that makes the given literals true.
  lemma {:induction false} DerivesSound(f: Clauses, start: set<Lit>, ls: seq<Lit>, m: Model)
    requires Derives(f, start, ls) && ModelsSets(m, f) && Agrees(m, start)
    ensures Agrees(m, Lits(ls))
  {
    if ls != [] {
      var n := |ls| - 1;
      assert Derives(f, start, ls[..n]) by {
        assert forall i :: 0 <= i < n ==> ls[..n][i] == ls[i] && ls[..n][..i] == ls[..i];
      }
      DerivesSound(f, start, ls[..n], m);
      assert ls == ls[..n] + [ls[n]];
      if ls[n] !in start {
        var c :| c in f && UnitOn(c, ls[n], Lits(ls[..n]));
        var k :| k in c && True(m, k);
        assert k != ls[n] ==> Neg(k) in Lits(ls[..n]);
      }
    }
  }

  lemma NoConflictInModel(f: Clauses, trues: set<Lit>, m: Model)
    requires ModelsSets(m, f) && Agrees(m, trues)
    ensures !Conflict(f, trues)
  {
    forall c | c in f ensures !Falsified(c, trues) {
      var k :| k in c && True(m, k);
      Negation(m, k);
    }
  }

  lemma NegatedAgrees(c: set<Lit>, m: Model)
    ensures SetSat(m, c) || Agrees(m, Negated(c))
  {
    if !SetSat(m, c) {
      forall k | k in Negated(c) ensures True(m, k) {
        var l :| l in c && k == Neg(l);
        Negation(m, l);
      }
    }
  }

  // A clause with the reverse unit propagation property holds in every model.
  lemma RupSound(f: Clauses, c: set<Lit>, m: Model)
    requires Rup(f, c) && ModelsSets(m, f)
    ensures SetSat(m, c)
  {
    NegatedAgrees(c, m);
    if Agrees(m, Negated(c)) {
      var ls :| Derives(f, Negated(c), ls) && Conflict(f, Lits(ls));
      DerivesSound(f, Negated(c), ls, m);
      NoConflictInModel(f, Lits(ls), m);
    }
  }

  // A fixpoint contains everything that naive propagation derives, in any order, and no conflict.
  lemma {:induction false} FixpointClosed(f: Clauses, trues: set<Lit>, start: set<Lit>, ls: seq<Lit>)
    requires Fixpoint(f, trues) && Consistent(trues) && start <= trues && Derives(f, start, ls)
    ensures Lits(ls) <= trues && !Conflict(f, Lits(ls))
  {
    if ls != [] {
      var n := |ls| - 1;
      assert Derives(f, start, ls[..n]) by {
        assert forall i :: 0 <= i < n ==> ls[..n][i] == ls[i] && ls[..n][..i] == ls[..i];
      }
      FixpointClosed(f, trues, start, ls[..n]);
      assert ls == ls[..n] + [ls[n]];
      if ls[n] !in start {
        var c :| c in f && UnitOn(c, ls[n], Lits(ls[..n]));
        assert (exists l :: l in c && l in trues) || TwoOpen(c, trues);
      }
    }
    forall c | c in f ensures !Falsified(c, Lits(ls)) {
      assert (exists l :: l in c && l in trues) || TwoOpen(c, trues);
    }
  }

  lemma NoRup(f: Clauses, trues: set<Lit>, c: set<Lit>)
    requires Fixpoint(f, trues) && Consistent(trues) && Negated(c) <= trues
    ensures !Rup(f, c)
  {
    if ls :| Derives(f, Negated(c), ls) && Conflict(f, Lits(ls)) {
      FixpointClosed(f, trues, Negated(c), ls);
    }
  }
}
