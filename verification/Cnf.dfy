// Propositional base shared by every component: literals are nonzero integers,
// a clause is a sequence of literals, a formula a set of clauses, and a model
// the set of variables that are true.
module Cnf {

  type Lit = l: int | l != 0 witness 1
  type Clause = seq<Lit>
  type Formula = set<Clause>
  type Model = iset<int>

  function Neg(l: Lit): Lit {
    -(l as int)
  }

  function Var(l: Lit): nat {
    if l < 0 then Neg(l) else l
  }

  predicate Consistent(s: set<Lit>) {
    forall l :: l in s ==> Neg(l) !in s
  }

  predicate NoDup(c: Clause) {
    forall i, j :: 0 <= i < j < |c| ==> c[i] != c[j]
  }

  predicate Tautology(c: Clause) {
    exists l :: l in c && Neg(l) in c
  }

  function Lits(c: Clause): set<Lit> {
    set l | l in c
  }

  function Negations(ls: set<Lit>): set<Lit> {
    set l | l in ls :: Neg(l)
  }

  predicate Unset(l: Lit, s: set<Lit>) {
    l !in s && Neg(l) !in s
  }

  ghost predicate True(m: Model, l: Lit) {
    if l > 0 then l in m else Neg(l) !in m
  }

  ghost predicate Sat(m: Model, c: Clause) {
    exists l :: l in c && True(m, l)
  }

  ghost predicate Models(m: Model, f: Formula) {
    forall c :: c in f ==> Sat(m, c)
  }

  // Every literal of a (partial) assignment, given as the set of its true literals, holds in m.
  ghost predicate Agrees(m: Model, s: set<Lit>) {
    forall l :: l in s ==> True(m, l)
  }

  ghost predicate Entails(f: Formula, c: Clause) {
    forall m: Model :: Models(m, f) ==> Sat(m, c)
  }

  ghost predicate Unsatisfiable(f: Formula) {
    forall m: Model :: !Models(m, f)
  }

  // The model that differs from m at most in making l true.
  ghost function Force(m: Model, l: Lit): (r: Model)
    ensures True(r, l) && !True(r, Neg(l))
    ensures forall k: Lit :: k != l && k != Neg(l) ==> True(r, k) == True(m, k)
  {
    if l > 0 then m + iset{l} else m - iset{Neg(l)}
  }

  lemma Negation(m: Model, l: Lit)
    ensures True(m, Neg(l)) == !True(m, l)
  {
  }

  lemma LitsSnoc(c: Clause, l: Lit)
    ensures Lits(c + [l]) == Lits(c) + {l}
  {
  }

  lemma {:induction false} NoDupSize(c: Clause)
    requires NoDup(c)
    ensures |Lits(c)| == |c|
  {
    if c != [] {
      var n := |c| - 1;
      assert c == c[..n] + [c[n]];
      NoDupSize(c[..n]);
      LitsSnoc(c[..n], c[n]);
      assert c[n] !in Lits(c[..n]);
    }
  }

  lemma SubsetSize<T>(a: set<T>, b: set<T>)
    requires a <= b
    ensures |a| <= |b|
  {
    assert |b - a| == |b| - |a|;
  }

  lemma SubsetOfSameSize(a: set<Lit>, b: set<Lit>)
    requires a <= b && |a| >= |b|
    ensures a == b
  {
    assert |b - a| == |b| - |a|;
  }
}
