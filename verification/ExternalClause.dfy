// Clauses from the external propagator (src/external_propagate.cpp): simplified
// while read, best two literals moved to the front, and acted upon.
module ExternalClause {
  import opened Cnf
  import opened Trail
  import opened Backtrack
  import opened Sorting

  // ---------- Reading and simplifying ----------

  // Duplicates and root-level false literals are dropped; tautologies and
  // root-level satisfied clauses are to be skipped.
  method ReadClause(lits: Clause, root: set<Lit>) returns (skip: bool, c: Clause)
    requires Consistent(root)
    ensures skip <==> Tautology(lits) || exists l :: l in lits && l in root
    ensures NoDup(c) && forall l :: l in c ==> l in lits && l !in root && Neg(l) !in root
    ensures !skip ==> forall l :: l in lits ==> l in c || Neg(l) in root
  {
    skip, c := false, [];
    var marks: set<Lit> := {};
    for i := 0 to |lits|
      invariant NoDup(c) && marks == Lits(c) && !Tautology(c)
      invariant forall k :: 0 <= k < |c| ==> c[k] in lits && c[k] !in root && Neg(c[k]) !in root
      invariant skip ==> Tautology(lits) || exists l :: l in lits && l in root
      invariant forall k :: 0 <= k < i ==> lits[k] in c || Neg(lits[k]) in root || skip
      invariant !skip ==> forall k :: 0 <= k < i ==> lits[k] !in root
    {
      var l := lits[i];
      if l in marks {
      } else if Neg(l) in marks {
        assert l in lits && Neg(l) in lits;
        skip := true;
      } else if l in root {
        skip := true;
      } else if Neg(l) in root {
      } else {
        LitsSnoc(c, l);
        SnocTautology(c, l);
        marks := marks + {l};
        c := c + [l];
      }
    }
    if !skip {
      NotTautology(lits, c, root);
    }
  }

  lemma SnocTautology(c: Clause, l: Lit)
    requires !Tautology(c) && Neg(l) !in c
    ensures !Tautology(c + [l])
  {
    forall k | k in c + [l] ensures Neg(k) !in c + [l] {
      assert Neg(k) == l ==> k == Neg(l);
    }
  }

  lemma NotTautology(lits: Clause, c: Clause, root: set<Lit>)
    requires !Tautology(c) && Consistent(root)
    requires forall k :: 0 <= k < |lits| ==> (lits[k] in c || Neg(lits[k]) in root) && lits[k] !in root
    requires forall k :: 0 <= k < |c| ==> c[k] !in root && Neg(c[k]) !in root
    ensures !Tautology(lits)
  {
    forall l | l in lits ensures Neg(l) !in lits {
      assert Neg(Neg(l)) == l;
    }
  }

  // In models of the root-level assignment the clause read is equivalent to the one given.
  lemma ReadEquivalent(lits: Clause, root: set<Lit>, c: Clause, m: Model)
    requires Agrees(m, root)
    requires forall l :: l in c ==> l in lits
    requires forall l :: l in lits ==> l in c || Neg(l) in root
    ensures Sat(m, lits) <==> Sat(m, c)
  {
    if Sat(m, lits) {
      var l :| l in lits && True(m, l);
      Negation(m, l);
    }
  }

  // ---------- Choosing the watched literals ----------

  // Literals true at a low level are best, then unassigned ones, then those false at a high level.
  predicate Better(t: Trail, a: Lit, b: Lit) {
    if IsTrue(t, a) then !IsTrue(t, b) || LevelOf(t, a) < LevelOf(t, b)
    else if IsTrue(t, Neg(a)) then IsTrue(t, Neg(b)) && LevelOf(t, a) > LevelOf(t, b)
    else IsTrue(t, Neg(b))
  }

  // No literal from i on is better than the one at i.
  ghost predicate Best(t: Trail, c: Clause, i: nat) {
    i < |c| && forall j :: i <= j < |c| ==> !Better(t, c[j], c[i])
  }

  lemma BetterOrder(t: Trail, f: Formula, a: Lit, b: Lit, c: Lit)
    requires Valid(t, f)
    ensures !Better(t, a, b) && !Better(t, b, c) ==> !Better(t, a, c)
    ensures !Better(t, a, a)
  {
    NotBoth(t, a);
    NotBoth(t, b);
    NotBoth(t, c);
  }

  lemma NotBoth(t: Trail, l: Lit)
    ensures !(IsTrue(t, l) && IsTrue(t, Neg(l)))
  {
    assert Var(Neg(l)) == Var(l);
  }

  method MoveLiteralToWatch(t: Trail, c: Clause, i: nat, ghost f: Formula) returns (d: Clause)
    requires Valid(t, f) && i < |c|
    ensures multiset(d) == multiset(c) && |d| == |c| && Best(t, d, i)
    ensures forall k :: 0 <= k < i ==> d[k] == c[k]
    ensures forall j :: i <= j < |c| ==> d[j] in c[i..]
  {
    var best := FindBest(t, c, i, f);
    d := c[i := c[best]][best := c[i]];
    assert c[i] in c[i..] && c[best] in c[i..];
  }

  method FindBest(t: Trail, c: Clause, i: nat, ghost f: Formula) returns (best: nat)
    requires Valid(t, f) && i < |c|
    ensures i <= best < |c| && forall k :: i <= k < |c| ==> !Better(t, c[k], c[best])
  {
    best := i;
    BetterOrder(t, f, c[i], c[i], c[i]);
    for j := i + 1 to |c|
      invariant i <= best < j && forall k :: i <= k < j ==> !Better(t, c[k], c[best])
    {
      if Better(t, c[j], c[best]) {
        forall k | i <= k < j ensures !Better(t, c[k], c[j]) {
          BetterStep(t, f, c[k], c[best], c[j]);
        }
        best := j;
        BetterOrder(t, f, c[j], c[j], c[j]);
      }
    }
  }

  lemma BetterStep(t: Trail, f: Formula, a: Lit, b: Lit, c: Lit)
    requires Valid(t, f) && !Better(t, a, b) && Better(t, c, b)
    ensures !Better(t, a, c)
  {
    NotBoth(t, a);
    NotBoth(t, b);
    NotBoth(t, c);
  }

  method ChooseWatches(t: Trail, c: Clause, ghost f: Formula) returns (d: Clause)
    requires Valid(t, f) && |c| >= 2
    ensures multiset(d) == multiset(c) && |d| == |c| && Best(t, d, 0) && Best(t, d, 1)
  {
    var b := MoveLiteralToWatch(t, c, 0, f);
    d := MoveLiteralToWatch(t, b, 1, f);
    forall j | 0 <= j < |d| ensures !Better(t, d[j], d[0]) {
      if j > 0 {
        assert d[j] in b[1..];
      }
    }
  }

  // ---------- Acting on the clause ----------

  // Literal l is the only one that is not false, and it is unassigned.
  ghost predicate PropagatesLit(t: Trail, c: Clause, l: Lit) {
    l in c && Unassigned(t, l) && forall k :: k in c && k != l ==> IsTrue(t, Neg(k))
  }

  // The first two literals decide about the whole clause.
  lemma TwoSuffice(t: Trail, c: Clause)
    requires |c| >= 2 && NoDup(c) && Best(t, c, 0) && Best(t, c, 1)
    ensures AllFalse(t, c) <==> IsTrue(t, Neg(c[0])) && IsTrue(t, Neg(c[1]))
    ensures (exists l :: PropagatesLit(t, c, l)) <==> Unassigned(t, c[0]) && IsTrue(t, Neg(c[1]))
    ensures Unassigned(t, c[0]) && IsTrue(t, Neg(c[1])) ==> PropagatesLit(t, c, c[0])
    ensures AllFalse(t, c) ==> forall l :: l in c ==> LevelOf(t, l) <= LevelOf(t, c[0])
    ensures IsTrue(t, Neg(c[1])) ==> forall l :: l in c && l != c[0] ==> LevelOf(t, l) <= LevelOf(t, c[1])
  {
    FalseTail(t, c, 0);
    FalseTail(t, c, 1);
    NotBoth(t, c[0]);
    assert c[0] in c && c[1] in c && c[0] != c[1];
    if IsTrue(t, Neg(c[1])) {
      forall k | k in c && k != c[0] ensures IsTrue(t, Neg(k)) && LevelOf(t, k) <= LevelOf(t, c[1]) {
        var i :| 0 <= i < |c| && c[i] == k;
      }
      assert Unassigned(t, c[0]) ==> PropagatesLit(t, c, c[0]);
    }
    forall l | PropagatesLit(t, c, l) ensures l == c[0] {
      var i :| 0 <= i < |c| && c[i] == l;
    }
  }

  lemma FalseTail(t: Trail, c: Clause, i: nat)
    requires Best(t, c, i)
    ensures IsTrue(t, Neg(c[i])) ==> forall j :: i <= j < |c| ==>
      IsTrue(t, Neg(c[j])) && LevelOf(t, c[j]) <= LevelOf(t, c[i])
  {
    NotBoth(t, c[i]);
    forall j | IsTrue(t, Neg(c[i])) && i <= j < |c|
      ensures IsTrue(t, Neg(c[j])) && LevelOf(t, c[j]) <= LevelOf(t, c[i])
    {
      assert !Better(t, c[j], c[i]);
      NotBoth(t, c[j]);
    }
  }

  datatype Outcome =
    | Ignored | Contradiction | Unit(lit: Lit)
    | Conflict(clause: Clause) | Propagated(clause: Clause) | Added(clause: Clause)

  // What inspecting all literals of the clause says, with duplicates and root-level false literals left out.
  ghost predicate Inspected(t: Trail, lits: Clause, root: set<Lit>, out: Outcome) {
    if Tautology(lits) || exists l :: l in lits && l in root then out.Ignored?
    else if forall l :: l in lits ==> Neg(l) in root then out.Contradiction?
    else if exists l :: OnlyOpen(lits, root, l) then out.Unit? && OnlyOpen(lits, root, out.lit)
    else
      && (out.Conflict? <==> forall l :: l in lits && Neg(l) !in root ==> IsTrue(t, Neg(l)))
      && (out.Propagated? <==> exists l :: Neg(l) !in root && PropagatesRest(t, lits, root, l))
      && (out.Conflict? || out.Propagated? || out.Added?)
  }

  // All literals but l are false at the root level.
  ghost predicate OnlyOpen(lits: Clause, root: set<Lit>, l: Lit) {
    l in lits && Neg(l) !in root && forall k :: k in lits && k != l ==> Neg(k) in root
  }

  ghost predicate PropagatesRest(t: Trail, lits: Clause, root: set<Lit>, l: Lit) {
    l in lits && Unassigned(t, l) && forall k :: k in lits && k != l && Neg(k) !in root ==> IsTrue(t, Neg(k))
  }

  // Decide by the first two literals.
  method Classify(t: Trail, lits: Clause, root: set<Lit>, ghost f: Formula) returns (out: Outcome)
    requires Valid(t, f) && Consistent(root)
    ensures Inspected(t, lits, root, out)
    ensures out.Conflict? || out.Propagated? || out.Added? ==>
      NoDup(out.clause) && |out.clause| >= 2 && Best(t, out.clause, 0) && Best(t, out.clause, 1)
    ensures out.Conflict? || out.Propagated? || out.Added? ==> forall l :: l in out.clause <==>
      l in lits && Neg(l) !in root
  {
    var skip, c := ReadClause(lits, root);
    if skip { return Ignored; }
    assert forall l :: l in c <==> l in lits && Neg(l) !in root;
    if |c| == 0 { return Contradiction; }
    if |c| == 1 {
      OnlyOne(lits, root, c);
      return Unit(c[0]);
    }
    MoreThanOne(lits, root, c);
    var d := ChooseWatches(t, c, f);
    SameMembers(c, d);
    SameDistinct(c, d);
    TwoSuffice(t, d);
    if IsTrue(t, Neg(d[0])) && IsTrue(t, Neg(d[1])) {
      out := Conflict(d);
    } else if Unassigned(t, d[0]) && IsTrue(t, Neg(d[1])) {
      out := Propagated(d);
    } else {
      out := Added(d);
    }
    Agreement(t, lits, root, d);
  }

  lemma OnlyOne(lits: Clause, root: set<Lit>, c: Clause)
    requires |c| == 1 && forall l :: l in c <==> l in lits && Neg(l) !in root
    ensures OnlyOpen(lits, root, c[0])
  {
    assert c[0] in c;
  }

  lemma MoreThanOne(lits: Clause, root: set<Lit>, c: Clause)
    requires |c| >= 2 && NoDup(c) && forall l :: l in c <==> l in lits && Neg(l) !in root
    ensures !exists l :: OnlyOpen(lits, root, l)
    ensures exists l :: l in lits && Neg(l) !in root
  {
    assert c[0] in c && c[1] in c && c[0] != c[1];
    forall l: Lit ensures !OnlyOpen(lits, root, l) {
    }
  }

  lemma Agreement(t: Trail, lits: Clause, root: set<Lit>, d: Clause)
    requires forall l :: l in d <==> l in lits && Neg(l) !in root
    ensures AllFalse(t, d) <==> forall l :: l in lits && Neg(l) !in root ==> IsTrue(t, Neg(l))
    ensures (exists l :: PropagatesLit(t, d, l)) <==> exists l :: Neg(l) !in root && PropagatesRest(t, lits, root, l)
  {
    forall l: Lit ensures PropagatesLit(t, d, l) <==> Neg(l) !in root && PropagatesRest(t, lits, root, l) {
    }
  }

  // The reaction of the solver: without chronological backtracking it first
  // goes back to the highest level of the false literals.
  method Handle(s: Search, c: Clause, chrono: bool) returns (conflict: bool, changed: bool)
    requires Valid(s.t, s.formula) && Entails(s.formula, c) && |c| >= 2 && NoDup(c)
    requires Best(s.t, c, 0) && Best(s.t, c, 1)
    modifies s`t
    ensures Valid(s.t, s.formula)
    ensures conflict <==> AllFalse(old(s.t), c)
    ensures conflict ==>
      AllFalse(s.t, c) && (!chrono ==> Height(s.t) == LevelOf(s.t, c[0])) &&
      (changed <==> s.t.control != old(s.t).control)
    ensures !conflict ==> (changed <==> exists l :: PropagatesLit(old(s.t), c, l))
    ensures !conflict && changed ==> PropagatesLit(old(s.t), c, c[0]) && IsTrue(s.t, c[0]) && forall k ::
      k in c && k != c[0] ==> IsTrue(s.t, Neg(k))
    ensures !conflict && changed && !chrono ==> Height(s.t) == LevelOf(old(s.t), c[1])
    ensures chrono ==> s.t.control == old(s.t).control
    ensures chrono && conflict ==> s.t == old(s.t)
    ensures !conflict && changed && chrono ==>
      HighestOther(old(s.t), c, c[0], LevelOf(s.t, c[0])) && s.t.lits == old(s.t).lits + [c[0]]
    ensures !chrono && changed ==> Height(s.t) <= Height(old(s.t)) && (!conflict ==> LevelOf(s.t, c[0]) == Height(s.t))
    ensures !changed ==> s.t == old(s.t)
  {
    TwoSuffice(s.t, c);
    ghost var t0 := s.t;
    if IsTrue(s.t, Neg(c[0])) && IsTrue(s.t, Neg(c[1])) {
      changed := false;
      TopLevel(s.t, s.formula, c[0]);
      if !chrono && LevelOf(s.t, c[0]) != Height(s.t) {
        BacktrackTo(s, LevelOf(s.t, c[0]));
        KeepsFalse(t0, s.t, c, 0, LevelOf(t0, c[0]));
        changed := true;
      }
      conflict := true;
    } else if Unassigned(s.t, c[0]) && IsTrue(s.t, Neg(c[1])) {
      TopLevel(s.t, s.formula, c[1]);
      if !chrono && LevelOf(s.t, c[1]) != Height(s.t) {
        BacktrackTo(s, LevelOf(s.t, c[1]));
        KeepsFalse(t0, s.t, c, c[0], LevelOf(t0, c[1]));
      }
      ghost var t1 := s.t;
      s.SearchAssign(c[0], c, chrono);
      PushOld(t1, c[0], LevelOf(s.t, c[0]), s.t.info[Var(c[0])].reason, s.formula);
      conflict, changed := false, true;
    } else {
      conflict, changed := false, false;
    }
  }

  lemma TopLevel(t: Trail, f: Formula, l: Lit)
    requires Valid(t, f) && IsTrue(t, Neg(l))
    ensures LevelOf(t, l) <= Height(t)
  {
    assert EntryOk(t, PosOf(t, Neg(l)), f);
  }

  lemma KeepsFalse(t: Trail, t': Trail, c: Clause, but: int, n: nat)
    requires forall l: Lit :: IsTrue(t', l) <==> IsTrue(t, l) && LevelOf(t, l) <= n
    requires forall k :: k in c && k != but ==> IsTrue(t, Neg(k)) && LevelOf(t, k) <= n
    ensures forall k :: k in c && k != but ==> IsTrue(t', Neg(k))
    ensures but != 0 && Unassigned(t, but) ==> Unassigned(t', but)
  {
    forall k | k in c && k != but ensures IsTrue(t', Neg(k)) {
      assert LevelOf(t, Neg(k)) == LevelOf(t, k);
    }
  }
}
