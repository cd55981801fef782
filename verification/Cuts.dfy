// What a conflict depends on (src/analyze.cpp): paths of reasons, the cuts of
// the implication graph at trail positions, and its first unique implication
// point, stated without reference to the analysis.
module Cuts {
  import opened Cnf
  import opened Trail

  // A path of dependencies at non-root level: each literal is another literal of the reason of the one before.
  ghost predicate DependencyPath(t: Trail, conflict: Clause, path: seq<Lit>) {
    && (|path| > 0 ==> path[0] in conflict)
    && (forall i :: 0 <= i < |path| ==> LevelOf(t, path[i]) > 0)
    && (forall i :: 0 < i < |path| ==> Depends(t, path[i - 1], path[i]))
  }

  ghost predicate Depends(t: Trail, from: Lit, to: Lit) {
    && Var(from) in t.info && t.info[Var(from)].reason.Because?
    && to in t.info[Var(from)].reason.clause && Var(to) != Var(from)
  }

  // A path whose literals but the last one are on level lev and not before position j.
  ghost predicate PathAbove(t: Trail, conflict: Clause, lev: nat, j: nat, path: seq<Lit>) {
    && path != [] && DependencyPath(t, conflict, path)
    && forall i :: 0 <= i < |path| - 1 ==> LevelOf(t, path[i]) == lev && PosOf(t, path[i]) >= j
  }

  // The conflict reaches variable v through reasons of such literals.
  ghost predicate Reached(t: Trail, conflict: Clause, lev: nat, j: nat, v: nat) {
    exists path: seq<Lit> :: PathAbove(t, conflict, lev, j, path) && Var(path[|path| - 1]) == v
  }

  // The variables of level lev before position j that are reached.
  ghost function Cut(t: Trail, conflict: Clause, lev: nat, j: nat): set<nat> {
    set v | v in t.info && t.info[v].level == lev && t.info[v].pos < j && Reached(t, conflict, lev, j, v)
  }

  // The cut behind the literal consists of it alone, and at every later literal
  // of its level that is reached there are others.
  ghost predicate FirstPoint(t: Trail, conflict: Clause, lev: nat, uip: Lit) {
    && IsTrue(t, uip) && LevelOf(t, uip) == lev && Cut(t, conflict, lev, PosOf(t, uip) + 1) == {Var(uip)}
    && NoPointFrom(t, conflict, lev, PosOf(t, uip) + 1)
  }

  ghost predicate NoPointFrom(t: Trail, conflict: Clause, lev: nat, i: nat) {
    forall q :: i <= q < |t.lits| && Var(t.lits[q]) in Cut(t, conflict, lev, q + 1) ==>
      |Cut(t, conflict, lev, q + 1)| >= 2
  }

  // The literals of the clause other than uip are those on lower levels that are reached.
  ghost predicate LowerReached(t: Trail, conflict: Clause, lev: nat, uip: Lit, k: Lit) {
    IsTrue(t, Neg(k)) && 0 < LevelOf(t, k) < lev && Reached(t, conflict, lev, PosOf(t, uip) + 1, Var(k))
  }

  // ---------- Reaching one position further down ----------

  // Dependencies are false and earlier on the trail.
  lemma Earlier(t: Trail, f: Formula, from: Lit, to: Lit)
    requires Valid(t, f) && IsTrue(t, Neg(from)) && LevelOf(t, from) > 0 && Depends(t, from, to)
    ensures IsTrue(t, Neg(to)) && PosOf(t, to) < PosOf(t, from)
  {
    assert EntryOk(t, PosOf(t, from), f);
    var l := t.lits[PosOf(t, from)];
    assert to != l;
  }

  lemma {:induction false} PathDown(t: Trail, f: Formula, conflict: Clause, path: seq<Lit>, i: nat, j: nat)
    requires Valid(t, f) && AllFalse(t, conflict) && DependencyPath(t, conflict, path) && i <= j < |path|
    ensures IsTrue(t, Neg(path[j])) && PosOf(t, path[j]) <= PosOf(t, path[i])
    ensures i < j ==> PosOf(t, path[j]) < PosOf(t, path[i])
    decreases j
  {
    if j > 0 {
      PathDown(t, f, conflict, path, if i < j then i else 0, j - 1);
      Earlier(t, f, path[j - 1], path[j]);
    }
  }

  lemma PathPrefix(t: Trail, conflict: Clause, path: seq<Lit>, n: nat)
    requires DependencyPath(t, conflict, path) && n <= |path|
    ensures DependencyPath(t, conflict, path[..n])
  {
    forall i | 0 < i < n ensures Depends(t, path[..n][i - 1], path[..n][i]) {
      assert Depends(t, path[i - 1], path[i]);
    }
  }

  // Without expanding anything only the conflict itself is reached.
  lemma ReachedFirst(t: Trail, f: Formula, conflict: Clause, lev: nat, v: nat)
    requires Valid(t, f) && AllFalse(t, conflict)
    ensures Reached(t, conflict, lev, |t.lits|, v) <==> exists k :: k in conflict && LevelOf(t, k) > 0 && Var(k) == v
  {
    if path: seq<Lit> :| PathAbove(t, conflict, lev, |t.lits|, path) && Var(path[|path| - 1]) == v {
      PathDown(t, f, conflict, path, 0, 0);
      assert |path| == 1;
    }
    if k :| k in conflict && LevelOf(t, k) > 0 && Var(k) == v {
      assert PathAbove(t, conflict, lev, |t.lits|, [k]);
    }
  }

  lemma ReachedDown(t: Trail, conflict: Clause, lev: nat, j: nat, v: nat)
    requires Reached(t, conflict, lev, j + 1, v)
    ensures Reached(t, conflict, lev, j, v)
  {
    var path: seq<Lit> :| PathAbove(t, conflict, lev, j + 1, path) && Var(path[|path| - 1]) == v;
    assert PathAbove(t, conflict, lev, j, path);
  }

  // The literals of the reason of l that are not root-level.
  ghost predicate FromReason(t: Trail, l: Lit, v: nat) {
    exists k: Lit :: Depends(t, l, k) && LevelOf(t, k) > 0 && Var(k) == v
  }

  lemma ReachedNext(t: Trail, conflict: Clause, lev: nat, j: nat, v: nat)
    requires j < |t.lits| && LevelOf(t, t.lits[j]) == lev && PosOf(t, t.lits[j]) == j
    requires Reached(t, conflict, lev, j + 1, Var(t.lits[j])) && FromReason(t, t.lits[j], v)
    ensures Reached(t, conflict, lev, j, v)
  {
    var l := t.lits[j];
    var path: seq<Lit> :| PathAbove(t, conflict, lev, j + 1, path) && Var(path[|path| - 1]) == Var(l);
    var k: Lit :| Depends(t, l, k) && LevelOf(t, k) > 0 && Var(k) == v;
    var n, r := |path|, path + [k];
    assert Depends(t, r[n - 1], r[n]);
    assert forall i :: 0 < i < n ==> Depends(t, path[i - 1], path[i]);
    assert PathAbove(t, conflict, lev, j, r);
  }

  // What is reached in addition by expanding the literal at position j.
  lemma ReachedBack(t: Trail, f: Formula, conflict: Clause, lev: nat, j: nat, v: nat)
    requires Valid(t, f) && AllFalse(t, conflict) && j < |t.lits| && Reached(t, conflict, lev, j, v)
    ensures Reached(t, conflict, lev, j + 1, v) ||
      (LevelOf(t, t.lits[j]) == lev && Reached(t, conflict, lev, j + 1, Var(t.lits[j])) && FromReason(t, t.lits[j], v))
  {
    var path: seq<Lit> :| PathAbove(t, conflict, lev, j, path) && Var(path[|path| - 1]) == v;
    var n := |path| - 1;
    if n == 0 || PosOf(t, path[n - 1]) > j {
      PathHigher(t, f, conflict, lev, j, path);
    } else {
      PathThrough(t, f, conflict, lev, j, path);
    }
  }

  lemma PathThrough(t: Trail, f: Formula, conflict: Clause, lev: nat, j: nat, path: seq<Lit>)
    requires Valid(t, f) && AllFalse(t, conflict) && j < |t.lits| && PathAbove(t, conflict, lev, j, path)
    requires |path| > 1 && PosOf(t, path[|path| - 2]) == j
    ensures LevelOf(t, t.lits[j]) == lev && Reached(t, conflict, lev, j + 1, Var(t.lits[j]))
    ensures FromReason(t, t.lits[j], Var(path[|path| - 1]))
  {
    var n := |path| - 1;
    var p, q := path[..n], path[n - 1];
    PathPrefix(t, conflict, path, n);
    assert PathAbove(t, conflict, lev, j, p);
    PathHigher(t, f, conflict, lev, j, p);
    PathDown(t, f, conflict, path, n - 1, n - 1);
    assert t.lits[j] == Neg(q) && Depends(t, q, path[n]);
    assert Depends(t, t.lits[j], path[n]);
    assert Var(p[|p| - 1]) == Var(t.lits[j]);
  }

  // Only the literal before the last one can be at position j.
  lemma PathHigher(t: Trail, f: Formula, conflict: Clause, lev: nat, j: nat, path: seq<Lit>)
    requires Valid(t, f) && AllFalse(t, conflict) && PathAbove(t, conflict, lev, j, path)
    requires |path| > 1 ==> PosOf(t, path[|path| - 2]) > j || PosOf(t, path[|path| - 1]) >= j
    ensures PathAbove(t, conflict, lev, j + 1, path)
  {
    var n := |path| - 1;
    forall i | 0 <= i < n ensures PosOf(t, path[i]) >= j + 1 {
      PathDown(t, f, conflict, path, i, n - 1);
      PathDown(t, f, conflict, path, i, n);
    }
  }

  // ---------- The variables reached as a set ----------

  ghost predicate AllReached(t: Trail, conflict: Clause, lev: nat, j: nat, seen: set<nat>) {
    forall v: nat :: v in seen <==> Reached(t, conflict, lev, j, v)
  }

  // The variables of the other literals of the clause that are not root-level.
  function NonRoot(t: Trail, c: Clause, l: int): set<nat> {
    set k | k in c && k != l && LevelOf(t, k) > 0 :: Var(k)
  }

  lemma AllReachedFirst(t: Trail, f: Formula, conflict: Clause, lev: nat)
    requires Valid(t, f) && AllFalse(t, conflict)
    ensures AllReached(t, conflict, lev, |t.lits|, NonRoot(t, conflict, 0))
  {
    forall v: nat ensures v in NonRoot(t, conflict, 0) <==> Reached(t, conflict, lev, |t.lits|, v) {
      ReachedFirst(t, f, conflict, lev, v);
    }
  }

  // Positions whose literal is not reached or on another level make no difference.
  lemma {:induction false} AllReachedSkip(t: Trail, f: Formula, conflict: Clause, lev: nat, i: nat, j: nat,
        seen: set<nat>)
    requires Valid(t, f) && AllFalse(t, conflict) && i <= j <= |t.lits| && AllReached(t, conflict, lev, j, seen)
    requires forall q :: i <= q < j ==> Var(t.lits[q]) !in seen || LevelOf(t, t.lits[q]) != lev
    ensures AllReached(t, conflict, lev, i, seen)
    decreases j
  {
    if i < j {
      forall v: nat ensures v in seen <==> Reached(t, conflict, lev, j - 1, v) {
        if v in seen { ReachedDown(t, conflict, lev, j - 1, v); }
        if Reached(t, conflict, lev, j - 1, v) { ReachedBack(t, f, conflict, lev, j - 1, v); }
      }
      AllReachedSkip(t, f, conflict, lev, i, j - 1, seen);
    }
  }

  lemma AllReachedResolve(t: Trail, f: Formula, conflict: Clause, lev: nat, j: nat, seen: set<nat>, c: Clause)
    requires Valid(t, f) && AllFalse(t, conflict) && j < |t.lits| && AllReached(t, conflict, lev, j + 1, seen)
    requires Var(t.lits[j]) in seen && LevelOf(t, t.lits[j]) == lev > 0 && Var(t.lits[j]) in t.info
    requires t.info[Var(t.lits[j])].reason == Because(c)
    ensures AllReached(t, conflict, lev, j, seen + NonRoot(t, c, t.lits[j]))
  {
    var l := t.lits[j];
    assert EntryOk(t, j, f);
    forall v: nat ensures v in seen + NonRoot(t, c, l) <==> Reached(t, conflict, lev, j, v) {
      ReasonReaches(t, f, j, c, v);
      if v in seen { ReachedDown(t, conflict, lev, j, v); }
      if FromReason(t, l, v) { ReachedNext(t, conflict, lev, j, v); }
      if Reached(t, conflict, lev, j, v) { ReachedBack(t, f, conflict, lev, j, v); }
    }
  }

  lemma ReasonReaches(t: Trail, f: Formula, j: nat, c: Clause, v: nat)
    requires Valid(t, f) && j < |t.lits| && LevelOf(t, t.lits[j]) > 0 && Var(t.lits[j]) in t.info
    requires t.info[Var(t.lits[j])].reason == Because(c)
    ensures FromReason(t, t.lits[j], v) <==> v in NonRoot(t, c, t.lits[j])
  {
    var l := t.lits[j];
    assert EntryOk(t, j, f);
    if v in NonRoot(t, c, l) {
      var k :| k in c && k != l && LevelOf(t, k) > 0 && Var(k) == v;
      assert OnTrail(t, Neg(k), j);
      assert Depends(t, l, k);
    }
  }
}
