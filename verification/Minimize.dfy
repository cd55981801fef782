// Recursive minimization of learned clauses (src/minimize.cpp).
module Minimize {
  import opened Cnf
  import opened Sorting
  import opened Trail

  // Cached results by assigned literal, and the literals with a cached result.
  datatype Flags = Flags(removable: set<Lit>, poison: set<Lit>, minimized: seq<Lit>)

  // What analysis has recorded about each level: number of seen literals and their first trail position.
  datatype Seen = Seen(count: map<nat, nat>, trail: map<nat, nat>)

  function CountOf(s: Seen, lev: nat): nat {
    if lev in s.count then s.count[lev] else 0
  }

  function TrailOf(s: Seen, lev: nat): nat {
    if lev in s.trail then s.trail[lev] else 0
  }

  // In every model in which the kept literals are true, so is l.
  ghost predicate ImpliedBy(f: Formula, keep: set<Lit>, l: Lit) {
    forall m: Model :: Models(m, f) && Agrees(m, keep) ==> True(m, l)
  }

  ghost predicate FlagsOk(f: Formula, keep: set<Lit>, g: Flags) {
    && (forall l :: l in g.removable ==> ImpliedBy(f, keep, l))
    && (forall l :: l in g.removable || l in g.poison ==> l in g.minimized)
  }

  lemma RootImplied(t: Trail, f: Formula, keep: set<Lit>, l: Lit)
    requires Valid(t, f) && IsTrue(t, l) && LevelOf(t, l) == 0
    ensures ImpliedBy(f, keep, l)
  {
    assert EntryOk(t, PosOf(t, l), f);
    forall m: Model | Models(m, f) && Agrees(m, keep) ensures True(m, l) {
      assert Sat(m, [l]);
    }
  }

  // If all other literals of the reason are implied to be false then the literal is implied.
  lemma ReasonImplied(f: Formula, keep: set<Lit>, l: Lit, c: Clause)
    requires Entails(f, c) && forall k :: k in c && k != l ==> ImpliedBy(f, keep, Neg(k))
    ensures ImpliedBy(f, keep, l)
  {
    forall m: Model | Models(m, f) && Agrees(m, keep) ensures True(m, l) {
      var k :| k in c && True(m, k);
      Negation(m, k);
    }
  }

  // ---------- Which literals are redundant ----------

  // Literals with a reason that the early abort does not exclude.
  ghost predicate Tryable(t: Trail, seen: Seen, l: Lit) {
    && Var(l) in t.info && t.info[Var(l)].reason.Because? && t.info[Var(l)].level != |t.control| - 1
    && t.info[Var(l)].pos > TrailOf(seen, t.info[Var(l)].level)
  }

  // Root-level, kept, or all other literals of the reason are redundant, without cache and limit.
  ghost predicate Redundant(t: Trail, seen: Seen, keep: set<Lit>, l: Lit)
    decreases PosOf(t, l)
  {
    || LevelOf(t, l) == 0 || l in keep
    || (Tryable(t, seen, l) && forall k :: k in t.info[Var(l)].reason.clause && k != l ==>
          PosOf(t, k) < PosOf(t, l) && Redundant(t, seen, keep, Neg(k)))
  }

  // The cache is right: poisoned literals are not redundant unless the depth limit was hit.
  ghost predicate RemovableOk(t: Trail, seen: Seen, keep: set<Lit>, g: Flags) {
    forall l :: l in g.removable ==> Redundant(t, seen, keep, l)
  }

  ghost predicate PoisonOk(t: Trail, seen: Seen, keep: set<Lit>, g: Flags) {
    forall l :: l in g.poison && l !in keep ==> !Redundant(t, seen, keep, l)
  }

  ghost predicate Cached(g: Flags, l: Lit) {
    l in g.removable || l in g.poison
  }

  // New cache entries are for the literal itself or earlier ones.
  ghost predicate CachedBelow(t: Trail, g0: Flags, g: Flags, top: Lit) {
    forall l :: Cached(g, l) && !Cached(g0, l) ==> l == top || PosOf(t, l) < PosOf(t, top)
  }

  // Only kept literals up to the position of l matter.
  lemma {:induction false} RedundantLocal(t: Trail, seen: Seen, keep: set<Lit>, keep': set<Lit>, l: Lit)
    requires forall k: Lit :: PosOf(t, k) <= PosOf(t, l) ==> (k in keep <==> k in keep')
    ensures Redundant(t, seen, keep, l) <==> Redundant(t, seen, keep', l)
    decreases PosOf(t, l)
  {
    if Tryable(t, seen, l) {
      forall k | k in t.info[Var(l)].reason.clause && PosOf(t, k) < PosOf(t, l)
        ensures Redundant(t, seen, keep, Neg(k)) <==> Redundant(t, seen, keep', Neg(k))
      {
        RedundantLocal(t, seen, keep, keep', Neg(k));
      }
    }
  }

  lemma {:induction false} RedundantMore(t: Trail, seen: Seen, keep: set<Lit>, keep': set<Lit>, l: Lit)
    requires Redundant(t, seen, keep, l) && keep <= keep'
    ensures Redundant(t, seen, keep', l)
    decreases PosOf(t, l)
  {
    if LevelOf(t, l) != 0 && l !in keep {
      forall k | k in t.info[Var(l)].reason.clause && k != l ensures Redundant(t, seen, keep', Neg(k)) {
        RedundantMore(t, seen, keep, keep', Neg(k));
      }
    }
  }

  method MinimizeLiteral(t: Trail, l: Lit, depth: nat, limit: nat, seen: Seen, keep: set<Lit>, g0: Flags,
        ghost known: set<nat>, ghost f: Formula)
    returns (res: bool, g: Flags)
    requires Valid(t, f) && IsTrue(t, l) && FlagsOk(f, keep, g0) && Closed(t, known)
    requires Handled(t, known, l)
    ensures FlagsOk(f, keep, g)
    ensures (LevelOf(t, l) == 0 ==> res) && (res ==> ImpliedBy(f, keep, l))
    ensures LevelOf(t, l) == Height(t) > 0 && l !in keep && l !in g0.removable ==> !res
    ensures g.removable <= g0.removable + Below(t) && CachedBelow(t, g0, g, l)
    ensures RemovableOk(t, seen, keep, g0) ==> RemovableOk(t, seen, keep, g)
    ensures RemovableOk(t, seen, keep, g0) && res ==> Redundant(t, seen, keep, l)
    ensures res && depth == 0 && l !in keep && l !in g0.removable ==>
      LevelOf(t, l) == 0 || CountOf(seen, LevelOf(t, l)) >= 2
    ensures PoisonOk(t, seen, keep, g0) && depth + PosOf(t, l) <= limit ==>
      PoisonOk(t, seen, keep, g) &&
      (res || !Redundant(t, seen, keep, l) || (depth == 0 && CountOf(seen, LevelOf(t, l)) < 2))
    decreases PosOf(t, l), 1
  {
    g := g0;
    var v := t.info[Var(l)];
    if v.level == 0 {
      RootImplied(t, f, keep, l);
      return true, g;
    }
    if l in g.removable || l in keep { return true, g; }
    if v.reason.NoReason? || l in g.poison || v.level == Height(t) { return false, g; }
    if depth == 0 && CountOf(seen, v.level) < 2 { return false, g; }
    if v.pos <= TrailOf(seen, v.level) { return false, g; }
    if depth > limit { return false, g; }
    assert EntryOk(t, v.pos, f);
    res, g := MinimizeReason(t, l, v.reason.clause, depth, limit, seen, keep, g, known, f);
    if res {
      ReasonImplied(f, keep, l, v.reason.clause);
      g := Flags(g.removable + {l}, g.poison, g.minimized + [l]);
    } else {
      g := Flags(g.removable, g.poison + {l}, g.minimized + [l]);
    }
  }

  // Literals below the current level.
  ghost function Below(t: Trail): set<Lit> {
    set i | 0 <= i < |t.lits| && LevelOf(t, t.lits[i]) < |t.control| - 1 :: t.lits[i]
  }

  method MinimizeReason(t: Trail, l: Lit, c: Clause, depth: nat, limit: nat, seen: Seen, keep: set<Lit>, g0: Flags,
        ghost known: set<nat>, ghost f: Formula)
    returns (res: bool, g: Flags)
    requires Valid(t, f) && IsTrue(t, l) && FlagsOk(f, keep, g0) && Closed(t, known)
    requires forall k :: k in c && k != l ==> OnTrail(t, Neg(k), PosOf(t, l)) && Handled(t, known, k)
    ensures FlagsOk(f, keep, g)
    ensures res ==> forall k :: k in c && k != l ==> ImpliedBy(f, keep, Neg(k))
    ensures g.removable <= g0.removable + Below(t) && CachedBelow(t, g0, g, l)
    ensures RemovableOk(t, seen, keep, g0) ==> RemovableOk(t, seen, keep, g)
    ensures RemovableOk(t, seen, keep, g0) && res ==> forall k :: k in c && k != l ==> Redundant(t, seen, keep, Neg(k))
    ensures PoisonOk(t, seen, keep, g0) && depth + PosOf(t, l) <= limit ==>
      PoisonOk(t, seen, keep, g) && (res || exists k :: k in c && k != l && !Redundant(t, seen, keep, Neg(k)))
    decreases PosOf(t, l), 0
  {
    res, g := true, g0;
    var i := 0;
    while res && i < |c|
      invariant 0 <= i <= |c| && FlagsOk(f, keep, g) && g.removable <= g0.removable + Below(t)
      invariant res ==> forall k :: 0 <= k < i && c[k] != l ==> ImpliedBy(f, keep, Neg(c[k]))
      invariant CachedBelow(t, g0, g, l) && (RemovableOk(t, seen, keep, g0) ==> RemovableOk(t, seen, keep, g))
      invariant RemovableOk(t, seen, keep, g0) && res ==>
        forall k :: 0 <= k < i && c[k] != l ==> Redundant(t, seen, keep, Neg(c[k]))
      invariant PoisonOk(t, seen, keep, g0) && depth + PosOf(t, l) <= limit ==>
        PoisonOk(t, seen, keep, g) && (res || exists k :: k in c && k != l && !Redundant(t, seen, keep, Neg(k)))
      decreases |c| - i
    {
      if c[i] != l {
        res, g := MinimizeLiteral(t, Neg(c[i]), depth + 1, limit, seen, keep, g, known, f);
      }
      i := i + 1;
    }
  }

  // Smaller trail positions first.
  function TrailOrder(t: Trail): Order<Lit> {
    (a: Lit, b: Lit) => PosOf(t, a) <= PosOf(t, b)
  }

  // After the first i literals: those kept, and those removed because they are implied.
  ghost predicate Progress(t: Trail, f: Formula, sorted: Clause, i: nat, kept: Clause, removed: set<Lit>) {
    && |t.control| > 0 && i <= |sorted| && NoDup(kept) && (forall k :: k in kept ==> k in sorted)
    && (forall k, n :: 0 <= k < |kept| && i <= n < |sorted| ==> kept[k] != sorted[n])
    && (forall k :: 0 <= k < i ==> sorted[k] in kept || sorted[k] in removed)
    && (forall k :: k in removed ==> ImpliedBy(f, Negations(Lits(kept)), Neg(k)) && !(LevelOf(t, k) == Height(t) > 0))
  }

  lemma KeepOne(t: Trail, f: Formula, sorted: Clause, i: nat, kept: Clause, removed: set<Lit>, g: Flags)
    requires Progress(t, f, sorted, i, kept, removed) && i < |sorted| && NoDup(sorted)
    requires FlagsOk(f, Negations(Lits(kept)), g)
    ensures Progress(t, f, sorted, i + 1, kept + [sorted[i]], removed)
    ensures FlagsOk(f, Negations(Lits(kept + [sorted[i]])), g)
    ensures Negations(Lits(kept + [sorted[i]])) == Negations(Lits(kept)) + {Neg(sorted[i])}
  {
    var kept' := kept + [sorted[i]];
    assert Negations(Lits(kept')) == Negations(Lits(kept)) + {Neg(sorted[i])} by {
      assert forall k :: k in kept' <==> k in kept || k == sorted[i];
    }
    forall k | k in removed ensures ImpliedBy(f, Negations(Lits(kept')), Neg(k)) {
      ImpliedMore(f, Negations(Lits(kept)), Negations(Lits(kept')), Neg(k));
    }
    forall l | l in g.removable ensures ImpliedBy(f, Negations(Lits(kept')), l) {
      ImpliedMore(f, Negations(Lits(kept)), Negations(Lits(kept')), l);
    }
  }

  lemma ImpliedMore(f: Formula, keep: set<Lit>, keep': set<Lit>, l: Lit)
    requires ImpliedBy(f, keep, l) && keep <= keep'
    ensures ImpliedBy(f, keep', l)
  {
    forall m: Model | Models(m, f) && Agrees(m, keep') ensures True(m, l) {
      assert Agrees(m, keep);
    }
  }

  // Removing implied literals keeps the clause entailed.
  lemma KeepEntailed(f: Formula, c: Clause, kept: Clause, removed: set<Lit>)
    requires Entails(f, c) && (forall k :: k in c ==> k in kept || k in removed)
    requires forall k :: k in removed ==> ImpliedBy(f, Negations(Lits(kept)), Neg(k))
    ensures Entails(f, kept)
  {
    forall m: Model | Models(m, f) ensures Sat(m, kept) {
      var k :| k in c && True(m, k);
      Negation(m, k);
      NegationsAgree(kept, m);
    }
  }

  lemma NegationsAgree(c: Clause, m: Model)
    ensures Sat(m, c) || Agrees(m, Negations(Lits(c)))
  {
    if !Sat(m, c) {
      forall l | l in Negations(Lits(c)) ensures True(m, l) {
        var k :| k in c && l == Neg(k);
        Negation(m, k);
      }
    }
  }

  // Whether literal k of the clause may be dropped, given the true literals kept besides it.
  ghost predicate Droppable(t: Trail, seen: Seen, keep: set<Lit>, k: Lit) {
    LevelOf(t, k) == 0 ||
      (CountOf(seen, LevelOf(t, k)) >= 2 && Redundant(t, seen, keep - {Neg(k)}, Neg(k)))
  }

  // Only such literals are dropped, and all of them unless the depth limit is hit.
  ghost predicate Judged(t: Trail, seen: Seen, limit: nat, keep: set<Lit>, k: Lit) {
    && (Neg(k) !in keep ==> Droppable(t, seen, keep, k))
    && (limit >= |t.lits| && Neg(k) in keep ==> !Droppable(t, seen, keep, k))
  }

  // The state of the loop before literal i of the sorted clause.
  ghost predicate Minimizing(t: Trail, f: Formula, seen: Seen, limit: nat, sorted: Clause, i: nat, kept: Clause,
        removed: set<Lit>, g: Flags)
  {
    var keep := Negations(Lits(kept));
    && Progress(t, f, sorted, i, kept, removed) && FlagsOk(f, keep, g) && g.removable <= Below(t)
    && RemovableOk(t, seen, keep, g) && (limit >= |t.lits| ==> PoisonOk(t, seen, keep, g))
    && (forall n :: 0 <= n < i ==> Judged(t, seen, limit, keep, sorted[n]))
    && CachedBefore(t, sorted, i, g)
  }

  ghost predicate CachedBefore(t: Trail, sorted: Clause, i: nat, g: Flags) {
    forall l, n :: Cached(g, l) && i <= n < |sorted| ==> PosOf(t, l) < PosOf(t, sorted[n])
  }

  // The literals of the clause in trail order.
  ghost predicate Rising(t: Trail, sorted: Clause) {
    && NoDup(sorted) && AllFalse(t, sorted)
    && forall i, j :: 0 <= i < j < |sorted| ==> PosOf(t, sorted[i]) < PosOf(t, sorted[j])
  }

  lemma SortedRises(t: Trail, sorted: Clause)
    requires NoDup(sorted) && AllFalse(t, sorted) && Sorted(sorted, TrailOrder(t))
    ensures Rising(t, sorted)
  {
    forall i, j | 0 <= i < j < |sorted| ensures PosOf(t, sorted[i]) < PosOf(t, sorted[j]) {
      assert TrailOrder(t)(sorted[i], sorted[j]) && sorted[i] in sorted && sorted[j] in sorted;
      assert IsTrue(t, Neg(sorted[i])) && IsTrue(t, Neg(sorted[j]));
      assert Neg(sorted[i]) != Neg(sorted[j]);
    }
  }

  // Keeping a later literal changes nothing for earlier ones.
  lemma JudgedLater(t: Trail, seen: Seen, limit: nat, keep: set<Lit>, k: Lit, later: Lit)
    requires Judged(t, seen, limit, keep, k) && PosOf(t, k) < PosOf(t, later)
    ensures Judged(t, seen, limit, keep + {Neg(later)}, k)
  {
    var keep' := keep + {Neg(later)};
    assert Neg(k) != Neg(later);
    RedundantLocal(t, seen, keep - {Neg(k)}, keep' - {Neg(k)}, Neg(k));
  }

  lemma CacheLater(t: Trail, seen: Seen, limit: nat, keep: set<Lit>, g: Flags, later: Lit)
    requires RemovableOk(t, seen, keep, g) && (limit >= |t.lits| ==> PoisonOk(t, seen, keep, g))
    requires forall l :: l in g.poison && l != Neg(later) ==> PosOf(t, l) < PosOf(t, later)
    ensures RemovableOk(t, seen, keep + {Neg(later)}, g)
    ensures limit >= |t.lits| ==> PoisonOk(t, seen, keep + {Neg(later)}, g)
  {
    var keep' := keep + {Neg(later)};
    forall l | l in g.removable ensures Redundant(t, seen, keep', l) { RedundantMore(t, seen, keep, keep', l); }
    forall l | l in g.poison && l !in keep' ensures Redundant(t, seen, keep', l) <==> Redundant(t, seen, keep, l) {
      RedundantLocal(t, seen, keep, keep', l);
    }
  }

  // One literal of the clause.
  method MinimizeNext(t: Trail, k: Lit, ghost i: nat, limit: nat, seen: Seen, keep: set<Lit>, g0: Flags,
        ghost sorted: Clause, ghost kept: Clause, ghost removed: set<Lit>, ghost known: set<nat>, ghost f: Formula)
    returns (res: bool, g: Flags)
    requires Valid(t, f) && Explained(t, known, sorted) && Rising(t, sorted) && i < |sorted| && k == sorted[i]
    requires keep == Negations(Lits(kept)) && Minimizing(t, f, seen, limit, sorted, i, kept, removed, g0)
    ensures res ==> Minimizing(t, f, seen, limit, sorted, i + 1, kept, removed + {sorted[i]}, g)
    ensures !res ==> Minimizing(t, f, seen, limit, sorted, i + 1, kept + [sorted[i]], removed, g)
    ensures !res ==> Negations(Lits(kept + [sorted[i]])) == keep + {Neg(sorted[i])}
  {
    assert k in sorted && IsTrue(t, Neg(k)) && Handled(t, known, k) && k !in kept;
    TopLiteral(t, f, kept, k, g0);
    res, g := MinimizeLiteral(t, Neg(k), 0, limit, seen, keep, g0, known, f);
    if res {
      DropNext(t, f, seen, limit, sorted, i, kept, removed, g0, g);
    } else {
      KeepNext(t, f, seen, limit, sorted, i, kept, removed, g0, g);
    }
  }

  lemma CacheMoves(t: Trail, sorted: Clause, i: nat, g0: Flags, g: Flags)
    requires Rising(t, sorted) && i < |sorted|
    requires CachedBelow(t, g0, g, Neg(sorted[i])) && CachedBefore(t, sorted, i, g0)
    ensures CachedBefore(t, sorted, i + 1, g)
    ensures forall l :: l in g.poison && l != Neg(sorted[i]) ==> PosOf(t, l) < PosOf(t, sorted[i])
  {
    forall l, n | Cached(g, l) && i + 1 <= n < |sorted| ensures PosOf(t, l) < PosOf(t, sorted[n]) {
      assert PosOf(t, sorted[i]) < PosOf(t, sorted[n]);
    }
    forall l | l in g.poison && l != Neg(sorted[i]) ensures PosOf(t, l) < PosOf(t, sorted[i]) {
      assert Cached(g, l);
    }
  }

  lemma DropNext(t: Trail, f: Formula, seen: Seen, limit: nat, sorted: Clause, i: nat, kept: Clause, removed: set<Lit>,
        g0: Flags, g: Flags)
    requires Rising(t, sorted) && i < |sorted| && Minimizing(t, f, seen, limit, sorted, i, kept, removed, g0)
    requires FlagsOk(f, Negations(Lits(kept)), g) && g.removable <= g0.removable + Below(t)
    requires ImpliedBy(f, Negations(Lits(kept)), Neg(sorted[i])) && CachedBelow(t, g0, g, Neg(sorted[i]))
    requires !(LevelOf(t, sorted[i]) == Height(t) > 0)
    requires RemovableOk(t, seen, Negations(Lits(kept)), g)
    requires limit >= |t.lits| ==> PoisonOk(t, seen, Negations(Lits(kept)), g)
    requires Redundant(t, seen, Negations(Lits(kept)), Neg(sorted[i]))
    requires LevelOf(t, sorted[i]) == 0 || CountOf(seen, LevelOf(t, sorted[i])) >= 2
    requires Neg(sorted[i]) !in Negations(Lits(kept))
    ensures Minimizing(t, f, seen, limit, sorted, i + 1, kept, removed + {sorted[i]}, g)
  {
    var keep := Negations(Lits(kept));
    CacheMoves(t, sorted, i, g0, g);
    assert keep - {Neg(sorted[i])} == keep;
  }

  lemma KeepNext(t: Trail, f: Formula, seen: Seen, limit: nat, sorted: Clause, i: nat, kept: Clause, removed: set<Lit>,
        g0: Flags, g: Flags)
    requires Rising(t, sorted) && i < |sorted| && Minimizing(t, f, seen, limit, sorted, i, kept, removed, g0)
    requires FlagsOk(f, Negations(Lits(kept)), g) && g.removable <= g0.removable + Below(t)
    requires CachedBelow(t, g0, g, Neg(sorted[i])) && RemovableOk(t, seen, Negations(Lits(kept)), g)
    requires limit >= |t.lits| ==> PoisonOk(t, seen, Negations(Lits(kept)), g)
    requires limit >= |t.lits| && LevelOf(t, sorted[i]) > 0 && CountOf(seen, LevelOf(t, sorted[i])) >= 2 ==>
      !Redundant(t, seen, Negations(Lits(kept)), Neg(sorted[i]))
    requires LevelOf(t, sorted[i]) > 0 && Neg(sorted[i]) !in Negations(Lits(kept))
    ensures Minimizing(t, f, seen, limit, sorted, i + 1, kept + [sorted[i]], removed, g)
    ensures Negations(Lits(kept + [sorted[i]])) == Negations(Lits(kept)) + {Neg(sorted[i])}
  {
    var keep, k := Negations(Lits(kept)), sorted[i];
    KeepOne(t, f, sorted, i, kept, removed, g);
    CacheMoves(t, sorted, i, g0, g);
    CacheLater(t, seen, limit, keep, g, k);
    forall n | 0 <= n < i ensures Judged(t, seen, limit, keep + {Neg(k)}, sorted[n]) {
      JudgedLater(t, seen, limit, keep, sorted[n], k);
    }
    assert keep + {Neg(k)} - {Neg(k)} == keep;
  }

  // Drop the literals whose negation is implied by that of the literals kept.
  method MinimizeClause(t: Trail, c0: Clause, limit: nat, seen: Seen, ghost known: set<nat>, ghost f: Formula)
    returns (c: Clause, g: Flags)
    requires Valid(t, f) && Entails(f, c0) && NoDup(c0) && AllFalse(t, c0)
    requires Explained(t, known, c0)
    ensures Entails(f, c) && (forall k :: k in c ==> k in c0) && NoDup(c)
    ensures forall k :: k in c0 && LevelOf(t, k) == Height(t) > 0 ==> k in c
    ensures forall k :: k in c0 ==> Judged(t, seen, limit, Negations(Lits(c)), k)
    ensures g == Flags({}, {}, [])
  {
    c := Sort(c0, TrailOrder(t));
    ghost var sorted, kept: Clause, removed: set<Lit> := c, [], {};
    SameMembers(c0, sorted);
    SameDistinct(c0, sorted);
    SortedRises(t, sorted);
    var keep: set<Lit> := {};
    g := Flags({}, {}, []);
    var i, j := 0, 0;
    while i < |c|
      invariant 0 <= j <= i <= |c| == |sorted| && |kept| == j && keep == Negations(Lits(kept))
      invariant Minimizing(t, f, seen, limit, sorted, i, kept, removed, g)
      invariant forall k :: i <= k < |c| ==> c[k] == sorted[k]
      invariant forall k :: 0 <= k < j ==> c[k] == kept[k]
    {
      var res;
      res, g := MinimizeNext(t, c[i], i, limit, seen, keep, g, sorted, kept, removed, known, f);
      if res {
        removed := removed + {c[i]};
      } else {
        kept, keep := kept + [c[i]], keep + {Neg(c[i])};
        c := c[j := c[i]];
        j := j + 1;
      }
      i := i + 1;
    }
    c := c[..j];
    assert c == kept;
    AllMinimized(t, f, seen, limit, c0, sorted, kept, removed, g);
    g := ClearMinimized(g, f, keep);
  }

  lemma AllMinimized(t: Trail, f: Formula, seen: Seen, limit: nat, c0: Clause, sorted: Clause, kept: Clause,
        removed: set<Lit>, g: Flags)
    requires Minimizing(t, f, seen, limit, sorted, |sorted|, kept, removed, g) && Entails(f, c0)
    requires forall k :: k in c0 <==> k in sorted
    ensures Entails(f, kept) && (forall k :: k in kept ==> k in c0) && NoDup(kept)
    ensures forall k :: k in c0 && LevelOf(t, k) == Height(t) > 0 ==> k in kept
    ensures forall k :: k in c0 ==> Judged(t, seen, limit, Negations(Lits(kept)), k)
  {
    KeepEntailed(f, c0, kept, removed);
  }

  // The literal on the current level is neither kept nor removable before it is tried.
  lemma TopLiteral(t: Trail, f: Formula, kept: Clause, l: Lit, g: Flags)
    requires Valid(t, f) && l !in kept && g.removable <= Below(t)
    ensures Neg(l) !in Negations(Lits(kept))
    ensures LevelOf(t, l) == Height(t) ==> Neg(l) !in g.removable
  {
    assert forall k: Lit :: Neg(k) == Neg(l) ==> k == l;
  }

  // All flags are reset.
  method ClearMinimized(g0: Flags, ghost f: Formula, ghost keep: set<Lit>) returns (g: Flags)
    requires FlagsOk(f, keep, g0)
    ensures g == Flags({}, {}, [])
  {
    g := g0;
    for i := 0 to |g0.minimized|
      invariant g.removable <= g0.removable && g.poison <= g0.poison
      invariant forall k :: 0 <= k < i ==> g0.minimized[k] !in g.removable && g0.minimized[k] !in g.poison
    {
      g := g.(removable := g.removable - {g0.minimized[i]}, poison := g.poison - {g0.minimized[i]});
    }
    g := g.(minimized := []);
  }
}
