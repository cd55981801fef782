// Conflict analysis (src/analyze.cpp): conflict level, first unique implication
// point, driving clause and backtrack level.
module Analyze {
  import opened Cnf
  import opened Trail
  import opened Backtrack
  import opened Cuts
  import opened Sorting
  import opened Minimize

  // ---------- Conflict level ----------

  // The literals of c on level lev.
  function OnLevel(t: Trail, c: Clause, lev: nat): set<Lit> {
    set k | k in c && LevelOf(t, k) == lev
  }

  // The highest level in the conflict and its only literal on that level, if there is only one.
  method ConflictLevel(t: Trail, c: Clause, height: nat) returns (res: nat, forced: int)
    requires NoDup(c) && forall k :: k in c ==> LevelOf(t, k) <= height
    ensures forall k :: k in c ==> LevelOf(t, k) <= res
    ensures res > 0 ==> exists k :: k in c && LevelOf(t, k) == res
    ensures forced != 0 ==> res > 0 && OnLevel(t, c, res) == {forced}
    ensures forced == 0 && res > 0 ==> |OnLevel(t, c, res)| >= 2
  {
    res, forced := 0, 0;
    var count := 0;
    ghost var here: set<Lit> := {};
    for i := 0 to |c|
      invariant count == |here| && forall l :: l in here ==> l in c && LevelOf(t, l) == res
      invariant forall k :: 0 <= k < i ==> LevelOf(t, c[k]) <= res && (LevelOf(t, c[k]) == res ==> c[k] in here)
      invariant forall k :: i <= k < |c| ==> c[k] !in here
      invariant if res > 0 then forced != 0 && forced in here else forced == 0
    {
      var lev := LevelOf(t, c[i]);
      if lev > res {
        res, forced, count, here := lev, c[i], 1, {c[i]};
      } else if lev == res {
        count, here := count + 1, here + {c[i]};
        if res == height && count > 1 {
          SubsetSize(here, OnLevel(t, c, res));
          forced := 0;
          return;
        }
      }
    }
    assert here == OnLevel(t, c, res);
    if count != 1 {
      forced := 0;
    } else if res > 0 {
      Singleton(here, forced);
    }
  }

  lemma Singleton(s: set<Lit>, l: Lit)
    requires |s| == 1 && l in s
    ensures s == {l}
  {
    assert |s - {l}| == 0;
  }

  // Literals of the two highest levels come first.
  ghost predicate HighestFirst(t: Trail, c: Clause) {
    Leading(t, c, 0) && Leading(t, c, 1)
  }

  // The position of the highest literal from i on; the search may stop at the known maximum.
  method Highest(t: Trail, c: Clause, i: nat, max: nat) returns (p: nat)
    requires i < |c| && forall k :: 0 <= k < |c| ==> LevelOf(t, c[k]) <= max
    ensures i <= p < |c| && forall k :: i <= k < |c| ==> LevelOf(t, c[k]) <= LevelOf(t, c[p])
  {
    p := i;
    for j := i + 1 to |c|
      invariant i <= p < |c| && forall k :: i <= k < j ==> LevelOf(t, c[k]) <= LevelOf(t, c[p])
    {
      if LevelOf(t, c[p]) < LevelOf(t, c[j]) {
        p := j;
        if LevelOf(t, c[p]) == max { return; }
      }
    }
  }

  method MoveHighest(t: Trail, c: Clause, max: nat) returns (c': Clause)
    requires |c| >= 2 && forall k :: 0 <= k < |c| ==> LevelOf(t, c[k]) <= max
    ensures multiset(c') == multiset(c) && HighestFirst(t, c')
  {
    c' := c;
    for i := 0 to 2
      invariant |c'| == |c| && multiset(c') == multiset(c)
      invariant forall k :: 0 <= k < |c'| ==> LevelOf(t, c'[k]) <= max
      invariant i >= 1 ==> Leading(t, c', 0)
      invariant i >= 2 ==> Leading(t, c', 1)
    {
      c' := MoveOne(t, c', i, max);
    }
  }

  // No literal after position i is on a higher level than the one at i.
  ghost predicate Leading(t: Trail, c: Clause, i: nat) {
    i < |c| && forall k :: i <= k < |c| ==> LevelOf(t, c[i]) >= LevelOf(t, c[k])
  }

  method MoveOne(t: Trail, c: Clause, i: nat, max: nat) returns (c': Clause)
    requires i < |c| && forall k :: 0 <= k < |c| ==> LevelOf(t, c[k]) <= max
    ensures |c'| == |c| && multiset(c') == multiset(c) && Leading(t, c', i)
    ensures forall k :: 0 <= k < |c'| ==> LevelOf(t, c'[k]) <= max
    ensures forall j :: 0 <= j < i && Leading(t, c, j) ==> Leading(t, c', j)
  {
    var p := Highest(t, c, i, max);
    c' := c[i := c[p]][p := c[i]];
    forall j | 0 <= j < i && Leading(t, c, j) ensures Leading(t, c', j) {
      assert c'[j] == c[j];
      assert forall k :: j <= k < |c| ==> c'[k] == c[if k == i then p else if k == p then i else k];
    }
  }

  // ---------- First unique implication point ----------

  datatype Analysis = Analysis(clause: Clause, seen: set<nat>, analyzed: seq<Lit>, open: nat)

  // Seen variables on the conflict level before trail position i: their reasons are still to be resolved.
  ghost function Pending(t: Trail, lev: nat, seen: set<nat>, i: nat): set<nat> {
    set v | v in seen && v in t.info && t.info[v].level == lev && t.info[v].pos < i
  }

  // The literal of the trail that assigns variable v.
  function Assigning(t: Trail, v: nat): int {
    if v in t.info && t.info[v].pos < |t.lits| then t.lits[t.info[v].pos] else 0
  }

  ghost predicate SeenOk(t: Trail, lev: nat, a: Analysis) {
    && (forall v :: v in a.seen ==>
         v in t.info && 0 < t.info[v].level <= lev && t.info[v].pos < |t.lits| && Var(t.lits[t.info[v].pos]) == v)
    && (forall v :: v in a.seen && t.info[v].level < lev ==> Neg(t.lits[t.info[v].pos]) in a.clause)
    && (forall l :: l in a.clause ==> IsTrue(t, Neg(l)) && 0 < LevelOf(t, l) < lev && Var(l) in a.seen)
    && NoDup(a.clause) && a.seen == Vars(a.analyzed)
  }

  // Every seen variable is a decision or known.
  ghost predicate SeenHandled(t: Trail, known: set<nat>, seen: set<nat>) {
    forall v :: v in seen ==> v in known || (v in t.info && t.info[v].reason.NoReason?)
  }

  function Vars(ls: seq<Lit>): set<nat> {
    set i | 0 <= i < |ls| :: Var(ls[i])
  }

  // In every model a literal of the clause is true, a pending one false, or the given one false.
  ghost predicate Covers(t: Trail, f: Formula, clause: Clause, pending: set<nat>, uip: int) {
    forall m: Model :: Models(m, f) ==>
      Sat(m, clause) || (exists v :: v in pending && Assigning(t, v) != 0 && !True(m, Assigning(t, v))) ||
        (uip != 0 && !True(m, uip))
  }

  // Literal k, false on the trail before i, is accounted for in the analysis.
  ghost predicate Accounted(t: Trail, lev: nat, a: Analysis, i: nat, k: Lit) {
    LevelOf(t, k) == 0 || k in a.clause || Var(k) in Pending(t, lev, a.seen, i)
  }

  method AnalyzeLiteral(t: Trail, lev: nat, a: Analysis, k: Lit, ghost i: nat, ghost known: set<nat>)
    returns (a': Analysis)
    requires SeenOk(t, lev, a) && a.open == |Pending(t, lev, a.seen, i)| && i <= |t.lits|
    requires OnTrail(t, Neg(k), i) && LevelOf(t, k) <= lev
    requires Handled(t, known, k) && SeenHandled(t, known, a.seen)
    ensures SeenHandled(t, known, a'.seen)
    ensures SeenOk(t, lev, a') && a'.open == |Pending(t, lev, a'.seen, i)|
    ensures Accounted(t, lev, a', i, k) && Grows(t, lev, a, a', i)
    ensures a'.seen == a.seen + if LevelOf(t, k) > 0 then {Var(k)} else {}
  {
    a' := a;
    if Var(k) in a.seen || LevelOf(t, k) == 0 {
      assert Var(k) in a.seen ==> t.lits[t.info[Var(k)].pos] == Neg(k) && Neg(Neg(k)) == k;
      return;
    }
    var clause := if LevelOf(t, k) < lev then a.clause + [k] else a.clause;
    var open := if LevelOf(t, k) == lev then a.open + 1 else a.open;
    a' := Analysis(clause, a.seen + {Var(k)}, a.analyzed + [Neg(k)], open);
    SeeOne(t, lev, a, a', k, i);
  }

  ghost predicate Grows(t: Trail, lev: nat, a: Analysis, a': Analysis, i: nat) {
    && a.seen <= a'.seen
    && (forall l :: l in a.clause ==> l in a'.clause)
    && Pending(t, lev, a.seen, i) <= Pending(t, lev, a'.seen, i)
  }

  lemma SeeOne(t: Trail, lev: nat, a: Analysis, a': Analysis, k: Lit, i: nat)
    requires SeenOk(t, lev, a) && a.open == |Pending(t, lev, a.seen, i)| && i <= |t.lits|
    requires OnTrail(t, Neg(k), i) && 0 < LevelOf(t, k) <= lev && Var(k) !in a.seen
    requires a'.clause == (if LevelOf(t, k) < lev then a.clause + [k] else a.clause)
    requires a'.seen == a.seen + {Var(k)}
    requires a'.analyzed == a.analyzed + [Neg(k)]
    requires a'.open == (if LevelOf(t, k) == lev then a.open + 1 else a.open)
    ensures SeenOk(t, lev, a') && a'.open == |Pending(t, lev, a'.seen, i)|
    ensures Accounted(t, lev, a', i, k) && Grows(t, lev, a, a', i)
  {
    SeeSeen(t, lev, a, a', k, i);
    SeePending(t, lev, a.seen, k, i);
  }

  lemma SeeSeen(t: Trail, lev: nat, a: Analysis, a': Analysis, k: Lit, i: nat)
    requires SeenOk(t, lev, a) && i <= |t.lits| && OnTrail(t, Neg(k), i)
    requires 0 < LevelOf(t, k) <= lev && Var(k) !in a.seen
    requires a'.clause == (if LevelOf(t, k) < lev then a.clause + [k] else a.clause)
    requires a'.seen == a.seen + {Var(k)}
    requires a'.analyzed == a.analyzed + [Neg(k)]
    ensures SeenOk(t, lev, a')
  {
    assert k !in a.clause && Neg(Neg(k)) == k;
    assert Vars(a'.analyzed) == Vars(a.analyzed) + {Var(k)} by {
      assert forall j :: 0 <= j < |a.analyzed| ==> a'.analyzed[j] == a.analyzed[j];
      assert a'.analyzed[|a.analyzed|] == Neg(k);
    }
  }

  lemma SeePending(t: Trail, lev: nat, seen: set<nat>, k: Lit, i: nat)
    requires OnTrail(t, Neg(k), i) && Var(k) !in seen
    ensures Pending(t, lev, seen + {Var(k)}, i) == Pending(t, lev, seen, i) + if LevelOf(t, k) == lev then {Var(k)}
      else {}
    ensures Var(k) !in Pending(t, lev, seen, i)
  {
  }

  method AnalyzeReason(t: Trail, lev: nat, a0: Analysis, uip: int, reason: Clause, ghost i: nat, ghost known: set<nat>)
    returns (a: Analysis)
    requires AllHandled(t, known, uip, reason) && Deriving(t, lev, known, a0, i) && i <= |t.lits|
    requires forall k :: k in reason && k != uip ==> OnTrail(t, Neg(k), i) && LevelOf(t, k) <= lev
    ensures Deriving(t, lev, known, a, i) && Grows(t, lev, a0, a, i)
    ensures forall k :: k in reason && k != uip ==> Accounted(t, lev, a, i, k)
    ensures a.seen == a0.seen + NonRoot(t, reason, uip)
  {
    a := a0;
    assert NonRoot(t, reason[..0], uip) == {};
    for j := 0 to |reason|
      invariant Deriving(t, lev, known, a, i) && Analyzed(t, lev, a0, a, i, uip, reason, j)
    {
      ghost var b := a;
      a := AnalyzeOther(t, lev, a, reason[j], uip, i, known);
      AnalyzedNext(t, lev, a0, b, a, i, uip, reason, j);
    }
    AnalyzedAll(t, lev, a0, a, i, uip, reason);
  }

  // Literals other than the one implied.
  method AnalyzeOther(t: Trail, lev: nat, a: Analysis, k: Lit, uip: int, ghost i: nat, ghost known: set<nat>)
    returns (a': Analysis)
    requires Deriving(t, lev, known, a, i) && i <= |t.lits|
    requires k != uip ==> OnTrail(t, Neg(k), i) && LevelOf(t, k) <= lev && Handled(t, known, k)
    ensures Deriving(t, lev, known, a', i) && Grows(t, lev, a, a', i)
    ensures k == uip || Accounted(t, lev, a', i, k)
    ensures a'.seen == a.seen + if k != uip && LevelOf(t, k) > 0 then {Var(k)} else {}
  {
    a' := a;
    if k != uip {
      a' := AnalyzeLiteral(t, lev, a, k, i, known);
    }
  }

  lemma AnalyzedAll(t: Trail, lev: nat, a0: Analysis, a: Analysis, i: nat, uip: int, c: Clause)
    requires Analyzed(t, lev, a0, a, i, uip, c, |c|)
    ensures a.seen == a0.seen + NonRoot(t, c, uip) && Grows(t, lev, a0, a, i)
    ensures forall k :: k in c && k != uip ==> Accounted(t, lev, a, i, k)
  {
    assert c[..|c|] == c;
  }

  // What has been seen in the first j literals of the clause.
  ghost predicate Analyzed(t: Trail, lev: nat, a0: Analysis, a: Analysis, i: nat, uip: int, c: Clause, j: nat)
    requires j <= |c|
  {
    && a.seen == a0.seen + NonRoot(t, c[..j], uip) && Grows(t, lev, a0, a, i)
    && AccountedBefore(t, lev, a, i, uip, c, j)
  }

  lemma AnalyzedNext(t: Trail, lev: nat, a0: Analysis, b: Analysis, a: Analysis, i: nat, uip: int, c: Clause, j: nat)
    requires j < |c| && Analyzed(t, lev, a0, b, i, uip, c, j) && Grows(t, lev, b, a, i)
    requires c[j] == uip || Accounted(t, lev, a, i, c[j])
    requires a.seen == b.seen + if c[j] != uip && LevelOf(t, c[j]) > 0 then {Var(c[j])} else {}
    ensures Analyzed(t, lev, a0, a, i, uip, c, j + 1)
  {
    NonRootStep(t, c, j, uip);
    StillAccounted(t, lev, b, a, i, uip, c, j);
  }

  // The first j literals of the clause are accounted for.
  ghost predicate AccountedBefore(t: Trail, lev: nat, a: Analysis, i: nat, uip: int, c: Clause, j: nat) {
    forall k :: 0 <= k < j && k < |c| && c[k] != uip ==> Accounted(t, lev, a, i, c[k])
  }

  lemma StillAccounted(t: Trail, lev: nat, a: Analysis, a': Analysis, i: nat, uip: int, c: Clause, j: nat)
    requires AccountedBefore(t, lev, a, i, uip, c, j) && Grows(t, lev, a, a', i)
    requires j < |c| && (c[j] == uip || Accounted(t, lev, a', i, c[j]))
    ensures AccountedBefore(t, lev, a', i, uip, c, j + 1)
  {
    forall k | 0 <= k < j && c[k] != uip ensures Accounted(t, lev, a', i, c[k]) {
      assert Accounted(t, lev, a, i, c[k]);
    }
  }

  lemma NonRootStep(t: Trail, c: Clause, j: nat, l: int)
    requires j < |c|
    ensures NonRoot(t, c[..j + 1], l) ==
      NonRoot(t, c[..j], l) + if c[j] != l && LevelOf(t, c[j]) > 0 then {Var(c[j])} else {}
  {
    assert c[..j + 1] == c[..j] + [c[j]];
  }

  // Root-level literals hold in every model.
  lemma RootHolds(t: Trail, f: Formula, k: Lit, m: Model)
    requires Valid(t, f) && IsTrue(t, k) && LevelOf(t, k) == 0 && Models(m, f)
    ensures True(m, k)
  {
    assert EntryOk(t, PosOf(t, k), f);
    assert Sat(m, [k]);
  }

  // Resolving with a clause whose literals are accounted for.
  lemma ReasonCovers(t: Trail, f: Formula, lev: nat, a0: Analysis, a: Analysis, uip: int, reason: Clause, i: nat)
    requires Valid(t, f) && Entails(f, reason) && i <= |t.lits| && SeenOk(t, lev, a)
    requires uip != 0 ==> Covers(t, f, a0.clause, Pending(t, lev, a0.seen, i), uip)
    requires Grows(t, lev, a0, a, i)
    requires forall k :: k in reason && k != uip ==> OnTrail(t, Neg(k), i) && Accounted(t, lev, a, i, k)
    ensures Covers(t, f, a.clause, Pending(t, lev, a.seen, i), 0)
  {
    var pending := Pending(t, lev, a.seen, i);
    forall m: Model | Models(m, f)
      ensures Sat(m, a.clause) || exists v :: v in pending && Assigning(t, v) != 0 && !True(m, Assigning(t, v))
    {
      var k :| k in reason && True(m, k);
      if k != uip {
        Negation(m, k);
        if LevelOf(t, k) == 0 {
          RootHolds(t, f, Neg(k), m);
        } else if k !in a.clause {
          assert Assigning(t, Var(k)) == Neg(k);
        }
      }
    }
  }

  // Going down the trail to the next seen literal on the conflict level.
  method NextPending(t: Trail, lev: nat, a: Analysis, i0: nat, ghost f: Formula) returns (uip: Lit, i: nat)
    requires Valid(t, f) && SeenOk(t, lev, a) && i0 <= |t.lits|
    requires Pending(t, lev, a.seen, i0) != {}
    ensures i < i0 && t.lits[i] == uip && LevelOf(t, uip) == lev && IsTrue(t, uip)
    ensures Var(uip) in a.seen
    ensures Pending(t, lev, a.seen, i0) == Pending(t, lev, a.seen, i) + {Var(uip)}
    ensures Var(uip) !in Pending(t, lev, a.seen, i)
    ensures forall q :: i < q < i0 ==> Var(t.lits[q]) !in a.seen || LevelOf(t, t.lits[q]) != lev
  {
    i := i0;
    while true
      invariant forall q :: i <= q < i0 ==> Var(t.lits[q]) !in a.seen || LevelOf(t, t.lits[q]) != lev
      invariant 0 <= i <= i0 && Pending(t, lev, a.seen, i) == Pending(t, lev, a.seen, i0)
      decreases i
    {
      ghost var v :| v in Pending(t, lev, a.seen, i);
      i := i - 1;
      assert EntryOk(t, i, f);
      uip := t.lits[i];
      StepDown(t, lev, a, i, f);
      if Var(uip) in a.seen && LevelOf(t, uip) == lev { return; }
    }
  }

  lemma StepDown(t: Trail, lev: nat, a: Analysis, i: nat, f: Formula)
    requires Valid(t, f) && SeenOk(t, lev, a) && i < |t.lits|
    ensures
      var v := Var(t.lits[i]);
      Pending(t, lev, a.seen, i + 1) == Pending(t, lev, a.seen, i) + if v in a.seen && LevelOf(t, t.lits[i]) == lev
        then {v} else {}
    ensures Var(t.lits[i]) !in Pending(t, lev, a.seen, i)
  {
    assert EntryOk(t, i, f);
  }

  // A pending literal below means that the implied literal is not the decision of its level.
  lemma HasReason(t: Trail, f: Formula, lev: nat, a: Analysis, uip: Lit, i: nat, known: set<nat>)
    requires Valid(t, f) && SeenOk(t, lev, a) && i < |t.lits| && t.lits[i] == uip
    requires LevelOf(t, uip) == lev > 0
    requires Closed(t, known) && SeenHandled(t, known, a.seen) && Var(uip) in a.seen
    requires Pending(t, lev, a.seen, i) != {}
    ensures t.info[Var(uip)].reason.Because?
    ensures Entails(f, t.info[Var(uip)].reason.clause)
    ensures Implies(t, t.info[Var(uip)].reason.clause, uip, i, lev)
    ensures AllHandled(t, known, uip, t.info[Var(uip)].reason.clause)
  {
    assert EntryOk(t, i, f);
    var v :| v in Pending(t, lev, a.seen, i);
    assert EntryOk(t, t.info[v].pos, f);
    var c := t.info[Var(uip)].reason.clause;
    forall k | k in c && k != uip ensures Handled(t, known, k) {
      assert OnTrail(t, Neg(k), i);
    }
  }

  // The first unique implication point clause.
  method Derive(t: Trail, conflict: Clause, lev: nat, ghost known: set<nat>, ghost f: Formula)
    returns (a: Analysis, uip: Lit)
    requires Valid(t, f) && Entails(f, conflict) && AllFalse(t, conflict) && lev > 0
    requires Explained(t, known, conflict)
    requires forall k :: k in conflict ==> LevelOf(t, k) <= lev
    requires exists k :: k in conflict && LevelOf(t, k) == lev
    ensures SeenOk(t, lev, a) && IsTrue(t, uip) && LevelOf(t, uip) == lev
    ensures Entails(f, a.clause + [Neg(uip)]) && SeenHandled(t, known, a.seen) && Var(uip) in a.seen
    ensures FirstPoint(t, conflict, lev, uip)
    ensures forall k: Lit :: k in a.clause <==> LowerReached(t, conflict, lev, uip, k)
  {
    a := Start(t, conflict, lev, known, f);
    var i := |t.lits|;
    while true
      invariant 0 <= i <= |t.lits| && Deriving(t, lev, known, a, i) && a.open > 0
      invariant Covers(t, f, a.clause, Pending(t, lev, a.seen, i), 0) && AllReached(t, conflict, lev, i, a.seen)
      invariant NoPointFrom(t, conflict, lev, i)
      decreases i
    {
      a, uip, i := NextPoint(t, conflict, lev, a, i, known, f);
      if a.open == 0 {
        LearnedEntailed(t, f, a.clause, Pending(t, lev, a.seen, i), uip);
        LearnedReached(t, f, conflict, lev, a, uip, i);
        return;
      }
      NoPointAt(t, conflict, lev, i);
      a := Resolve(t, lev, a, uip, i, known, conflict, f);
    }
  }

  // What the loop keeps: the literals seen, and how many of them are pending.
  ghost predicate Deriving(t: Trail, lev: nat, known: set<nat>, a: Analysis, i: nat) {
    && SeenOk(t, lev, a) && a.open == |Pending(t, lev, a.seen, i)| && SeenHandled(t, known, a.seen)
  }

  // Going down to the next pending literal.
  method NextPoint(t: Trail, ghost conflict: Clause, lev: nat, a0: Analysis, i0: nat, ghost known: set<nat>,
        ghost f: Formula)
    returns (a: Analysis, uip: Lit, i: nat)
    requires Valid(t, f) && AllFalse(t, conflict) && i0 <= |t.lits| && Deriving(t, lev, known, a0, i0)
    requires a0.open > 0 && Covers(t, f, a0.clause, Pending(t, lev, a0.seen, i0), 0)
    requires AllReached(t, conflict, lev, i0, a0.seen) && NoPointFrom(t, conflict, lev, i0)
    ensures i < i0 && t.lits[i] == uip && LevelOf(t, uip) == lev && IsTrue(t, uip) && Var(uip) in a.seen
    ensures a == a0.(open := a0.open - 1) && Deriving(t, lev, known, a, i)
    ensures Covers(t, f, a.clause, Pending(t, lev, a.seen, i), uip)
    ensures AllReached(t, conflict, lev, i + 1, a.seen) && NoPointFrom(t, conflict, lev, i + 1)
    ensures Cut(t, conflict, lev, i + 1) == Pending(t, lev, a.seen, i) + {Var(uip)}
    ensures |Cut(t, conflict, lev, i + 1)| == a.open + 1
  {
    uip, i := NextPending(t, lev, a0, i0, f);
    PendingCut(t, f, conflict, lev, a0, uip, i, i0);
    a := a0.(open := a0.open - 1);
    DropUip(t, f, a.clause, Pending(t, lev, a.seen, i), uip);
  }

  lemma PendingCut(t: Trail, f: Formula, conflict: Clause, lev: nat, a: Analysis, uip: Lit, i: nat, j: nat)
    requires Valid(t, f) && AllFalse(t, conflict) && i < j <= |t.lits| && SeenOk(t, lev, a)
    requires AllReached(t, conflict, lev, j, a.seen) && NoPointFrom(t, conflict, lev, j)
    requires forall q :: i < q < j ==> Var(t.lits[q]) !in a.seen || LevelOf(t, t.lits[q]) != lev
    requires t.lits[i] == uip && LevelOf(t, uip) == lev && Var(uip) in a.seen
    ensures AllReached(t, conflict, lev, i + 1, a.seen) && NoPointFrom(t, conflict, lev, i + 1)
    ensures Cut(t, conflict, lev, i + 1) == Pending(t, lev, a.seen, i) + {Var(uip)}
    ensures |Cut(t, conflict, lev, i + 1)| == |Pending(t, lev, a.seen, i)| + 1
  {
    CutsDown(t, f, conflict, lev, i, j, a.seen);
    StepDown(t, lev, a, i, f);
  }

  // The cut is what is pending, also at the positions passed over.
  lemma CutsDown(t: Trail, f: Formula, conflict: Clause, lev: nat, i: nat, j: nat, seen: set<nat>)
    requires Valid(t, f) && AllFalse(t, conflict) && i < j <= |t.lits| && AllReached(t, conflict, lev, j, seen)
    requires forall q :: i < q < j ==> Var(t.lits[q]) !in seen || LevelOf(t, t.lits[q]) != lev
    requires NoPointFrom(t, conflict, lev, j)
    ensures AllReached(t, conflict, lev, i + 1, seen) && NoPointFrom(t, conflict, lev, i + 1)
    ensures Cut(t, conflict, lev, i + 1) == Pending(t, lev, seen, i + 1)
  {
    AllReachedSkip(t, f, conflict, lev, i + 1, j, seen);
    forall q | i < q < j ensures Var(t.lits[q]) !in Cut(t, conflict, lev, q + 1) {
      AllReachedSkip(t, f, conflict, lev, q + 1, j, seen);
    }
  }

  lemma NoPointAt(t: Trail, conflict: Clause, lev: nat, i: nat)
    requires i < |t.lits| && NoPointFrom(t, conflict, lev, i + 1) && |Cut(t, conflict, lev, i + 1)| >= 2
    ensures NoPointFrom(t, conflict, lev, i)
  {
  }

  // Without another pending literal the implication point is the first one.
  lemma LearnedReached(t: Trail, f: Formula, conflict: Clause, lev: nat, a: Analysis, uip: Lit, i: nat)
    requires Valid(t, f) && SeenOk(t, lev, a) && i < |t.lits| && t.lits[i] == uip && LevelOf(t, uip) == lev
    requires AllReached(t, conflict, lev, i + 1, a.seen) && NoPointFrom(t, conflict, lev, i + 1)
    requires Cut(t, conflict, lev, i + 1) == {Var(uip)}
    ensures FirstPoint(t, conflict, lev, uip)
    ensures forall k: Lit :: k in a.clause <==> LowerReached(t, conflict, lev, uip, k)
  {
    assert EntryOk(t, i, f);
    ClauseReached(t, conflict, lev, a, uip);
  }

  lemma ClauseReached(t: Trail, conflict: Clause, lev: nat, a: Analysis, uip: Lit)
    requires SeenOk(t, lev, a) && AllReached(t, conflict, lev, PosOf(t, uip) + 1, a.seen)
    ensures forall k: Lit :: k in a.clause <==> LowerReached(t, conflict, lev, uip, k)
  {
    forall k: Lit ensures k in a.clause <==> LowerReached(t, conflict, lev, uip, k) {
      SeenLower(t, lev, a, k);
    }
  }

  // The clause has the literals seen on lower levels.
  lemma SeenLower(t: Trail, lev: nat, a: Analysis, k: Lit)
    requires SeenOk(t, lev, a)
    ensures k in a.clause <==> IsTrue(t, Neg(k)) && 0 < LevelOf(t, k) < lev && Var(k) in a.seen
  {
    if IsTrue(t, Neg(k)) && 0 < LevelOf(t, k) < lev && Var(k) in a.seen {
      assert t.lits[t.info[Var(k)].pos] == Neg(k) && Neg(Neg(k)) == k;
    }
  }

  // Begin with the conflict as reason.
  method Start(t: Trail, conflict: Clause, lev: nat, ghost known: set<nat>, ghost f: Formula) returns (a: Analysis)
    requires Valid(t, f) && Entails(f, conflict) && AllFalse(t, conflict) && lev > 0
    requires Explained(t, known, conflict)
    requires forall k :: k in conflict ==> LevelOf(t, k) <= lev
    requires exists k :: k in conflict && LevelOf(t, k) == lev
    ensures SeenOk(t, lev, a) && a.open == |Pending(t, lev, a.seen, |t.lits|)| > 0
    ensures Covers(t, f, a.clause, Pending(t, lev, a.seen, |t.lits|), 0)
    ensures SeenHandled(t, known, a.seen) && AllReached(t, conflict, lev, |t.lits|, a.seen)
  {
    var none := Analysis([], {}, [], 0);
    assert Pending(t, lev, {}, |t.lits|) == {};
    a := AnalyzeReason(t, lev, none, 0, conflict, |t.lits|, known);
    ReasonCovers(t, f, lev, none, a, 0, conflict, |t.lits|);
    SomePending(t, lev, a, conflict, |t.lits|);
    AllReachedFirst(t, f, conflict, lev);
    assert a.seen == NonRoot(t, conflict, 0);
  }

  lemma SomePending(t: Trail, lev: nat, a: Analysis, conflict: Clause, i: nat)
    requires SeenOk(t, lev, a) && lev > 0 && a.open == |Pending(t, lev, a.seen, i)|
    requires forall k :: k in conflict ==> Accounted(t, lev, a, i, k)
    requires exists k :: k in conflict && LevelOf(t, k) == lev
    ensures a.open > 0
  {
    var k :| k in conflict && LevelOf(t, k) == lev;
    assert Accounted(t, lev, a, i, k);
    assert k !in a.clause;
    assert Var(k) in Pending(t, lev, a.seen, i);
  }

  lemma DropUip(t: Trail, f: Formula, clause: Clause, pending: set<nat>, uip: Lit)
    requires Covers(t, f, clause, pending + {Var(uip)}, 0) && IsTrue(t, uip)
    ensures Covers(t, f, clause, pending, uip)
  {
    assert Assigning(t, Var(uip)) == uip;
  }

  lemma LearnedEntailed(t: Trail, f: Formula, clause: Clause, pending: set<nat>, uip: Lit)
    requires Covers(t, f, clause, pending, uip) && pending == {}
    ensures Entails(f, clause + [Neg(uip)])
  {
    var c := clause + [Neg(uip)];
    forall m: Model | Models(m, f) ensures Sat(m, c) {
      if Sat(m, clause) {
        var l :| l in clause && True(m, l);
        assert l in c;
      } else {
        assert Neg(uip) in c;
        Negation(m, uip);
      }
    }
  }

  // Resolve with the reason of the implied literal.
  method Resolve(t: Trail, lev: nat, a0: Analysis, uip: Lit, i: nat, ghost known: set<nat>, ghost conflict: Clause,
        ghost f: Formula)
    returns (a: Analysis)
    requires AllFalse(t, conflict) && AllReached(t, conflict, lev, i + 1, a0.seen)
    ensures AllReached(t, conflict, lev, i, a.seen)
    requires Closed(t, known) && SeenHandled(t, known, a0.seen) && Var(uip) in a0.seen
    requires Valid(t, f) && SeenOk(t, lev, a0) && i < |t.lits| && t.lits[i] == uip
    requires LevelOf(t, uip) == lev > 0 && IsTrue(t, uip)
    requires a0.open == |Pending(t, lev, a0.seen, i)| > 0
    requires Covers(t, f, a0.clause, Pending(t, lev, a0.seen, i), uip)
    ensures SeenOk(t, lev, a) && a.open == |Pending(t, lev, a.seen, i)| > 0
    ensures Covers(t, f, a.clause, Pending(t, lev, a.seen, i), 0) && SeenHandled(t, known, a.seen)
  {
    HasReason(t, f, lev, a0, uip, i, known);
    var reason := t.info[Var(uip)].reason.clause;
    AllReachedResolve(t, f, conflict, lev, i, a0.seen, reason);
    a := AnalyzeReason(t, lev, a0, uip, reason, i, known);
    ReasonCovers(t, f, lev, a0, a, uip, reason, i);
    assert Pending(t, lev, a0.seen, i) <= Pending(t, lev, a.seen, i);
  }

  // ---------- Driving clause and backtrack level ----------

  // Higher levels and then later trail positions first.
  function ReverseOrder(t: Trail): Order<Lit> {
    (a: Lit, b: Lit) => LevelOf(t, a) > LevelOf(t, b) || (LevelOf(t, a) == LevelOf(t, b) && PosOf(t, a) >= PosOf(t, b))
  }

  // The literal on level lev comes first and the jump level is the highest level of the others.
  method DrivingClause(t: Trail, c: Clause, ghost lev: nat, ghost top: Lit) returns (d: Clause, jump: nat)
    requires NoDup(c) && top in c && LevelOf(t, top) == lev > 0
    requires forall k :: k in c && k != top ==> LevelOf(t, k) < lev
    ensures forall k :: k in d <==> k in c
    ensures |d| == |c| && NoDup(d) && d[0] == top && jump < lev
    ensures forall k :: k in c && k != top ==> LevelOf(t, k) <= jump
    ensures if |c| > 1 then LevelOf(t, d[1]) == jump && d[1] != top else jump == 0
  {
    if |c| == 1 { return c, 0; }
    d := Sort(c, ReverseOrder(t));
    SameMembers(c, d);
    SameDistinct(c, d);
    jump := LevelOf(t, d[1]);
    TopFirst(t, d, lev, top);
  }

  lemma TopFirst(t: Trail, d: Clause, lev: nat, top: Lit)
    requires Sorted(d, ReverseOrder(t)) && NoDup(d) && |d| > 1
    requires top in d && LevelOf(t, top) == lev
    requires forall k :: k in d && k != top ==> LevelOf(t, k) < lev
    ensures d[0] == top && d[1] != top && LevelOf(t, d[1]) < lev
    ensures forall k :: k in d && k != top ==> LevelOf(t, k) <= LevelOf(t, d[1])
  {
    var i :| 0 <= i < |d| && d[i] == top;
    assert d[0] in d && d[1] in d;
    assert forall j :: 0 < j < |d| ==> ReverseOrder(t)(d[0], d[j]);
    forall k | k in d && k != top ensures LevelOf(t, k) <= LevelOf(t, d[1]) {
      var j :| 0 <= j < |d| && d[j] == k;
      assert j > 1 ==> ReverseOrder(t)(d[1], d[j]);
    }
  }

  // Chronological backtracking, whether a propagator is connected, and the limits of the former.
  datatype Options = Options(chrono: bool, propagator: bool, always: bool, levelLimit: nat, reuseTrail: bool,
                             assumptions: nat)
  {
    // Literals can be out of level order.
    predicate OutOfOrder() { chrono || propagator }
  }

  // The trail above the jump level may be worth keeping.
  ghost predicate MayReuse(t: Trail, jump: nat, opts: Options)
    requires |t.control| > 0
  {
    && opts.OutOfOrder() && !opts.always && opts.reuseTrail && jump >= opts.assumptions
    && 1 < Height(t) - jump <= opts.levelLimit
  }

  ghost predicate Transitive(worse: (nat, nat) -> bool) {
    (forall a, b, c :: worse(a, b) && worse(b, c) ==> worse(a, c)) && forall a :: !worse(a, a)
  }

  // No literal from position i up to j has a better variable than the one at pos.
  ghost predicate NoneBetter(t: Trail, worse: (nat, nat) -> bool, i: nat, j: nat, pos: nat) {
    pos < |t.lits| && forall k :: i <= k < j && k < |t.lits| ==> !worse(Var(t.lits[pos]), Var(t.lits[k]))
  }

  // The levels above the jump level that start up to the position of a best variable above it are reused.
  ghost predicate Reuses(t: Trail, jump: nat, worse: (nat, nat) -> bool, res: nat)
    requires jump + 1 < |t.control| && res < |t.control|
  {
    t.control[jump + 1] >= |t.lits| || exists pos :: ReusesAt(t, jump, worse, res, pos)
  }

  ghost predicate ReusesAt(t: Trail, jump: nat, worse: (nat, nat) -> bool, res: nat, pos: nat)
    requires jump + 1 < |t.control| && res < |t.control|
  {
    && t.control[jump + 1] <= pos && NoneBetter(t, worse, t.control[jump + 1], |t.lits|, pos)
    && (res == jump || t.control[res] <= pos)
    && (res + 1 >= |t.control| - 1 || t.control[res + 1] > pos)
  }

  // The level to backtrack to: at least the jump level and below the current one.
  method BacktrackLevel(t: Trail, jump: nat, opts: Options, worse: (nat, nat) -> bool) returns (res: nat)
    requires Frames(t) && jump < Height(t)
    ensures jump <= res < Height(t) && (!opts.OutOfOrder() ==> res == jump)
    ensures opts.OutOfOrder() && opts.always ==> res == Height(t) - 1
    ensures opts.OutOfOrder() && !opts.always && jump < opts.assumptions ==> res == jump
    ensures opts.OutOfOrder() && jump >= opts.assumptions && Height(t) - jump > opts.levelLimit ==> res == Height(t) - 1
    ensures !opts.always && Height(t) - jump <= opts.levelLimit && !opts.reuseTrail ==> res == jump
    ensures MayReuse(t, jump, opts) && Transitive(worse) ==> Reuses(t, jump, worse, res)
  {
    var level := Height(t);
    if !opts.OutOfOrder() {
      res := jump;
    } else if opts.always {
      res := level - 1;
    } else if jump >= level - 1 || jump < opts.assumptions {
      res := jump;
    } else if level - jump > opts.levelLimit {
      res := level - 1;
    } else if opts.reuseTrail {
      var best, pos := 0, 0;
      for i := t.control[jump + 1] to |t.lits|
        invariant if i == t.control[jump + 1] then best == pos == 0 else
          t.control[jump + 1] <= pos < i && best == Var(t.lits[pos]) &&
          (Transitive(worse) ==> NoneBetter(t, worse, t.control[jump + 1], i, pos))
      {
        if best == 0 || worse(best, Var(t.lits[i])) {
          best, pos := Var(t.lits[i]), i;
        }
      }
      res := jump;
      while res < level - 1 && t.control[res + 1] <= pos
        invariant jump <= res < level && (res == jump || t.control[res] <= pos)
      {
        res := res + 1;
      }
      assert t.control[jump + 1] < |t.lits| && Transitive(worse) ==> ReusesAt(t, jump, worse, res, pos);
    } else {
      res := jump;
    }
  }

  // ---------- The whole analysis ----------

  datatype Outcome = Empty | Forced(lit: Lit) | Learned(clause: Clause, uip: Lit)

  lemma RootConflict(t: Trail, c: Clause, f: Formula)
    requires Valid(t, f) && Entails(f, c) && AllFalse(t, c)
    requires forall k :: k in c ==> LevelOf(t, k) == 0
    ensures Unsatisfiable(f)
  {
    forall m: Model ensures !Models(m, f) {
      if Models(m, f) {
        var k :| k in c && True(m, k);
        RootHolds(t, f, Neg(k), m);
        Negation(m, k);
      }
    }
  }

  // Only the literals above the new level become unassigned.
  lemma OnlyTopUnassigned(t: Trail, t': Trail, f: Formula, c: Clause, top: Lit, n: nat)
    requires Valid(t, f) && AllFalse(t, c) && top in c && LevelOf(t, top) > n
    requires forall k :: k in c && k != top ==> LevelOf(t, k) <= n
    requires forall l: Lit :: IsTrue(t', l) <==> IsTrue(t, l) && LevelOf(t, l) <= n
    ensures Unassigned(t', top) && forall k :: k in c && k != top ==> IsTrue(t', Neg(k))
  {
    assert LevelOf(t, Neg(top)) == LevelOf(t, top);
    forall k | k in c && k != top ensures IsTrue(t', Neg(k)) {
      assert LevelOf(t, Neg(k)) == LevelOf(t, k);
    }
  }

  // The conflict itself drives its only literal on the conflict level.
  method Force(s: Search, conflict: Clause, forced: Lit, lev: nat, chrono: bool)
    requires Valid(s.t, s.formula) && Entails(s.formula, conflict) && AllFalse(s.t, conflict)
    requires 0 < lev <= Height(s.t) && OnLevel(s.t, conflict, lev) == {forced}
    requires forall k :: k in conflict ==> LevelOf(s.t, k) <= lev
    modifies s`t
    ensures Valid(s.t, s.formula) && Height(s.t) == lev - 1 && IsTrue(s.t, forced)
    ensures forced in conflict
    ensures forall k :: k in conflict && k != forced ==> IsTrue(s.t, Neg(k)) && LevelOf(s.t, k) <= LevelOf(s.t, forced)
    ensures if chrono then OnHighest(s.t, conflict, forced) else LevelOf(s.t, forced) == lev - 1
  {
    assert forced in OnLevel(s.t, conflict, lev);
    BelowForced(s.t, conflict, forced, lev);
    ghost var t0 := s.t;
    BacktrackTo(s, lev - 1);
    OnlyTopUnassigned(t0, s.t, s.formula, conflict, forced, lev - 1);
    ghost var t1 := s.t;
    s.SearchAssign(forced, conflict, chrono);
    PushOld(t1, forced, LevelOf(s.t, forced), s.t.info[Var(forced)].reason, s.formula);
    AfterAssign(t1, s.t, conflict, forced);
    if chrono { HighestKept(t1, s.t, conflict, forced); }
  }

  lemma BelowForced(t: Trail, c: Clause, forced: Lit, lev: nat)
    requires lev > 0 && OnLevel(t, c, lev) == {forced}
    requires forall k :: k in c ==> LevelOf(t, k) <= lev
    ensures forall k :: k in c && k != forced ==> LevelOf(t, k) <= lev - 1
  {
    forall k | k in c && k != forced ensures LevelOf(t, k) <= lev - 1 {
      assert k !in OnLevel(t, c, lev);
    }
  }

  // The literal is on the highest level of the others, or on level zero without any.
  ghost predicate OnHighest(t: Trail, c: Clause, l: Lit) {
    HighestOther(t, c, l, LevelOf(t, l))
  }

  lemma HighestKept(t: Trail, t': Trail, c: Clause, l: Lit)
    requires forall k :: k in c && k != l ==> IsTrue(t, Neg(k))
    requires forall k: Lit :: IsTrue(t, k) ==> LevelOf(t', k) == LevelOf(t, k)
    ensures forall k :: k in c && k != l ==> LevelOf(t', k) == LevelOf(t, k)
    ensures forall lev: nat :: HighestOther(t, c, l, lev) <==> HighestOther(t', c, l, lev)
  {
    forall k | k in c && k != l ensures LevelOf(t', k) == LevelOf(t, k) {
      assert LevelOf(t', Neg(k)) == LevelOf(t, Neg(k));
    }
  }

  // There is only one highest level.
  lemma OneHighest(t: Trail, c: Clause, l: Lit, a: nat, b: nat)
    requires HighestOther(t, c, l, a) && HighestOther(t, c, l, b)
    ensures a == b
  {
  }

  // The other literals of the driving clause stay false and on their levels.
  lemma AfterAssign(t: Trail, t': Trail, c: Clause, l: Lit)
    requires forall k :: k in c && k != l ==> IsTrue(t, Neg(k)) && LevelOf(t, k) <= LevelOf(t', l)
    requires forall k: Lit :: IsTrue(t, k) ==> OnTrail(t', k, |t.lits|) && LevelOf(t', k) == LevelOf(t, k)
    requires |t'.lits| == |t.lits| + 1
    ensures forall k :: k in c && k != l ==> IsTrue(t', Neg(k)) && LevelOf(t', k) <= LevelOf(t', l)
  {
    forall k | k in c && k != l ensures IsTrue(t', Neg(k)) && LevelOf(t', k) <= LevelOf(t', l) {
      assert LevelOf(t', Neg(k)) == LevelOf(t, Neg(k));
    }
  }

  // Learn a clause, backtrack, and flip the literal of the implication point.
  // With chronological backtracking it gets the jump level, the highest of the
  // other literals, and without it the level backtracked to, which can be above
  // the jump level only if a propagator is connected.
  method Learn(s: Search, conflict: Clause, opts: Options, worse: (nat, nat) -> bool, minimize: bool, depth: nat,
        seen: Seen, ghost known: set<nat>)
    returns (d: Clause, uip: Lit, ghost jump: nat)
    requires Explained(s.t, known, conflict)
    requires Valid(s.t, s.formula) && Entails(s.formula, conflict) && AllFalse(s.t, conflict)
    requires Height(s.t) > 0
    requires exists k :: k in conflict && LevelOf(s.t, k) == Height(s.t)
    modifies s`t
    ensures Valid(s.t, s.formula) && Entails(s.formula, d) && d != [] && d[0] == Neg(uip)
    ensures NoDup(d)
    ensures IsTrue(old(s.t), uip) && LevelOf(old(s.t), uip) == Height(old(s.t)) > Height(s.t)
    ensures FirstPoint(old(s.t), conflict, Height(old(s.t)), uip)
    ensures LearnedFrom(old(s.t), conflict, uip, d, minimize)
    ensures minimize ==> MinimizedFrom(old(s.t), conflict, uip, d, seen, depth)
    ensures AllFalse(old(s.t), d) && IsTrue(s.t, Neg(uip))
    ensures forall k :: k in d && k != Neg(uip) ==>
      LevelOf(s.t, k) == LevelOf(old(s.t), k) < Height(old(s.t)) && IsTrue(s.t, Neg(k))
    ensures HighestOther(s.t, d, Neg(uip), jump) && jump <= Height(s.t)
    ensures LevelOf(s.t, Neg(uip)) == if opts.chrono || |d| == 1 then jump else Height(s.t)
    ensures OnHighest(s.t, d, Neg(uip)) <==> opts.chrono || |d| == 1 || Height(s.t) == jump
    ensures !opts.OutOfOrder() ==> Height(s.t) == jump
    ensures opts.OutOfOrder() && opts.always ==> Height(s.t) == Height(old(s.t)) - 1
  {
    var level;
    d, uip, level := DeriveDriving(s.t, conflict, minimize, depth, seen, known, s.formula);
    jump := level;
    Flip(s, d, uip, level, opts, worse);
  }

  // Backtrack and assign the negated implication point.
  method Flip(s: Search, d: Clause, uip: Lit, jump: nat, opts: Options, worse: (nat, nat) -> bool)
    requires Valid(s.t, s.formula) && Entails(s.formula, d) && AllFalse(s.t, d) && NoDup(d)
    requires d != [] && d[0] == Neg(uip) && IsTrue(s.t, uip) && LevelOf(s.t, uip) == Height(s.t) > jump
    requires forall k :: k in d && k != Neg(uip) ==> LevelOf(s.t, k) <= jump
    requires if |d| > 1 then LevelOf(s.t, d[1]) == jump && d[1] != Neg(uip) else jump == 0
    modifies s`t
    ensures Valid(s.t, s.formula) && Height(s.t) < Height(old(s.t)) && IsTrue(s.t, Neg(uip))
    ensures forall k :: k in d && k != Neg(uip) ==>
      LevelOf(s.t, k) == LevelOf(old(s.t), k) < Height(old(s.t)) && IsTrue(s.t, Neg(k))
    ensures HighestOther(s.t, d, Neg(uip), jump) && jump <= Height(s.t)
    ensures LevelOf(s.t, Neg(uip)) == if opts.chrono || |d| == 1 then jump else Height(s.t)
    ensures OnHighest(s.t, d, Neg(uip)) <==> opts.chrono || |d| == 1 || Height(s.t) == jump
    ensures !opts.OutOfOrder() ==> Height(s.t) == jump
    ensures opts.OutOfOrder() && opts.always ==> Height(s.t) == Height(old(s.t)) - 1
  {
    ghost var t0 := s.t;
    var n := BacktrackLevel(s.t, jump, opts, worse);
    BacktrackTo(s, n);
    OnlyTopUnassigned(t0, s.t, s.formula, d, Neg(uip), n);
    JumpHighest(t0, s.t, d, Neg(uip), n, jump);
    Drive(s, d, Neg(uip), opts.chrono, jump);
    if OnHighest(s.t, d, Neg(uip)) { OneHighest(s.t, d, Neg(uip), LevelOf(s.t, Neg(uip)), jump); }
  }

  lemma JumpHighest(t: Trail, t': Trail, d: Clause, l: Lit, n: nat, jump: nat)
    requires d != [] && d[0] == l && NoDup(d) && jump <= n
    requires forall k :: k in d && k != l ==> LevelOf(t, k) <= jump && LevelOf(t', k) == LevelOf(t, k)
    requires if |d| > 1 then LevelOf(t, d[1]) == jump && d[1] != l else jump == 0
    ensures HighestOther(t', d, l, jump)
  {
    if |d| > 1 { assert d[1] in d; }
  }

  // The implication point clause, minimized and sorted, and its jump level.
  method DeriveDriving(t: Trail, conflict: Clause, minimize: bool, depth: nat, seen: Seen, ghost known: set<nat>,
        ghost f: Formula)
    returns (d: Clause, uip: Lit, jump: nat)
    requires Explained(t, known, conflict)
    requires Valid(t, f) && Entails(f, conflict) && AllFalse(t, conflict) && Height(t) > 0
    requires exists k :: k in conflict && LevelOf(t, k) == Height(t)
    ensures Entails(f, d) && AllFalse(t, d) && d != [] && d[0] == Neg(uip) && NoDup(d)
    ensures IsTrue(t, uip) && LevelOf(t, uip) == Height(t) > jump
    ensures forall k :: k in d && k != Neg(uip) ==> LevelOf(t, k) <= jump
    ensures if |d| > 1 then LevelOf(t, d[1]) == jump && d[1] != Neg(uip) else jump == 0
    ensures FirstPoint(t, conflict, Height(t), uip) && LearnedFrom(t, conflict, uip, d, minimize)
    ensures minimize ==> MinimizedFrom(t, conflict, uip, d, seen, depth)
  {
    var a, c;
    a, uip := DeriveTop(t, conflict, known, f);
    c := MinimizeTop(t, a, uip, minimize, depth, seen, known, f);
    d, jump := DrivingClause(t, c, Height(t), Neg(uip));
    LearnedPart(t, conflict, uip, a.clause, d, minimize);
    assert Lits(c) == Lits(d);
  }

  method DeriveTop(t: Trail, conflict: Clause, ghost known: set<nat>, ghost f: Formula) returns (a: Analysis, uip: Lit)
    requires Explained(t, known, conflict)
    requires Valid(t, f) && Entails(f, conflict) && AllFalse(t, conflict) && Height(t) > 0
    requires exists k :: k in conflict && LevelOf(t, k) == Height(t)
    ensures SeenOk(t, Height(t), a) && IsTrue(t, uip) && LevelOf(t, uip) == Height(t)
    ensures Entails(f, a.clause + [Neg(uip)]) && SeenHandled(t, known, a.seen) && Var(uip) in a.seen
    ensures FirstPoint(t, conflict, Height(t), uip) && LearnedFrom(t, conflict, uip, a.clause, false)
  {
    ConflictBelow(t, conflict, f);
    a, uip := Derive(t, conflict, Height(t), known, f);
  }

  // The clause to learn, minimized if so wanted.
  method MinimizeTop(t: Trail, a: Analysis, uip: Lit, minimize: bool, depth: nat, seen: Seen, ghost known: set<nat>,
        ghost f: Formula)
    returns (c: Clause)
    requires Valid(t, f) && Height(t) > 0 && SeenOk(t, Height(t), a) && IsTrue(t, uip) && LevelOf(t, uip) == Height(t)
    requires Entails(f, a.clause + [Neg(uip)]) && SeenHandled(t, known, a.seen) && Var(uip) in a.seen
    requires Closed(t, known)
    ensures Entails(f, c) && AllFalse(t, c) && NoDup(c) && Neg(uip) in c && LevelOf(t, Neg(uip)) == Height(t)
    ensures forall k :: k in c && k != Neg(uip) ==> k in a.clause && LevelOf(t, k) < Height(t)
    ensures minimize || forall k :: k in a.clause ==> k in c
    ensures minimize ==> forall k :: k in a.clause ==> Judged(t, seen, depth, Negations(Lits(c)), k)
  {
    c := a.clause + [Neg(uip)];
    UipClause(t, a, uip, known);
    assert Neg(uip) in c;
    if |c| > 1 && minimize {
      var flags;
      c, flags := MinimizeClause(t, c, depth, seen, known, f);
    }
  }

  lemma LearnedPart(t: Trail, conflict: Clause, uip: Lit, c: Clause, d: Clause, minimize: bool)
    requires |t.control| > 0 && LearnedFrom(t, conflict, uip, c, false) && Neg(uip) !in c
    requires forall k :: k in d && k != Neg(uip) ==> k in c
    requires minimize || forall k :: k in c ==> k in d
    ensures LearnedFrom(t, conflict, uip, d, minimize)
  {
  }

  // The clause has literals of the cut behind the implication point on lower
  // levels, all of them unless it is minimized.
  ghost predicate LearnedFrom(t: Trail, conflict: Clause, uip: Lit, d: Clause, minimize: bool)
    requires |t.control| > 0
  {
    && (forall k :: k in d && k != Neg(uip) ==> LowerReached(t, conflict, Height(t), uip, k))
    && (minimize || forall k: Lit :: LowerReached(t, conflict, Height(t), uip, k) ==> k in d)
  }

  // Minimization dropped redundant literals of the cut only, and all of them below the depth limit.
  ghost predicate MinimizedFrom(t: Trail, conflict: Clause, uip: Lit, d: Clause, seen: Seen, depth: nat)
    requires |t.control| > 0
  {
    forall k: Lit :: LowerReached(t, conflict, Height(t), uip, k) ==> Judged(t, seen, depth, Negations(Lits(d)), k)
  }

  lemma ConflictBelow(t: Trail, c: Clause, f: Formula)
    requires Valid(t, f) && AllFalse(t, c)
    ensures forall k :: k in c ==> LevelOf(t, k) <= Height(t)
  {
    forall k | k in c ensures LevelOf(t, k) <= Height(t) {
      LevelBound(t, f, Neg(k));
    }
  }

  lemma UipClause(t: Trail, a: Analysis, uip: Lit, known: set<nat>)
    requires SeenHandled(t, known, a.seen) && Var(uip) in a.seen
    ensures AllHandled(t, known, 0, a.clause + [Neg(uip)])
    requires |t.control| > 0 && SeenOk(t, Height(t), a) && IsTrue(t, uip)
    requires LevelOf(t, uip) == Height(t)
    ensures NoDup(a.clause + [Neg(uip)]) && AllFalse(t, a.clause + [Neg(uip)])
    ensures LevelOf(t, Neg(uip)) == Height(t)
    ensures forall k :: k in a.clause + [Neg(uip)] && k != Neg(uip) ==> LevelOf(t, k) < Height(t)
  {
    assert Neg(Neg(uip)) == uip;
    assert Neg(uip) !in a.clause;
  }

  // Assign the first literal of the driving clause.
  method Drive(s: Search, d: Clause, l: Lit, chrono: bool, ghost jump: nat)
    requires Valid(s.t, s.formula) && Entails(s.formula, d) && l in d && NoDup(d)
    requires Unassigned(s.t, l) && HighestOther(s.t, d, l, jump)
    requires forall k :: k in d && k != l ==> IsTrue(s.t, Neg(k))
    modifies s`t
    ensures Valid(s.t, s.formula) && IsTrue(s.t, l) && s.t.control == old(s.t).control
    ensures forall k :: k in d && k != l ==> IsTrue(s.t, Neg(k)) && LevelOf(s.t, k) == LevelOf(old(s.t), k)
    ensures HighestOther(s.t, d, l, jump) && jump <= Height(s.t)
    ensures LevelOf(s.t, l) == if chrono || |d| == 1 then jump else Height(s.t)
  {
    ghost var t1 := s.t;
    forall k | k in d && k != l ensures LevelOf(t1, k) <= Height(t1) { LevelBound(t1, s.formula, Neg(k)); }
    if |d| == 1 {
      assert d == [l];
      s.AssignUnit(l);
      PushOld(t1, l, 0, NoReason, s.formula);
    } else {
      s.SearchAssign(l, d, chrono);
      PushOld(t1, l, LevelOf(s.t, l), s.t.info[Var(l)].reason, s.formula);
      AfterAssign(t1, s.t, d, l);
      if chrono { OneHighest(t1, d, l, LevelOf(s.t, l), jump); }
    }
    HighestKept(t1, s.t, d, l);
  }

  // From a falsified clause to the next assignment, or the empty clause.  With
  // literals in level order the conflict has one on the current level.
  method AnalyzeConflict(s: Search, conflict: Clause, opts: Options, worse: (nat, nat) -> bool, minimize: bool,
        depth: nat, seen: Seen, ghost known: set<nat>)
    returns (out: Outcome, ghost at: Trail)
    requires Explained(s.t, known, conflict)
    requires Valid(s.t, s.formula) && Entails(s.formula, conflict) && AllFalse(s.t, conflict)
    requires NoDup(conflict) && |conflict| >= 2
    requires opts.OutOfOrder() || Height(s.t) == 0 || exists k :: k in conflict && LevelOf(s.t, k) == Height(s.t)
    modifies s`t
    ensures Valid(s.t, s.formula)
    ensures out.Empty? ==> Unsatisfiable(s.formula) && Height(s.t) == 0
    ensures out.Empty? <==> !SomeAboveRoot(old(s.t), conflict)
    ensures out.Forced? <==> opts.OutOfOrder() && SingleHighest(old(s.t), conflict)
    ensures out.Forced? ==> opts.OutOfOrder() && ForcedTo(old(s.t), s.t, conflict, out.lit, opts.chrono)
    ensures out.Learned? ==> Entails(s.formula, out.clause) && LearnedTo(old(s.t), s.t, out.clause, out.uip)
    ensures out.Learned? && (opts.chrono || !opts.propagator) ==> OnHighest(s.t, out.clause, Neg(out.uip))
    ensures out.Learned? ==> OnConflictLevel(old(s.t), at, conflict) && (!opts.OutOfOrder() ==> at == old(s.t))
    ensures out.Learned? ==> LearnedAt(at, conflict, out.uip, out.clause, minimize, seen, depth)
  {
    var c := conflict;
    at := s.t;
    if opts.OutOfOrder() {
      var forced;
      c, forced := ToConflictLevel(s, conflict, opts.chrono, known);
      if forced != 0 { return Forced(forced), at; }
      at := s.t;
    } else {
      StayOnLevel(s.t, s.formula, conflict);
    }
    out := LearnOrEmpty(s, c, opts, worse, minimize, depth, seen, known);
    if out.Learned? {
      LearnedBefore(old(s.t), at, s.t, out.clause, out.uip);
      LearnedReordered(at, c, conflict, out.uip, out.clause, minimize, seen, depth);
    }
  }

  // The trail returned to the highest level of the conflict.
  ghost predicate OnConflictLevel(t0: Trail, t: Trail, conflict: Clause) {
    && |t.control| > 0 && (forall k :: k in conflict ==> LevelOf(t0, k) <= Height(t))
    && (Height(t) == 0 || exists k :: k in conflict && LevelOf(t0, k) == Height(t))
    && Backtracked(t0, Height(t), t)
  }

  lemma StayOnLevel(t: Trail, f: Formula, conflict: Clause)
    requires Valid(t, f) && AllFalse(t, conflict)
    requires Height(t) == 0 || exists k :: k in conflict && LevelOf(t, k) == Height(t)
    ensures OnConflictLevel(t, t, conflict)
  {
    AllKept(t, f);
    ConflictBelow(t, conflict, f);
  }

  // What has been learned from a conflict on the highest level of the trail.
  ghost predicate LearnedAt(t: Trail, conflict: Clause, uip: Lit, d: Clause, minimize: bool, seen: Seen, depth: nat) {
    && |t.control| > 0 && FirstPoint(t, conflict, Height(t), uip) && LearnedFrom(t, conflict, uip, d, minimize)
    && (minimize ==> MinimizedFrom(t, conflict, uip, d, seen, depth))
  }

  lemma ReachedReordered(t: Trail, c: Clause, d: Clause)
    requires forall k :: k in c <==> k in d
    ensures forall lev: nat, j: nat, v: nat :: Reached(t, c, lev, j, v) <==> Reached(t, d, lev, j, v)
  {
    forall lev: nat, j: nat, path: seq<Lit> ensures PathAbove(t, c, lev, j, path) <==> PathAbove(t, d, lev, j, path) {
    }
  }

  lemma LearnedReordered(t: Trail, c: Clause, d: Clause, uip: Lit, learned: Clause, minimize: bool, seen: Seen,
        depth: nat)
    requires (forall k :: k in c <==> k in d) && LearnedAt(t, c, uip, learned, minimize, seen, depth)
    ensures LearnedAt(t, d, uip, learned, minimize, seen, depth)
  {
    ReachedReordered(t, c, d);
    forall lev: nat, j: nat ensures Cut(t, c, lev, j) == Cut(t, d, lev, j) {
    }
    forall k: Lit ensures LowerReached(t, c, Height(t), uip, k) <==> LowerReached(t, d, Height(t), uip, k) {
    }
  }

  lemma LearnedBefore(t0: Trail, t: Trail, t': Trail, c: Clause, uip: Lit)
    requires |t'.control| > 0 && LearnedTo(t, t', c, uip)
    requires t == t0 || forall l: Lit :: IsTrue(t, l) ==> IsTrue(t0, l) && LevelOf(t, l) == LevelOf(t0, l)
    ensures LearnedTo(t0, t', c, uip)
  {
  }

  // The conflict has a literal on the current level.
  method LearnOrEmpty(s: Search, conflict: Clause, opts: Options, worse: (nat, nat) -> bool, minimize: bool,
        depth: nat, seen: Seen, ghost known: set<nat>)
    returns (out: Outcome)
    requires Explained(s.t, known, conflict)
    requires Valid(s.t, s.formula) && Entails(s.formula, conflict) && AllFalse(s.t, conflict)
    requires Height(s.t) == 0 || exists k :: k in conflict && LevelOf(s.t, k) == Height(s.t)
    modifies s`t
    ensures Valid(s.t, s.formula) && !out.Forced?
    ensures out.Empty? ==> Unsatisfiable(s.formula) && Height(s.t) == 0
    ensures out.Empty? <==> Height(old(s.t)) == 0
    ensures out.Empty? <==> !SomeAboveRoot(old(s.t), conflict)
    ensures out.Learned? ==> Entails(s.formula, out.clause) && LearnedTo(old(s.t), s.t, out.clause, out.uip)
    ensures out.Learned? && (opts.chrono || !opts.propagator) ==> OnHighest(s.t, out.clause, Neg(out.uip))
    ensures out.Learned? ==> LearnedAt(old(s.t), conflict, out.uip, out.clause, minimize, seen, depth)
  {
    ConflictBelow(s.t, conflict, s.formula);
    if Height(s.t) == 0 {
      RootConflict(s.t, conflict, s.formula);
      return Empty;
    }
    var d, uip;
    ghost var jump;
    d, uip, jump := Learn(s, conflict, opts, worse, minimize, depth, seen, known);
    out := Learned(d, uip);
  }

  // With literals out of order: force a single highest literal, or return to the highest level of the conflict.
  method ToConflictLevel(s: Search, conflict: Clause, chrono: bool, ghost known: set<nat>)
    returns (c: Clause, forced: int)
    requires Explained(s.t, known, conflict)
    requires Valid(s.t, s.formula) && Entails(s.formula, conflict) && AllFalse(s.t, conflict)
    requires NoDup(conflict) && |conflict| >= 2
    modifies s`t
    ensures Valid(s.t, s.formula) && multiset(c) == multiset(conflict) && (forall k :: k in c <==> k in conflict)
    ensures forced != 0 <==> SingleHighest(old(s.t), conflict)
    ensures forced != 0 ==> ForcedTo(old(s.t), s.t, conflict, forced, chrono)
    ensures forced == 0 ==> Explained(s.t, known, c) && Entails(s.formula, c) && AllFalse(s.t, c)
    ensures forced == 0 ==> Height(s.t) == 0 || exists k :: k in c && LevelOf(s.t, k) == Height(s.t)
    ensures forced == 0 ==> forall l: Lit :: IsTrue(s.t, l) ==> IsTrue(old(s.t), l)
    ensures forced == 0 ==> forall l: Lit :: LevelOf(s.t, l) == LevelOf(old(s.t), l)
    ensures forced == 0 ==> OnConflictLevel(old(s.t), s.t, conflict)
  {
    ConflictBelow(s.t, conflict, s.formula);
    var lev;
    lev, forced := ConflictLevel(s.t, conflict, Height(s.t));
    if lev > 0 { HighestCount(s.t, conflict, lev, forced); }
    c := MoveHighest(s.t, conflict, lev);
    SameMembers(conflict, c);
    SameEntailed(s.formula, conflict, c);
    if forced != 0 {
      assert OnLevel(s.t, c, lev) == OnLevel(s.t, conflict, lev);
      Force(s, c, forced, lev, chrono);
      HighestMembers(s.t, c, conflict, forced);
      return;
    }
    ghost var t0 := s.t;
    BacktrackTo(s, lev);
    StillFalse(t0, s.t, c, lev);
    StillExplained(t0, s.t, known, conflict, c);
  }

  ghost predicate SomeAboveRoot(t: Trail, c: Clause) {
    exists k :: k in c && LevelOf(t, k) > 0
  }

  // One literal is on a higher level than all others.
  ghost predicate SingleHighest(t: Trail, c: Clause) {
    exists l :: l in c && LevelOf(t, l) > 0 && forall k :: k in c && k != l ==> LevelOf(t, k) < LevelOf(t, l)
  }

  lemma HighestCount(t: Trail, c: Clause, lev: nat, forced: int)
    requires lev > 0 && forall k :: k in c ==> LevelOf(t, k) <= lev
    requires if forced != 0 then OnLevel(t, c, lev) == {forced} else |OnLevel(t, c, lev)| >= 2
    ensures SingleHighest(t, c) <==> forced != 0
  {
    var here := OnLevel(t, c, lev);
    if forced != 0 {
      assert forced in here;
      forall k | k in c && k != forced ensures LevelOf(t, k) < lev { assert k !in here; }
    } else if l :| l in c && LevelOf(t, l) > 0 && forall k :: k in c && k != l ==> LevelOf(t, k) < LevelOf(t, l) {
      assert here <= {l};
      SubsetSize(here, {l});
    }
  }

  // The literal was false and the only one unassigned by backtracking below its level.
  ghost predicate ForcedTo(t: Trail, t': Trail, c: Clause, l: Lit, chrono: bool)
    requires |t'.control| > 0
  {
    && l in c && IsTrue(t', l) && Height(t') < LevelOf(t, l)
    && (forall k :: k in c && k != l ==> IsTrue(t', Neg(k)) && LevelOf(t', k) <= LevelOf(t', l))
    && if chrono then OnHighest(t', c, l) else LevelOf(t', l) == Height(t')
  }

  ghost predicate LearnedTo(t: Trail, t': Trail, c: Clause, uip: Lit)
    requires |t'.control| > 0
  {
    && Neg(uip) in c && IsTrue(t, uip) && IsTrue(t', Neg(uip)) && Height(t') < LevelOf(t, uip)
    && (forall k :: k in c && k != Neg(uip) ==> IsTrue(t', Neg(k)) && LevelOf(t', k) <= LevelOf(t', Neg(uip)))
  }

  lemma HighestMembers(t: Trail, c: Clause, d: Clause, l: Lit)
    requires forall k :: k in d <==> k in c
    ensures OnHighest(t, c, l) <==> OnHighest(t, d, l)
  {
  }

  // Backtracking changes neither levels nor reasons.
  lemma StillExplained(t: Trail, t': Trail, known: set<nat>, c: Clause, d: Clause)
    requires Explained(t, known, c) && t'.info.Keys == t.info.Keys && forall k :: k in d <==> k in c
    requires forall v :: v in t.info ==> t'.info[v].level == t.info[v].level && t'.info[v].reason == t.info[v].reason
    ensures Explained(t', known, d)
  {
    forall k: Lit | Handled(t, known, k) ensures Handled(t', known, k) {
    }
  }

  lemma SameEntailed(f: Formula, c: Clause, d: Clause)
    requires Entails(f, c) && forall k :: k in d <==> k in c
    ensures Entails(f, d)
  {
    forall m: Model | Models(m, f) ensures Sat(m, d) {
      var k :| k in c && True(m, k);
      assert k in d;
    }
  }

  lemma StillFalse(t: Trail, t': Trail, c: Clause, n: nat)
    requires AllFalse(t, c) && forall k :: k in c ==> LevelOf(t, k) <= n
    requires forall l: Lit :: IsTrue(t', l) <==> IsTrue(t, l) && LevelOf(t, l) <= n
    ensures AllFalse(t', c)
  {
    forall k | k in c ensures IsTrue(t', Neg(k)) {
      assert LevelOf(t, Neg(k)) == LevelOf(t, k);
    }
  }

  // ---------- Above the highest level ----------

  function Flipping(): Formula { {[-1, -3, 4], [-1, -3, -4]} }

  lemma FlippingModel(l: Lit)
    requires l == 3 || l == 4
    ensures !Entails(Flipping(), [Neg(l)])
  {
    var m: Model := iset{3, 4};
    assert -1 in [-1, -3, 4] && -1 in [-1, -3, -4] && True(m, -1);
    assert Models(m, Flipping()) && !Sat(m, [Neg(l)]);
  }

  // Level two is empty; 4 is implied on level three.
  method FlippingTrail() returns (s: Search)
    ensures fresh(s) && s.formula == Flipping() && Valid(s.t, s.formula) && Height(s.t) == 3 && s.t.lits == [1, 3, 4]
    ensures LevelOf(s.t, 1) == 1 && LevelOf(s.t, 3) == LevelOf(s.t, 4) == 3
    ensures Explained(s.t, {4}, [-1, -3, -4]) && AllFalse(s.t, [-1, -3, -4])
  {
    s := new Search(Flipping());
    s.t := Trail([1, 3], map[1 := Info(1, 0, NoReason), 3 := Info(3, 1, NoReason)], [0, 0, 1, 1]);
    var c := [-1, -3, 4];
    s.SearchAssign(4, c, false);
  }

  // With a propagator and without chronological backtracking the flipped
  // literal can end up above all other literals of the learned clause.
  method FlippedAbove(worse: (nat, nat) -> bool, seen: Seen) returns (s: Search, d: Clause, uip: Lit)
    ensures Valid(s.t, s.formula) && uip in {3, 4} && d != [] && d[0] == Neg(uip)
    ensures LevelOf(s.t, Neg(uip)) == 2 && forall k :: k in d && k != Neg(uip) ==> LevelOf(s.t, k) == 1
    ensures !OnHighest(s.t, d, Neg(uip))
  {
    s := FlippingTrail();
    ghost var t := s.t;
    ghost var jump;
    assert -3 in [-1, -3, -4] && LevelOf(t, -3) == 3;
    d, uip, jump := Learn(s, [-1, -3, -4], Options(false, true, true, 0, false, 0), worse, false, 0, seen, {4});
    FlippedLevels(t, s.t, d, uip);
  }

  lemma FlippedLevels(t: Trail, t': Trail, d: Clause, uip: Lit)
    requires t.lits == [1, 3, 4] && LevelOf(t, 1) == 1 && LevelOf(t, 3) == LevelOf(t, 4) == 3
    requires AllFalse(t, d) && Entails(Flipping(), d) && d != [] && d[0] == Neg(uip) && NoDup(d)
    requires IsTrue(t, uip) && LevelOf(t, uip) == 3 && (|d| > 1 ==> LevelOf(t', Neg(uip)) == 2)
    requires forall k :: k in d && k != Neg(uip) ==> LevelOf(t', k) == LevelOf(t, k) < 3
    ensures uip in {3, 4} && LevelOf(t', Neg(uip)) == 2 && !OnHighest(t', d, Neg(uip))
    ensures forall k :: k in d && k != Neg(uip) ==> LevelOf(t', k) == 1
  {
    FlippingModel(uip);
    assert d != [Neg(uip)];
    forall k | k in d && k != Neg(uip) ensures k == -1 {
      assert IsTrue(t, Neg(k)) && LevelOf(t, Neg(k)) == LevelOf(t, k);
    }
  }
}
