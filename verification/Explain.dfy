// Lazy explanation of external propagations (src/external_propagate.cpp): the
// reasons of all literals the conflict depends on are learned before analysis,
// then the levels of these literals are repaired.
module Explain {
  import opened Cnf
  import opened Trail
  import opened Cuts
  import Minimize
  import Analyze

  // The reason clause the external propagator gives for a literal; no reason stands for a unit.
  type Oracle = Lit -> Reason

  // A valid answer for the literal at position i: a unit, or a clause whose
  // other literals are false and earlier on the trail.
  ghost predicate Answer(t: Trail, f: Formula, i: nat, r: Reason)
    requires i < |t.lits|
  {
    match r
    case NoReason => Entails(f, [t.lits[i]])
    case External => false
    case Because(c) => Entails(f, c) && t.lits[i] in c && forall k :: k in c && k != t.lits[i] ==> OnTrail(t, Neg(k), i)
  }

  ghost predicate Answers(oracle: Oracle, t: Trail, f: Formula) {
    forall i :: 0 <= i < |t.lits| && Var(t.lits[i]) in t.info && t.info[Var(t.lits[i])].reason.External? ==>
      Answer(t, f, i, oracle(t.lits[i]))
  }

  // Levels and reasons may change but not positions.
  ghost predicate SamePositions(a: Trail, b: Trail) {
    && a.lits == b.lits && a.control == b.control && a.info.Keys == b.info.Keys
    && forall v :: v in a.info ==> a.info[v].pos == b.info[v].pos
  }

  // Root-level literals stay there.
  ghost predicate Relabelled(a: Trail, b: Trail) {
    SamePositions(a, b) && forall v :: v in a.info && a.info[v].level == 0 ==> b.info[v].level == 0
  }

  // Placeholders are replaced by the reasons given, everything else is kept.
  ghost predicate Resolved(a: Trail, b: Trail, oracle: Oracle) {
    SamePositions(a, b) && forall v :: v in a.info ==> b.info[v] == a.info[v] || Answered(a, b.info[v], v, oracle)
  }

  ghost predicate Answered(a: Trail, now: Info, v: nat, oracle: Oracle)
    requires v in a.info
  {
    && a.info[v].reason.External? && a.info[v].pos < |a.lits| && now.reason == oracle(a.lits[a.info[v].pos])
    && !now.reason.External? && now.level == if now.reason.NoReason? then 0 else a.info[v].level
  }

  ghost predicate SeenOk(t: Trail, seen: set<nat>) {
    forall v :: v in seen ==>
      v in t.info && t.info[v].level > 0 && t.info[v].reason.Because? && t.info[v].pos < |t.lits| &&
        Var(t.lits[t.info[v].pos]) == v
  }

  ghost function Open(t: Trail, seen: set<nat>, i: nat): set<nat> {
    set v | v in seen && v in t.info && t.info[v].pos < i
  }

  // Everything kept while reasons are explained down to trail position i.
  ghost predicate Explaining(t: Trail, f: Formula, oracle: Oracle, seen: set<nat>, open: nat, i: nat) {
    Valid(t, f) && Answers(oracle, t, f) && SeenOk(t, seen) && open == |Open(t, seen, i)|
  }

  // ---------- Changing level and reason of one literal ----------

  function Relabel(t: Trail, l: Lit, lev: nat, r: Reason): Trail
    requires Var(l) in t.info
  {
    t.(info := t.info[Var(l) := Info(lev, t.info[Var(l)].pos, r)])
  }

  lemma RelabelOnTrail(t: Trail, l: Lit, lev: nat, r: Reason)
    requires Var(l) in t.info && lev <= LevelOf(t, l)
    ensures forall k: Lit, n: nat :: OnTrail(Relabel(t, l, lev, r), k, n) <==> OnTrail(t, k, n)
    ensures forall k: Lit :: LevelOf(Relabel(t, l, lev, r), k) <= LevelOf(t, k)
  {
  }

  // Lowering a level keeps all other entries.
  lemma RelabelValid(t: Trail, l: Lit, lev: nat, r: Reason, f: Formula)
    requires Valid(t, f) && IsTrue(t, l) && lev <= LevelOf(t, l)
    requires EntryOk(Relabel(t, l, lev, r), PosOf(t, l), f)
    ensures Valid(Relabel(t, l, lev, r), f)
  {
    RelabelOnTrail(t, l, lev, r);
    forall i | 0 <= i < |t.lits| ensures EntryOk(Relabel(t, l, lev, r), i, f) {
      if i != PosOf(t, l) { RelabelOther(t, l, lev, r, f, i); }
    }
  }

  lemma RelabelOther(t: Trail, l: Lit, lev: nat, r: Reason, f: Formula, i: nat)
    requires Valid(t, f) && IsTrue(t, l) && lev <= LevelOf(t, l) && i < |t.lits|
    requires i != PosOf(t, l)
    ensures EntryOk(Relabel(t, l, lev, r), i, f)
  {
    var t' := Relabel(t, l, lev, r);
    RelabelOnTrail(t, l, lev, r);
    assert EntryOk(t, i, f) && EntryOk(t, PosOf(t, l), f);
    var v := t.info[Var(t.lits[i])];
    assert t'.info[Var(t.lits[i])] == v;
    if v.level > 0 && v.reason.Because? {
      assert Implies(t', v.reason.clause, t.lits[i], i, v.level);
    }
    if v.level > 0 && v.reason.External? {
      forall j | 0 <= j < i ensures LevelOf(t', t.lits[j]) <= v.level {
        assert LevelOf(t, t.lits[j]) <= v.level;
      }
    }
  }

  // The answer of the propagator becomes the reason.
  lemma AnswerEntry(t: Trail, f: Formula, l: Lit, r: Reason)
    requires Valid(t, f) && IsTrue(t, l) && t.info[Var(l)].reason.External? && LevelOf(t, l) > 0
    requires Answer(t, f, PosOf(t, l), r)
    ensures EntryOk(Relabel(t, l, if r.NoReason? then 0 else LevelOf(t, l), r), PosOf(t, l), f)
  {
    var i, lev := PosOf(t, l), LevelOf(t, l);
    var t' := Relabel(t, l, if r.NoReason? then 0 else lev, r);
    assert EntryOk(t, i, f);
    RelabelOnTrail(t, l, if r.NoReason? then 0 else lev, r);
    if r.Because? {
      forall k | k in r.clause && k != l ensures OnTrail(t', Neg(k), i) && LevelOf(t', k) <= lev {
        assert OnTrail(t, Neg(k), i) && t.lits[PosOf(t, k)] == Neg(k);
        assert LevelOf(t, t.lits[PosOf(t, k)]) <= lev;
      }
    }
  }

  // ---------- Explaining reasons ----------

  // Learning the reason of one literal.
  method LearnReason(t: Trail, oracle: Oracle, l: Lit, ghost f: Formula, ghost seen: set<nat>, ghost open: nat,
        ghost i: nat)
    returns (t': Trail)
    requires Explaining(t, f, oracle, seen, open, i) && IsTrue(t, l)
    requires t.info[Var(l)].reason.External? && LevelOf(t, l) > 0
    ensures Explaining(t', f, oracle, seen, open, i) && Resolved(t, t', oracle)
    ensures !t'.info[Var(l)].reason.External?
    ensures t'.info[Var(l)].reason.NoReason? ==> LevelOf(t', l) == 0
    ensures forall v :: v in t'.info && v != Var(l) ==> t'.info[v] == t.info[v]
    ensures t'.info[Var(l)].reason.Because? ==> LevelOf(t', l) == LevelOf(t, l)
  {
    var r := oracle(l);
    var lev := if r.NoReason? then 0 else LevelOf(t, l);
    t' := Relabel(t, l, lev, r);
    assert Answer(t, f, PosOf(t, l), r);
    AnswerEntry(t, f, l, r);
    RelabelValid(t, l, lev, r, f);
    AnswersLeft(t, t', f, oracle, l);
    assert Open(t', seen, i) == Open(t, seen, i);
  }

  lemma AnswersLeft(t: Trail, t': Trail, f: Formula, oracle: Oracle, l: Lit)
    requires Answers(oracle, t, f) && Var(l) in t.info && SamePositions(t, t')
    requires forall v :: v in t.info && v != Var(l) ==> t'.info[v] == t.info[v]
    requires !t'.info[Var(l)].reason.External?
    ensures Answers(oracle, t', f)
  {
    forall i | 0 <= i < |t.lits| && Var(t.lits[i]) in t.info && t'.info[Var(t.lits[i])].reason.External?
      ensures Answer(t', f, i, oracle(t.lits[i]))
    {
      var r := oracle(t.lits[i]);
      assert Answer(t, f, i, r);
      if r.Because? {
        forall k | k in r.clause && k != t.lits[i] ensures OnTrail(t', Neg(k), i) {
          assert OnTrail(t, Neg(k), i);
        }
      }
    }
  }

  method ExplainReason(t0: Trail, oracle: Oracle, seen0: set<nat>, open0: nat, l: int, reason: Clause, ghost i: nat,
        ghost f: Formula)
    returns (t: Trail, seen: set<nat>, open: nat)
    requires Explaining(t0, f, oracle, seen0, open0, i) && i <= |t0.lits|
    requires forall k :: k in reason && k != l ==> OnTrail(t0, Neg(k), i)
    ensures Explaining(t, f, oracle, seen, open, i) && Progress(t0, seen0, t, seen, oracle)
    ensures NewBelow(t, seen0, seen, i)
    ensures AllHandled(t, seen, l, reason) && Touches(t0, seen0, t, seen, reason, l)
  {
    t, seen, open := t0, seen0, open0;
    for j := 0 to |reason|
      invariant Explaining(t, f, oracle, seen, open, i) && Progress(t0, seen0, t, seen, oracle)
      invariant HandledUpTo(t, seen, l, reason, j) && NewBelow(t, seen0, seen, i)
      invariant Touches(t0, seen0, t, seen, reason, l)
    {
      if reason[j] != l {
        t, seen, open := ExplainOther(t, oracle, seen, open, l, reason, j, i, t0, seen0, f);
      }
    }
  }

  ghost predicate HandledUpTo(t: Trail, seen: set<nat>, l: int, c: Clause, n: nat) {
    n <= |c| && forall k :: 0 <= k < n && c[k] != l ==> Handled(t, seen, c[k])
  }

  method ExplainOther(a: Trail, oracle: Oracle, s: set<nat>, open0: nat, l: int, reason: Clause, j: nat, ghost i: nat,
        ghost t0: Trail, ghost seen0: set<nat>, ghost f: Formula)
    returns (t: Trail, seen: set<nat>, open: nat)
    requires Explaining(a, f, oracle, s, open0, i) && Progress(t0, seen0, a, s, oracle)
    requires i <= |a.lits|
    requires j < |reason| && reason[j] != l && OnTrail(t0, Neg(reason[j]), i)
    requires HandledUpTo(a, s, l, reason, j)
    requires NewBelow(a, seen0, s, i) && Touches(t0, seen0, a, s, reason, l)
    ensures Explaining(t, f, oracle, seen, open, i) && Progress(t0, seen0, t, seen, oracle)
    ensures HandledUpTo(t, seen, l, reason, j + 1) && NewBelow(t, seen0, seen, i)
    ensures Touches(t0, seen0, t, seen, reason, l)
  {
    t, seen, open := ExplainLiteral(a, oracle, s, open0, reason[j], i, f);
    ProgressTrans(t0, seen0, a, s, t, seen, oracle);
    TouchesMore(t0, seen0, a, s, t, seen, reason, l, j, oracle);
    HandledMore(a, s, t, seen, oracle, l, reason, j);
  }

  lemma HandledMore(a: Trail, s: set<nat>, b: Trail, s': set<nat>, oracle: Oracle, l: int, c: Clause, j: nat)
    requires Progress(a, s, b, s', oracle) && HandledUpTo(a, s, l, c, j) && j < |c| && Handled(b, s', c[j])
    ensures HandledUpTo(b, s', l, c, j + 1)
  {
    forall k | 0 <= k < j && c[k] != l ensures Handled(b, s', c[k]) { HandledStays(a, s, b, s', oracle, c[k]); }
  }

  // Only placeholders change, and seen literals stay seen.
  ghost predicate Progress(a: Trail, s: set<nat>, b: Trail, s': set<nat>, oracle: Oracle) {
    s <= s' && Resolved(a, b, oracle)
  }

  // Only other literals of the clause above the root level are newly seen or changed.
  ghost predicate Touches(a: Trail, s: set<nat>, b: Trail, s': set<nat>, c: Clause, l: int) {
    forall v :: v in b.info && (v in s' - s || v !in a.info || b.info[v] != a.info[v]) ==> Mentions(a, c, l, v)
  }

  ghost predicate Mentions(a: Trail, c: Clause, l: int, v: nat) {
    exists k :: k in c && k != l && Var(k) == v && LevelOf(a, k) > 0
  }

  ghost predicate OnlyAt(a: Trail, s: set<nat>, b: Trail, s': set<nat>, k: Lit) {
    && s' <= s + {Var(k)} && (LevelOf(a, k) > 0 || (b == a && s' == s))
    && forall v :: v in b.info && v in a.info && v != Var(k) ==> b.info[v] == a.info[v]
  }

  lemma TouchesMore(t0: Trail, s0: set<nat>, a: Trail, s: set<nat>, b: Trail, s': set<nat>, c: Clause, l: int, j: nat,
        oracle: Oracle)
    requires Touches(t0, s0, a, s, c, l) && j < |c| && c[j] != l && Resolved(t0, a, oracle) && SamePositions(a, b)
    requires OnlyAt(a, s, b, s', c[j])
    ensures Touches(t0, s0, b, s', c, l)
  {
    if LevelOf(a, c[j]) > 0 {
      assert c[j] in c && LevelOf(t0, c[j]) > 0;
      assert Mentions(t0, c, l, Var(c[j]));
    }
  }

  // A path of reasons in b from the conflict to v through literals above the root level of a.
  ghost predicate ReasonPath(a: Trail, b: Trail, conflict: Clause, path: seq<Lit>) {
    && path != [] && path[0] in conflict && (forall i :: 0 <= i < |path| ==> LevelOf(a, path[i]) > 0)
    && (forall i :: 0 < i < |path| ==> Depends(b, path[i - 1], path[i]))
  }

  ghost predicate Needed(a: Trail, b: Trail, conflict: Clause, v: nat) {
    exists path: seq<Lit> :: ReasonPath(a, b, conflict, path) && Var(path[|path| - 1]) == v
  }

  // Whatever has been seen or changed is needed.
  ghost predicate OnlyNeeded(a: Trail, b: Trail, seen: set<nat>, conflict: Clause) {
    forall v :: v in b.info && (v in seen || v !in a.info || b.info[v] != a.info[v]) ==> Needed(a, b, conflict, v)
  }

  lemma NeededFirst(a: Trail, b: Trail, seen: set<nat>, conflict: Clause)
    requires Touches(a, {}, b, seen, conflict, 0)
    ensures OnlyNeeded(a, b, seen, conflict)
  {
    forall v | v in b.info && (v in seen || v !in a.info || b.info[v] != a.info[v]) ensures Needed(a, b, conflict, v) {
      assert Mentions(a, conflict, 0, v);
      var k :| k in conflict && Var(k) == v && LevelOf(a, k) > 0;
      assert ReasonPath(a, b, conflict, [k]);
    }
  }

  // Reasons once known stay.
  ghost predicate ReasonsStay(a: Trail, b: Trail) {
    forall v :: v in a.info && a.info[v].reason.Because? ==> v in b.info && b.info[v].reason == a.info[v].reason
  }

  lemma NeededStays(t0: Trail, a: Trail, b: Trail, conflict: Clause, v: nat)
    requires Needed(t0, a, conflict, v) && ReasonsStay(a, b)
    ensures Needed(t0, b, conflict, v)
  {
    var path: seq<Lit> :| ReasonPath(t0, a, conflict, path) && Var(path[|path| - 1]) == v;
    forall i | 0 < i < |path| ensures Depends(b, path[i - 1], path[i]) {
      assert Depends(a, path[i - 1], path[i]);
    }
    assert ReasonPath(t0, b, conflict, path);
  }

  // One step further along the reason of a needed literal.
  lemma NeededNext(t0: Trail, b: Trail, conflict: Clause, v: nat, k: Lit)
    requires Needed(t0, b, conflict, v) && v in b.info && b.info[v].reason.Because? && k in b.info[v].reason.clause
    requires Var(k) != v && LevelOf(t0, k) > 0
    ensures Needed(t0, b, conflict, Var(k))
  {
    var path: seq<Lit> :| ReasonPath(t0, b, conflict, path) && Var(path[|path| - 1]) == v;
    var more := path + [k];
    forall i | 0 < i < |more| ensures Depends(b, more[i - 1], more[i]) {
      if i < |path| { assert Depends(b, path[i - 1], path[i]); }
    }
    assert ReasonPath(t0, b, conflict, more) && more[|more| - 1] == k;
  }

  lemma VisitNeeded(t0: Trail, a: Trail, s: set<nat>, t: Trail, seen: set<nat>, lit: Lit, conflict: Clause,
        oracle: Oracle)
    requires OnlyNeeded(t0, a, s, conflict) && Resolved(t0, a, oracle) && Progress(a, s, t, seen, oracle)
    requires Var(lit) in s && Var(lit) in a.info && a.info[Var(lit)].reason.Because?
    requires Touches(a, s, t, seen, a.info[Var(lit)].reason.clause, lit)
    requires forall k :: k in a.info[Var(lit)].reason.clause && k != lit ==> Var(k) != Var(lit)
    ensures OnlyNeeded(t0, t, seen, conflict)
  {
    assert ReasonsStay(a, t);
    NeededStays(t0, a, t, conflict, Var(lit));
    forall v | v in t.info && (v in seen || v !in t0.info || t.info[v] != t0.info[v])
      ensures Needed(t0, t, conflict, v)
    {
      if v in s || a.info[v] != t0.info[v] {
        NeededStays(t0, a, t, conflict, v);
      } else {
        assert Mentions(a, a.info[Var(lit)].reason.clause, lit, v);
        var k :| k in a.info[Var(lit)].reason.clause && k != lit && Var(k) == v && LevelOf(a, k) > 0;
        NeededNext(t0, t, conflict, Var(lit), k);
      }
    }
  }

  // Newly seen literals are before position i.
  ghost predicate NewBelow(t: Trail, s: set<nat>, s': set<nat>, i: nat) {
    forall v :: v in s' && v !in s ==> v in t.info && t.info[v].pos < i
  }

  lemma ProgressTrans(a: Trail, s: set<nat>, b: Trail, s': set<nat>, c: Trail, s'': set<nat>, oracle: Oracle)
    requires Progress(a, s, b, s', oracle) && Progress(b, s', c, s'', oracle)
    ensures Progress(a, s, c, s'', oracle)
  {
  }

  lemma HandledStays(a: Trail, s: set<nat>, b: Trail, s': set<nat>, oracle: Oracle, k: Lit)
    requires Progress(a, s, b, s', oracle) && Handled(a, s, k)
    ensures Handled(b, s', k)
  {
  }

  method ExplainLiteral(t0: Trail, oracle: Oracle, seen0: set<nat>, open0: nat, k: Lit, ghost i: nat, ghost f: Formula)
    returns (t: Trail, seen: set<nat>, open: nat)
    requires Explaining(t0, f, oracle, seen0, open0, i) && i <= |t0.lits| && OnTrail(t0, Neg(k), i)
    ensures Explaining(t, f, oracle, seen, open, i) && Progress(t0, seen0, t, seen, oracle)
    ensures Handled(t, seen, k)
    ensures NewBelow(t, seen0, seen, i)
    ensures OnlyAt(t0, seen0, t, seen, k)
  {
    t, seen, open := t0, seen0, open0;
    if Var(k) in seen || LevelOf(t, k) == 0 { return; }
    if t.info[Var(k)].reason.External? {
      t := LearnReason(t, oracle, Neg(k), f, seen, open, i);
    }
    if t.info[Var(k)].level > 0 && t.info[Var(k)].reason.Because? {
      OpenMore(t, seen, i, Var(k));
      seen, open := seen + {Var(k)}, open + 1;
    }
  }

  lemma OpenMore(t: Trail, seen: set<nat>, i: nat, v: nat)
    requires v !in seen && v in t.info && t.info[v].pos < i
    ensures |Open(t, seen + {v}, i)| == |Open(t, seen, i)| + 1
  {
    assert Open(t, seen + {v}, i) == Open(t, seen, i) + {v};
  }

  // ---------- All reasons ----------

  // Seen literals from position i on depend only on handled literals.
  ghost predicate ClosedFrom(t: Trail, seen: set<nat>, i: nat) {
    forall v :: v in seen && v in t.info && i <= t.info[v].pos < |t.lits| && t.info[v].reason.Because? ==>
      AllHandled(t, seen, t.lits[t.info[v].pos], t.info[v].reason.clause)
  }

  // The seen literals from position i on, the latest first.
  ghost predicate Listed(t: Trail, seen: set<nat>, i: nat, list: seq<Lit>) {
    && (forall j :: 0 <= j < |list| ==> Var(list[j]) in seen && OnTrail(t, list[j], |t.lits|) && i <= PosOf(t, list[j]))
    && (forall j, k :: 0 <= j < k < |list| ==> PosOf(t, list[j]) > PosOf(t, list[k]))
    && (forall v :: v in seen && v in t.info && i <= t.info[v].pos < |t.lits| ==> t.lits[t.info[v].pos] in list)
  }

  ghost predicate Collected(t: Trail, f: Formula, oracle: Oracle, seen: set<nat>, open: nat, i: nat, list: seq<Lit>,
        conflict: Clause)
  {
    && Explaining(t, f, oracle, seen, open, i) && ClosedFrom(t, seen, i) && Listed(t, seen, i, list)
    && AllHandled(t, seen, 0, conflict)
  }

  method Collect(t0: Trail, oracle: Oracle, conflict: Clause, ghost f: Formula)
    returns (t: Trail, seen: set<nat>, list: seq<Lit>, open: nat)
    requires Valid(t0, f) && Answers(oracle, t0, f) && AllFalse(t0, conflict)
    ensures Collected(t, f, oracle, seen, open, 0, list, conflict) && open == 0
    ensures Resolved(t0, t, oracle) && OnlyNeeded(t0, t, seen, conflict)
  {
    var i := |t0.lits|;
    t, seen, open, list := t0, {}, 0, [];
    assert Open(t, seen, i) == {};
    t, seen, open := ExplainReason(t, oracle, seen, open, 0, conflict, i, f);
    NeededFirst(t0, t, seen, conflict);
    while i > 0
      invariant 0 <= i <= |t.lits| && Collected(t, f, oracle, seen, open, i, list, conflict)
      invariant Resolved(t0, t, oracle) && OnlyNeeded(t0, t, seen, conflict)
    {
      ghost var n := i;
      i := i - 1;
      if Var(t.lits[i]) in seen {
        t, seen, open, list := Visit(t, oracle, seen, open, i, n, list, conflict, t0, f);
        if open == 0 {
          AllVisited(t, f, oracle, seen, i, list, conflict);
          return;
        }
      } else {
        SkipUnseen(t, f, oracle, seen, open, i, n, list, conflict);
      }
    }
    assert Open(t, seen, 0) == {};
  }

  lemma SkipUnseen(t: Trail, f: Formula, oracle: Oracle, seen: set<nat>, open: nat, i: nat, n: nat, list: seq<Lit>,
        conflict: Clause)
    requires Collected(t, f, oracle, seen, open, n, list, conflict) && i < |t.lits| && n == i + 1
    requires Var(t.lits[i]) !in seen
    ensures Collected(t, f, oracle, seen, open, i, list, conflict)
  {
    assert EntryOk(t, i, f);
    assert forall v :: v in seen ==> t.info[v].pos != i;
    assert Open(t, seen, i) == Open(t, seen, i + 1);
  }

  lemma AllVisited(t: Trail, f: Formula, oracle: Oracle, seen: set<nat>, i: nat, list: seq<Lit>, conflict: Clause)
    requires Collected(t, f, oracle, seen, 0, i, list, conflict)
    ensures Collected(t, f, oracle, seen, 0, 0, list, conflict)
  {
    assert Open(t, seen, i) == {};
    forall v | v in seen ensures v in t.info && t.info[v].pos >= i {
      assert v in t.info && v !in Open(t, seen, i);
    }
    assert Open(t, seen, 0) == {};
  }

  // Explain the reason of the seen literal at position i.
  method Visit(a: Trail, oracle: Oracle, s: set<nat>, open0: nat, i: nat, ghost n: nat, list0: seq<Lit>,
        conflict: Clause, ghost t0: Trail, ghost f: Formula)
    returns (t: Trail, seen: set<nat>, open: nat, list: seq<Lit>)
    requires Collected(a, f, oracle, s, open0, n, list0, conflict) && i < |a.lits| && n == i + 1
    requires Var(a.lits[i]) in s && Resolved(t0, a, oracle) && OnlyNeeded(t0, a, s, conflict)
    ensures Collected(t, f, oracle, seen, open, i, list, conflict) && Resolved(t0, t, oracle)
    ensures OnlyNeeded(t0, t, seen, conflict)
  {
    assert EntryOk(a, i, f);
    var lit := a.lits[i];
    list := list0 + [lit];
    OpenOne(a, f, s, i);
    t, seen, open := ExplainReason(a, oracle, s, open0 - 1, lit, a.info[Var(lit)].reason.clause, i, f);
    ProgressTrans(t0, {}, a, s, t, seen, oracle);
    VisitClosed(a, oracle, s, t, seen, i, conflict);
    VisitListed(a, s, t, seen, i, list0);
    VisitNeeded(t0, a, s, t, seen, lit, conflict, oracle);
  }

  lemma OpenOne(t: Trail, f: Formula, seen: set<nat>, i: nat)
    requires Valid(t, f) && SeenOk(t, seen) && i < |t.lits| && Var(t.lits[i]) in seen
    ensures |Open(t, seen, i)| == |Open(t, seen, i + 1)| - 1
  {
    assert EntryOk(t, i, f);
    assert Open(t, seen, i + 1) == Open(t, seen, i) + {Var(t.lits[i])} by {
      assert forall v :: v in seen && t.info[v].pos == i ==> v == Var(t.lits[i]);
    }
  }

  lemma VisitClosed(a: Trail, oracle: Oracle, s: set<nat>, t: Trail, seen: set<nat>, i: nat, conflict: Clause)
    requires ClosedFrom(a, s, i + 1) && SeenOk(a, s) && Progress(a, s, t, seen, oracle)
    requires NewBelow(t, s, seen, i)
    requires i < |a.lits| && Var(a.lits[i]) in s && a.info[Var(a.lits[i])].pos == i
    requires AllHandled(a, s, 0, conflict)
    requires AllHandled(t, seen, a.lits[i], a.info[Var(a.lits[i])].reason.clause)
    ensures ClosedFrom(t, seen, i) && AllHandled(t, seen, 0, conflict)
  {
    forall v | v in seen && v in t.info && i <= t.info[v].pos < |t.lits| && t.info[v].reason.Because?
      ensures AllHandled(t, seen, t.lits[t.info[v].pos], t.info[v].reason.clause) {
      assert v in s && t.info[v] == a.info[v];
      if a.info[v].pos > i {
        forall k | k in a.info[v].reason.clause && k != a.lits[a.info[v].pos] ensures Handled(t, seen, k) {
          HandledStays(a, s, t, seen, oracle, k);
        }
      } else {
        assert v == Var(a.lits[i]);
      }
    }
    forall k | k in conflict && k != 0 ensures Handled(t, seen, k) {
      HandledStays(a, s, t, seen, oracle, k);
    }
  }

  lemma VisitListed(a: Trail, s: set<nat>, t: Trail, seen: set<nat>, i: nat, list: seq<Lit>)
    requires Listed(a, s, i + 1, list) && s <= seen && SamePositions(a, t) && NewBelow(t, s, seen, i)
    requires i < |a.lits| && Var(a.lits[i]) in s && Var(a.lits[i]) in a.info && a.info[Var(a.lits[i])].pos == i
    ensures Listed(t, seen, i, list + [a.lits[i]])
  {
    var r := list + [a.lits[i]];
    forall j | 0 <= j < |r| ensures Var(r[j]) in seen && IsTrue(t, r[j]) && i <= PosOf(t, r[j]) == PosOf(a, r[j]) {
      assert j < |list| ==> r[j] == list[j] && IsTrue(a, list[j]) && i + 1 <= PosOf(a, list[j]);
      StillTrue(a, t, r[j]);
    }
    forall v | v in seen && v in t.info && i <= t.info[v].pos < |t.lits| ensures t.lits[t.info[v].pos] in r {
      VisitOne(a, s, t, seen, i, list, v);
    }
  }

  lemma StillTrue(a: Trail, t: Trail, l: Lit)
    requires SamePositions(a, t) && IsTrue(a, l)
    ensures IsTrue(t, l) && PosOf(t, l) == PosOf(a, l)
  {
  }

  lemma VisitOne(a: Trail, s: set<nat>, t: Trail, seen: set<nat>, i: nat, list: seq<Lit>, v: nat)
    requires Listed(a, s, i + 1, list) && SamePositions(a, t) && NewBelow(t, s, seen, i) && i < |a.lits|
    requires v in seen && v in t.info && i <= t.info[v].pos < |t.lits|
    ensures t.lits[t.info[v].pos] in list + [a.lits[i]]
  {
    assert v in s && a.info[v].pos == t.info[v].pos;
  }

  // ---------- Repairing levels ----------

  function MaxOther(t: Trail, c: Clause, l: Lit): nat {
    if c == [] then 0
    else
      var n := |c| - 1;
      var m := MaxOther(t, c[..n], l);
      if c[n] != l && LevelOf(t, c[n]) > m then LevelOf(t, c[n]) else m
  }

  // The maximum bounds the level of every other literal and is the level of one of them.
  lemma {:induction false} MaxOtherMeaning(t: Trail, c: Clause, l: Lit)
    ensures HighestOther(t, c, l, MaxOther(t, c, l))
  {
    if c != [] {
      var n := |c| - 1;
      assert c == c[..n] + [c[n]];
      MaxOtherMeaning(t, c[..n], l);
      assert forall k :: k in c[..n] ==> k in c;
    }
  }

  lemma {:induction false} MaxOtherSame(a: Trail, b: Trail, c: Clause, l: Lit)
    requires forall k :: k in c && k != l ==> LevelOf(a, k) == LevelOf(b, k)
    ensures MaxOther(a, c, l) == MaxOther(b, c, l)
  {
    if c != [] {
      var n := |c| - 1;
      assert forall k :: k in c[..n] ==> k in c;
      MaxOtherSame(a, b, c[..n], l);
      assert c[n] in c;
    }
  }

  method RealLevel(t: Trail, c: Clause, l: Lit) returns (lev: nat)
    ensures lev == MaxOther(t, c, l)
  {
    lev := 0;
    for i := 0 to |c|
      invariant lev == MaxOther(t, c[..i], l)
    {
      assert c[..i + 1][..i] == c[..i];
      if c[i] != l && LevelOf(t, c[i]) > lev { lev := LevelOf(t, c[i]); }
    }
    assert c[..|c|] == c;
  }

  // Only levels of the given variables change.
  ghost predicate LevelsOnly(a: Trail, b: Trail, vars: set<nat>) {
    && SamePositions(a, b)
    && forall v :: v in a.info ==>
         a.info[v].reason == b.info[v].reason && (v !in vars ==> a.info[v].level == b.info[v].level)
  }

  ghost predicate LevelOk(t: Trail, l: Lit) {
    && Var(l) in t.info && t.info[Var(l)].reason.Because?
    && t.info[Var(l)].level == MaxOther(t, t.info[Var(l)].reason.clause, l)
  }

  // The other literals of the reason are at earlier positions.
  ghost predicate EarlierReason(t: Trail, l: Lit) {
    && Var(l) in t.info && t.info[Var(l)].reason.Because?
    && forall k :: k in t.info[Var(l)].reason.clause && k != l ==> OnTrail(t, Neg(k), PosOf(t, l))
  }

  // Changing the level of l affects neither its own maximum nor that of a literal before it.
  lemma LaterLevel(t: Trail, l: Lit, lev: nat, p: Lit)
    requires Var(l) in t.info && EarlierReason(t, p) && PosOf(t, p) <= PosOf(t, l)
    requires lev <= LevelOf(t, l)
    ensures var c := t.info[Var(p)].reason.clause;
      MaxOther(Relabel(t, l, lev, t.info[Var(l)].reason), c, p) == MaxOther(t, c, p)
  {
    var c, t' := t.info[Var(p)].reason.clause, Relabel(t, l, lev, t.info[Var(l)].reason);
    forall k | k in c && k != p ensures LevelOf(t', k) == LevelOf(t, k) {
      assert OnTrail(t, Neg(k), PosOf(t, p));
    }
    MaxOtherSame(t', t, c, p);
  }

  // The literals of the list from j on have been repaired, the others are as before.
  ghost predicate Repaired(t0: Trail, t: Trail, f: Formula, seen0: set<nat>, list: seq<Lit>, j: nat) {
    && Valid(t, f) && LevelsOnly(t0, t, seen0)
    && (forall k :: j <= k < |list| ==> LevelOk(t, list[k]))
    && (forall k :: 0 <= k < j && k < |list| && Var(list[k]) in t0.info ==> LevelOf(t, list[k]) == LevelOf(t0, list[k]))
  }

  // From lower to higher trail positions.
  method Repair(t0: Trail, seen0: set<nat>, list: seq<Lit>, ghost f: Formula) returns (t: Trail, seen: set<nat>)
    requires Valid(t0, f) && SeenOk(t0, seen0) && Listed(t0, seen0, 0, list)
    ensures Valid(t, f) && LevelsOnly(t0, t, seen0) && seen == {}
    ensures forall j :: 0 <= j < |list| ==> LevelOk(t, list[j])
  {
    t, seen := t0, seen0;
    var j := |list|;
    while j > 0
      invariant 0 <= j <= |list| && Repaired(t0, t, f, seen0, list, j)
      invariant seen <= seen0 && forall k :: j <= k < |list| ==> Var(list[k]) !in seen
    {
      j := j - 1;
      t, seen := RepairOne(t0, t, seen0, seen, list, j, f);
    }
    forall v | v in seen0 ensures v !in seen {
      assert t0.lits[t0.info[v].pos] in list;
    }
    assert seen == {};
  }

  method RepairOne(ghost t0: Trail, a: Trail, ghost seen0: set<nat>, seen: set<nat>, list: seq<Lit>, j: nat,
        ghost f: Formula)
    returns (t: Trail, seen': set<nat>)
    requires Valid(t0, f) && SeenOk(t0, seen0) && Listed(t0, seen0, 0, list) && j < |list|
    requires Repaired(t0, a, f, seen0, list, j + 1)
    ensures Repaired(t0, t, f, seen0, list, j) && seen' == seen - {Var(list[j])}
  {
    var lit := list[j];
    ReasonKept(t0, a, f, seen0, lit);
    var r := a.info[Var(lit)].reason;
    var lev := RealLevel(a, r.clause, lit);
    LevelLowered(a, f, lit, lev);
    t := Relabel(a, lit, lev, r);
    RelabelValid(a, lit, lev, r, f);
    RepairStep(t0, a, t, f, seen0, list, j, lev);
    seen' := seen - {Var(lit)};
  }

  // The highest level of the others may be the new level.
  lemma LevelLowered(t: Trail, f: Formula, l: Lit, lev: nat)
    requires Valid(t, f) && IsTrue(t, l) && LevelOf(t, l) > 0 && t.info[Var(l)].reason.Because?
    requires lev == MaxOther(t, t.info[Var(l)].reason.clause, l)
    ensures lev <= LevelOf(t, l)
    ensures EntryOk(Relabel(t, l, lev, t.info[Var(l)].reason), PosOf(t, l), f)
  {
    var i, c := PosOf(t, l), t.info[Var(l)].reason.clause;
    assert EntryOk(t, i, f);
    MaxOtherMeaning(t, c, l);
    var t' := Relabel(t, l, lev, t.info[Var(l)].reason);
    RelabelOnTrail(t, l, lev, t.info[Var(l)].reason);
    if lev == 0 {
      RootUnit(t, l, c, f);
    } else {
      assert t.control[lev] <= t.control[LevelOf(t, l)];
      assert Implies(t', c, l, i, lev) by {
        forall k | k in c && k != l ensures OnTrail(t', Neg(k), i) && LevelOf(t', k) <= lev {
          assert OnTrail(t, Neg(k), i);
        }
      }
    }
  }

  lemma RepairStep(t0: Trail, a: Trail, t: Trail, f: Formula, seen0: set<nat>, list: seq<Lit>, j: nat, lev: nat)
    requires Valid(t0, f) && SeenOk(t0, seen0) && Listed(t0, seen0, 0, list) && j < |list|
    requires Repaired(t0, a, f, seen0, list, j + 1)
    requires EarlierReason(a, list[j])
    requires lev == MaxOther(a, a.info[Var(list[j])].reason.clause, list[j]) <= LevelOf(a, list[j])
    requires t == Relabel(a, list[j], lev, a.info[Var(list[j])].reason) && Valid(t, f)
    ensures Repaired(t0, t, f, seen0, list, j)
  {
    forall k | j <= k < |list| ensures LevelOk(t, list[k]) {
      assert k > j ==> LevelOk(a, list[k]);
      StillLevelOk(t0, a, f, seen0, list, j, lev, k);
    }
    forall k | 0 <= k < j ensures LevelOf(t, list[k]) == LevelOf(t0, list[k]) {
      assert PosOf(t0, list[k]) > PosOf(t0, list[j]);
    }
  }

  lemma StillLevelOk(t0: Trail, a: Trail, f: Formula, seen0: set<nat>, list: seq<Lit>, j: nat, lev: nat, k: nat)
    requires Valid(t0, f) && SeenOk(t0, seen0) && Listed(t0, seen0, 0, list)
    requires LevelsOnly(t0, a, seen0) && j <= k < |list|
    requires EarlierReason(a, list[j])
    requires lev == MaxOther(a, a.info[Var(list[j])].reason.clause, list[j]) <= LevelOf(a, list[j])
    requires k > j ==> LevelOk(a, list[k])
    ensures LevelOk(Relabel(a, list[j], lev, a.info[Var(list[j])].reason), list[k])
  {
    ReasonKept(t0, a, f, seen0, list[k]);
    assert k > j ==> PosOf(t0, list[j]) > PosOf(t0, list[k]);
    LaterLevel(a, list[j], lev, list[k]);
  }

  lemma ReasonKept(t0: Trail, a: Trail, f: Formula, seen0: set<nat>, l: Lit)
    requires Valid(t0, f) && SeenOk(t0, seen0) && LevelsOnly(t0, a, seen0) && Var(l) in seen0
    requires IsTrue(t0, l)
    ensures IsTrue(a, l) && EarlierReason(a, l)
  {
    assert EntryOk(t0, PosOf(t0, l), f);
    var c := t0.info[Var(l)].reason.clause;
    forall k | k in c && k != l ensures OnTrail(a, Neg(k), PosOf(a, l)) {
      assert OnTrail(t0, Neg(k), PosOf(t0, l));
    }
  }

  // ---------- The result ----------

  // Relevant variables have levels that agree with their reasons.
  ghost predicate LevelsAgree(t: Trail, relevant: set<nat>) {
    forall v :: v in relevant ==>
      v in t.info && t.info[v].pos < |t.lits| && Var(t.lits[t.info[v].pos]) == v && LevelOk(t, t.lits[t.info[v].pos])
  }

  // Reasons change for placeholders only, which get the reason given.
  ghost predicate OnlyPlaceholders(a: Trail, b: Trail, oracle: Oracle) {
    forall v :: v in b.info && v in a.info && b.info[v].reason != a.info[v].reason ==>
      && a.info[v].reason.External? && b.info[v].pos < |b.lits| && b.info[v].reason == oracle(b.lits[b.info[v].pos])
  }

  lemma PlaceholdersRepaired(t0: Trail, a: Trail, t: Trail, f: Formula, relevant: set<nat>, oracle: Oracle)
    requires Resolved(t0, a, oracle) && LevelsOnly(a, t, relevant) && SeenOk(a, relevant)
    ensures Relabelled(t0, t) && OnlyPlaceholders(t0, t, oracle)
  {
  }

  // Both passes: afterwards the conflict depends, at non-root level, only on
  // decisions and on variables with reason clauses and agreeing levels.
  method ExplainExternalPropagations(t0: Trail, oracle: Oracle, conflict: Clause, ghost f: Formula)
    returns (t: Trail, seen: set<nat>, open: nat, ghost relevant: set<nat>)
    requires Valid(t0, f) && Answers(oracle, t0, f) && AllFalse(t0, conflict)
    ensures open == 0 && seen == {} && Relabelled(t0, t) && Valid(t, f)
    ensures Explained(t, relevant, conflict) && LevelsAgree(t, relevant)
    ensures OnlyPlaceholders(t0, t, oracle) && OnlyNeeded(t0, t, relevant, conflict)
  {
    var list;
    t, seen, list, open := Collect(t0, oracle, conflict, f);
    ghost var a := t;
    relevant := seen;
    t, seen := Repair(t, seen, list, f);
    Finish(a, t, f, relevant, list, conflict);
    NeededRepaired(t0, a, t, relevant, conflict);
    PlaceholdersRepaired(t0, a, t, f, relevant, oracle);
  }

  lemma NeededRepaired(t0: Trail, a: Trail, t: Trail, relevant: set<nat>, conflict: Clause)
    requires OnlyNeeded(t0, a, relevant, conflict) && LevelsOnly(a, t, relevant)
    ensures OnlyNeeded(t0, t, relevant, conflict)
  {
    forall v | v in t.info && (v in relevant || v !in t0.info || t.info[v] != t0.info[v])
      ensures Needed(t0, t, conflict, v)
    {
      NeededStays(t0, a, t, conflict, v);
    }
  }

  lemma Finish(a: Trail, b: Trail, f: Formula, relevant: set<nat>, list: seq<Lit>, conflict: Clause)
    requires Valid(a, f) && SeenOk(a, relevant) && ClosedFrom(a, relevant, 0)
    requires Listed(a, relevant, 0, list)
    requires AllHandled(a, relevant, 0, conflict)
    requires LevelsOnly(a, b, relevant) && forall j :: 0 <= j < |list| ==> LevelOk(b, list[j])
    ensures Explained(b, relevant, conflict) && LevelsAgree(b, relevant)
  {
    forall k: Lit | Handled(a, relevant, k) ensures Handled(b, relevant, k) {
    }
    forall v | v in relevant ensures v in b.info && b.info[v].pos < |b.lits| && LevelOk(b, b.lits[b.info[v].pos]) {
      assert a.lits[a.info[v].pos] in list;
    }
    forall v, k: Lit | v in relevant && v in b.info && b.info[v].reason.Because? && k in b.info[v].reason.clause &&
      Var(k) != v
      ensures Handled(b, relevant, k)
    {
      assert AllHandled(a, relevant, a.lits[a.info[v].pos], a.info[v].reason.clause);
      assert Handled(a, relevant, k);
    }
  }

  // No literal reachable from the conflict still has the placeholder reason.
  lemma {:induction false} NoPlaceholderReachable(t: Trail, relevant: set<nat>, conflict: Clause, path: seq<Lit>)
    requires Explained(t, relevant, conflict) && DependencyPath(t, conflict, path) && path != []
    ensures var v := Var(path[|path| - 1]);
      v in t.info && !t.info[v].reason.External? && (v in relevant || t.info[v].reason.NoReason?)
  {
    var n := |path| - 1;
    if n == 0 {
      assert Handled(t, relevant, path[0]);
    } else {
      var p := path[..n];
      assert forall i :: 0 < i < n ==> Depends(t, p[i - 1], p[i]) by {
        assert forall i :: 0 < i < n ==> Depends(t, path[i - 1], path[i]);
      }
      NoPlaceholderReachable(t, relevant, conflict, p);
      assert Depends(t, path[n - 1], path[n]);
      assert Handled(t, relevant, path[n]);
    }
  }

  // A conflict of a trail with placeholders: explain what it depends on, then analyze it.
  method ExplainAndAnalyze(s: Search, conflict: Clause, oracle: Oracle, opts: Analyze.Options,
        worse: (nat, nat) -> bool, minimize: bool, depth: nat, levels: Minimize.Seen)
    returns (out: Analyze.Outcome, ghost explained: Trail, ghost relevant: set<nat>, ghost at: Trail)
    requires Valid(s.t, s.formula) && Answers(oracle, s.t, s.formula)
    requires Entails(s.formula, conflict) && AllFalse(s.t, conflict) && NoDup(conflict)
    requires |conflict| >= 2 && opts.propagator
    modifies s`t
    ensures Valid(s.t, s.formula)
    ensures out.Empty? ==> Unsatisfiable(s.formula)
    ensures out.Forced? ==> out.lit in conflict && IsTrue(s.t, out.lit) && IsTrue(old(s.t), Neg(out.lit))
    ensures out.Learned? ==> Entails(s.formula, out.clause) && Neg(out.uip) in out.clause && IsTrue(old(s.t), out.uip)
    ensures out.Learned? ==> IsTrue(s.t, Neg(out.uip)) && forall k :: k in out.clause && k != Neg(out.uip) ==>
      IsTrue(s.t, Neg(k))
    ensures out.Learned? && opts.chrono ==> Analyze.OnHighest(s.t, out.clause, Neg(out.uip))
    ensures Relabelled(old(s.t), explained) && OnlyPlaceholders(old(s.t), explained, oracle)
    ensures OnlyNeeded(old(s.t), explained, relevant, conflict) && LevelsAgree(explained, relevant)
    ensures out.Empty? <==> !Analyze.SomeAboveRoot(explained, conflict)
    ensures out.Forced? <==> Analyze.SingleHighest(explained, conflict)
    ensures out.Learned? ==> Analyze.OnConflictLevel(explained, at, conflict)
    ensures out.Learned? ==> Analyze.LearnedAt(at, conflict, out.uip, out.clause, minimize, levels, depth)
  {
    var t, seen, open;
    t, seen, open, relevant := ExplainExternalPropagations(s.t, oracle, conflict, s.formula);
    SameTrue(s.t, t);
    s.t, explained := t, t;
    out, at := Analyze.AnalyzeConflict(s, conflict, opts, worse, minimize, depth, levels, relevant);
  }

  lemma SameTrue(a: Trail, b: Trail)
    requires SamePositions(a, b)
    ensures forall l: Lit :: IsTrue(a, l) <==> IsTrue(b, l)
  {
  }
}
