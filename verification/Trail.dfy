// The assignment trail under chronological backtracking (src/propagate.cpp,
// src/backtrack.cpp): literals may be kept out of level order.
module Trail {
  import opened Cnf

  // External stands for the reason of an external propagation that has not been asked for yet.
  datatype Reason = NoReason | External | Because(clause: Clause)

  // Level, trail position and reason of a variable.
  datatype Info = Info(level: nat, pos: nat, reason: Reason)

  // control[l] is the size of the trail before level l was opened.
  datatype Trail = Trail(lits: seq<Lit>, info: map<nat, Info>, control: seq<nat>)

  function LevelOf(t: Trail, l: Lit): nat {
    if Var(l) in t.info then t.info[Var(l)].level else 0
  }

  function PosOf(t: Trail, l: Lit): nat {
    if Var(l) in t.info then t.info[Var(l)].pos else 0
  }

  // Literal l is assigned true by one of the first n trail entries.
  predicate OnTrail(t: Trail, l: Lit, n: nat) {
    Var(l) in t.info && t.info[Var(l)].pos < n && t.info[Var(l)].pos < |t.lits| && t.lits[t.info[Var(l)].pos] == l
  }

  predicate IsTrue(t: Trail, l: Lit) {
    OnTrail(t, l, |t.lits|)
  }

  predicate Unassigned(t: Trail, l: Lit) {
    !IsTrue(t, l) && !IsTrue(t, Neg(l))
  }

  ghost predicate AllFalse(t: Trail, c: Clause) {
    forall k :: k in c ==> IsTrue(t, Neg(k))
  }

  // All other literals of the clause are false and earlier on the trail, on
  // levels up to lev.
  ghost predicate Implies(t: Trail, c: Clause, l: Lit, n: nat, lev: nat) {
    && l in c
    && (forall k :: k in c && k != l ==> OnTrail(t, Neg(k), n) && LevelOf(t, k) <= lev)
  }

  // No literal before position n is above level lev.
  ghost predicate NoneAbove(t: Trail, n: nat, lev: nat) {
    forall j :: 0 <= j < n && j < |t.lits| ==> LevelOf(t, t.lits[j]) <= lev
  }

  ghost predicate EntryOk(t: Trail, i: nat, f: Formula)
    requires i < |t.lits| && |t.control| > 0
  {
    && Var(t.lits[i]) in t.info
    && var v := t.info[Var(t.lits[i])];
    && v.pos == i && v.level < |t.control| && t.control[v.level] <= i
    && if v.level == 0 then Entails(f, [t.lits[i]])
       else match v.reason
       case NoReason => i == t.control[v.level]
       case External => NoneAbove(t, i, v.level)
       case Because(c) => Entails(f, c) && Implies(t, c, t.lits[i], i, v.level)
  }

  ghost predicate Frames(t: Trail) {
    && |t.control| > 0 && t.control[0] == 0
    && (forall a, b :: 0 <= a <= b < |t.control| ==> t.control[a] <= t.control[b] <= |t.lits|)
  }

  // What every operation on the trail keeps.
  ghost predicate Valid(t: Trail, f: Formula) {
    Frames(t) && forall i :: 0 <= i < |t.lits| ==> EntryOk(t, i, f)
  }

  function Height(t: Trail): nat
    requires |t.control| > 0
  {
    |t.control| - 1
  }

  // ---------- Dependencies ----------

  // Literal k is on level zero, a decision, or one of the known variables.
  ghost predicate Handled(t: Trail, known: set<nat>, k: Lit) {
    LevelOf(t, k) == 0 || (Var(k) in t.info && t.info[Var(k)].reason.NoReason?) || Var(k) in known
  }

  ghost predicate AllHandled(t: Trail, known: set<nat>, l: int, c: Clause) {
    forall k :: k in c && k != l ==> Handled(t, known, k)
  }

  // The known variables have reason clauses, which depend on nothing else.
  ghost predicate Closed(t: Trail, known: set<nat>) {
    forall v :: v in known ==>
      v in t.info && t.info[v].reason.Because? && forall k :: k in t.info[v].reason.clause && Var(k) != v ==>
        Handled(t, known, k)
  }

  // No placeholder can be reached from the clause.
  ghost predicate Explained(t: Trail, known: set<nat>, c: Clause) {
    Closed(t, known) && AllHandled(t, known, 0, c)
  }

  // Without placeholders on the trail every falsified clause is explained.
  lemma NoPlaceholders(t: Trail, f: Formula, c: Clause) returns (known: set<nat>)
    requires Valid(t, f) && AllFalse(t, c)
    requires forall i :: 0 <= i < |t.lits| && Var(t.lits[i]) in t.info ==> !t.info[Var(t.lits[i])].reason.External?
    ensures Explained(t, known, c)
  {
    known := set i | 0 <= i < |t.lits| && EntryOk(t, i, f) && LevelOf(t, t.lits[i]) > 0 &&
      t.info[Var(t.lits[i])].reason.Because? :: Var(t.lits[i]);
    forall k: Lit | IsTrue(t, Neg(k)) ensures Handled(t, known, k) {
      assert EntryOk(t, PosOf(t, k), f);
    }
    forall v, k: Lit | v in known && v in t.info && t.info[v].reason.Because? && k in t.info[v].reason.clause &&
      Var(k) != v
      ensures Handled(t, known, k)
    {
      var i :| 0 <= i < |t.lits| && EntryOk(t, i, f) && LevelOf(t, t.lits[i]) > 0 && Var(t.lits[i]) == v;
      assert OnTrail(t, Neg(k), i);
    }
  }

  // ---------- Assignment ----------

  // The highest level of the other literals of the clause, zero without any.
  ghost predicate HighestOther(t: Trail, c: Clause, l: Lit, lev: nat) {
    && (forall k :: k in c && k != l ==> LevelOf(t, k) <= lev)
    && (lev == 0 || exists k :: k in c && k != l && LevelOf(t, k) == lev)
  }

  method AssignmentLevel(t: Trail, l: Lit, c: Clause) returns (lev: nat)
    ensures HighestOther(t, c, l, lev)
  {
    lev := 0;
    for i := 0 to |c|
      invariant forall k :: 0 <= k < i && c[k] != l ==> LevelOf(t, c[k]) <= lev
      invariant lev > 0 ==> exists k :: k in c && k != l && LevelOf(t, k) == lev
    {
      if c[i] != l && LevelOf(t, c[i]) > lev {
        lev := LevelOf(t, c[i]);
        assert c[i] in c;
      }
    }
  }

  function Push(t: Trail, l: Lit, lev: nat, r: Reason): Trail {
    t.(lits := t.lits + [l], info := t.info[Var(l) := Info(lev, |t.lits|, r)])
  }

  // Entries of the old trail are not affected by assigning a new variable.
  lemma PushOld(t: Trail, l: Lit, lev: nat, r: Reason, f: Formula)
    requires Valid(t, f) && Unassigned(t, l)
    ensures forall k: Lit, n: nat :: n <= |t.lits| && OnTrail(t, k, n) ==>
      OnTrail(Push(t, l, lev, r), k, n) && LevelOf(Push(t, l, lev, r), k) == LevelOf(t, k)
  {
    forall k: Lit | IsTrue(t, k) ensures Var(k) != Var(l) {
      assert k != l && k != Neg(l);
    }
  }

  lemma OldAbove(t: Trail, l: Lit, lev: nat, r: Reason, f: Formula, n: nat, top: nat)
    requires Valid(t, f) && Unassigned(t, l) && n <= |t.lits| && NoneAbove(t, n, top)
    ensures NoneAbove(Push(t, l, lev, r), n, top)
  {
    PushOld(t, l, lev, r, f);
    forall j | 0 <= j < n ensures LevelOf(Push(t, l, lev, r), t.lits[j]) <= top {
      assert EntryOk(t, j, f) && OnTrail(t, t.lits[j], |t.lits|);
    }
  }

  lemma OldEntry(t: Trail, l: Lit, lev: nat, r: Reason, f: Formula, i: nat)
    requires Valid(t, f) && Unassigned(t, l) && i < |t.lits|
    ensures EntryOk(Push(t, l, lev, r), i, f)
  {
    PushOld(t, l, lev, r, f);
    assert EntryOk(t, i, f) && OnTrail(t, t.lits[i], |t.lits|);
    var v := t.info[Var(t.lits[i])];
    if v.level > 0 && v.reason.External? {
      OldAbove(t, l, lev, r, f, i, v.level);
    }
    if v.level > 0 && v.reason.Because? {
      var c, t' := v.reason.clause, Push(t, l, lev, r);
      forall k | k in c && k != t.lits[i] ensures OnTrail(t', Neg(k), i) && LevelOf(t', k) == LevelOf(t, k) {
        assert OnTrail(t, Neg(k), i) && LevelOf(t', Neg(k)) == LevelOf(t, Neg(k));
      }
    }
  }

  lemma PushValid(t: Trail, l: Lit, lev: nat, r: Reason, f: Formula)
    requires Valid(t, f) && Unassigned(t, l) && EntryOk(Push(t, l, lev, r), |t.lits|, f)
    ensures Valid(Push(t, l, lev, r), f)
  {
    var t' := Push(t, l, lev, r);
    forall i | 0 <= i < |t'.lits| ensures EntryOk(t', i, f) {
      if i < |t.lits| { OldEntry(t, l, lev, r, f, i); }
    }
  }

  // A clause whose other literals are false at the root level yields a unit.
  lemma RootUnit(t: Trail, l: Lit, c: Clause, f: Formula)
    requires Valid(t, f) && Entails(f, c)
    requires forall k :: k in c && k != l ==> IsTrue(t, Neg(k)) && LevelOf(t, k) == 0
    ensures Entails(f, [l])
  {
    forall m: Model | Models(m, f) ensures Sat(m, [l]) {
      var k :| k in c && True(m, k);
      if k != l {
        var i := PosOf(t, k);
        assert EntryOk(t, i, f) && t.lits[i] == Neg(k);
        assert Sat(m, [Neg(k)]);
        Negation(m, k);
      }
      assert l in [l];
    }
  }

  lemma ImpliedEntry(t: Trail, l: Lit, c: Clause, lev: nat, f: Formula)
    requires Valid(t, f) && Unassigned(t, l) && Entails(f, c) && Implies(t, c, l, |t.lits|, lev)
    requires 0 < lev <= Height(t)
    requires t.control[lev] <= |t.lits|
    ensures EntryOk(Push(t, l, lev, Because(c)), |t.lits|, f)
  {
    var t' := Push(t, l, lev, Because(c));
    PushOld(t, l, lev, Because(c), f);
    forall k | k in c && k != l ensures OnTrail(t', Neg(k), |t.lits|) && LevelOf(t', k) == LevelOf(t, k) {
      assert OnTrail(t, Neg(k), |t.lits|) && LevelOf(t', Neg(k)) == LevelOf(t, Neg(k));
    }
  }

  lemma LevelBound(t: Trail, f: Formula, l: Lit)
    requires Valid(t, f) && IsTrue(t, l)
    ensures LevelOf(t, l) <= Height(t)
  {
    assert EntryOk(t, PosOf(t, l), f);
  }

  lemma ExternalEntry(t: Trail, l: Lit, f: Formula)
    requires Valid(t, f) && Unassigned(t, l) && Height(t) > 0
    ensures EntryOk(Push(t, l, Height(t), External), |t.lits|, f)
  {
    assert NoneAbove(t, |t.lits|, Height(t)) by {
      forall j | 0 <= j < |t.lits| ensures LevelOf(t, t.lits[j]) <= Height(t) { assert EntryOk(t, j, f); }
    }
    OldAbove(t, l, Height(t), External, f, |t.lits|, Height(t));
  }

  lemma LevelReached(t: Trail, f: Formula, c: Clause, l: Lit, lev: nat)
    requires Valid(t, f)
    requires forall k :: k in c && k != l ==> IsTrue(t, Neg(k)) && LevelOf(t, k) <= Height(t)
    requires lev > 0 ==> exists k :: k in c && k != l && LevelOf(t, k) == lev
    ensures lev <= Height(t)
  {
  }

  class Search {
    var t: Trail
    ghost const formula: Formula

    constructor (f: Formula)
      ensures t == Trail([], map[], [0]) && formula == f && Valid(t, formula)
    {
      t, formula := Trail([], map[], [0]), f;
    }

    // Propagate l: the clause c becomes its reason.  Its level is the current
    // one, or with chronological backtracking the highest of the other literals.
    method SearchAssign(l: Lit, c: Clause, chrono: bool)
      requires Valid(t, formula) && Unassigned(t, l) && Entails(formula, c) && l in c
      requires forall k :: k in c && k != l ==> IsTrue(t, Neg(k))
      modifies this`t
      ensures Valid(t, formula) && t.control == old(t).control && t.lits == old(t).lits + [l]
      ensures forall k :: k in c && k != l ==> LevelOf(old(t), k) <= LevelOf(t, l)
      ensures if chrono then HighestOther(old(t), c, l, LevelOf(t, l)) else LevelOf(t, l) == Height(t)
      ensures t == Push(old(t), l, LevelOf(t, l), if LevelOf(t, l) == 0 then NoReason else Because(c))
    {
      forall k | k in c && k != l ensures LevelOf(t, k) <= Height(t) { LevelBound(t, formula, Neg(k)); }
      var lev := Height(t);
      if chrono {
        lev := AssignmentLevel(t, l, c);
        LevelReached(t, formula, c, l, lev);
      }
      if lev == 0 {
        RootUnit(t, l, c, formula);
        PushValid(t, l, 0, NoReason, formula);
        t := Push(t, l, 0, NoReason);
      } else {
        ImpliedEntry(t, l, c, lev, formula);
        PushValid(t, l, lev, Because(c), formula);
        t := Push(t, l, lev, Because(c));
      }
    }

    // An external propagation whose reason is not known yet.
    method AssignExternal(l: Lit)
      requires Valid(t, formula) && Unassigned(t, l) && Height(t) > 0
      modifies this`t
      ensures Valid(t, formula) && t == Push(old(t), l, Height(old(t)), External)
    {
      ExternalEntry(t, l, formula);
      PushValid(t, l, Height(t), External, formula);
      t := Push(t, l, Height(t), External);
    }

    // A learned unit is assigned on level zero at any time.
    method AssignUnit(l: Lit)
      requires Valid(t, formula) && Unassigned(t, l) && Entails(formula, [l])
      modifies this`t
      ensures Valid(t, formula) && t == Push(old(t), l, 0, NoReason)
    {
      PushValid(t, l, 0, NoReason, formula);
      t := Push(t, l, 0, NoReason);
    }

    method PseudoDecision()
      requires Valid(t, formula)
      modifies this`t
      ensures Valid(t, formula) && t == old(t).(control := old(t).control + [|old(t).lits|])
    {
      OpenLevel(t, formula);
      t := t.(control := t.control + [|t.lits|]);
    }

    method AssumeDecision(l: Lit)
      requires Valid(t, formula) && Unassigned(t, l)
      modifies this`t
      ensures Valid(t, formula) && t.control == old(t).control + [|old(t).lits|]
      ensures t == Push(old(t).(control := t.control), l, Height(t), NoReason)
      ensures t.lits == old(t).lits + [l] && LevelOf(t, l) == Height(t) == Height(old(t)) + 1
    {
      PseudoDecision();
      PushValid(t, l, Height(t), NoReason, formula);
      t := Push(t, l, Height(t), NoReason);
    }
  }

  lemma OpenLevel(t: Trail, f: Formula)
    requires Valid(t, f)
    ensures Valid(t.(control := t.control + [|t.lits|]), f)
  {
    var t' := t.(control := t.control + [|t.lits|]);
    forall i | 0 <= i < |t'.lits| ensures EntryOk(t', i, f) {
      assert EntryOk(t, i, f);
      var v := t.info[Var(t.lits[i])];
      if v.level > 0 && v.reason.Because? {
        assert Implies(t', v.reason.clause, t.lits[i], i, v.level);
      }
      if v.level > 0 && v.reason.External? {
        assert NoneAbove(t', i, v.level) by { assert forall j :: 0 <= j < i ==>
          LevelOf(t', t.lits[j]) == LevelOf(t, t.lits[j]); }
      }
    }
  }
}
