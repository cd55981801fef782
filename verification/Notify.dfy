// Notifications to the external propagator (src/external_propagate.cpp,
// src/backtrack.cpp, src/decide.cpp): a listener like the one in mobical.cpp
// keeps a list of literals per decision level.
module Notify {
  import opened Cnf
  import opened Trail
  import opened Backtrack
  import Explain

  // The trail, the number of its literals the listener knows, the lists of the
  // listener, and the root-level literals it has been told about eagerly.
  datatype State = State(t: Trail, notified: nat, levels: seq<seq<Lit>>, fixed: seq<Lit>)

  // Observed literals that are not fixed, at trail positions from i up to j.
  function Observed(t: Trail, vars: set<nat>, i: nat, j: nat): seq<Lit>
    requires j <= |t.lits|
    decreases j
  {
    if j <= i then []
    else
      var l := t.lits[j - 1];
      Observed(t, vars, i, j - 1) + if Var(l) in vars && LevelOf(t, l) > 0 then [l] else []
  }

  // The listener is to be told about the literal at position p.
  ghost predicate ToTell(t: Trail, vars: set<nat>, p: nat) {
    p < |t.lits| && Var(t.lits[p]) in vars && LevelOf(t, t.lits[p]) > 0
  }

  // The literals of s are those at the given positions from i up to j, which are
  // increasing and exactly those the listener is to be told about.
  ghost predicate Selects(t: Trail, vars: set<nat>, i: nat, j: nat, s: seq<Lit>, ps: seq<nat>) {
    && |s| == |ps| && j <= |t.lits|
    && (forall n :: 0 <= n < |ps| ==> i <= ps[n] < j && s[n] == t.lits[ps[n]])
    && (forall n, m :: 0 <= n < m < |ps| ==> ps[n] < ps[m])
    && (forall p: nat :: i <= p < j ==> (p in ps <==> ToTell(t, vars, p)))
  }

  ghost predicate Selected(t: Trail, vars: set<nat>, i: nat, j: nat, s: seq<Lit>) {
    exists ps :: Selects(t, vars, i, j, s, ps)
  }

  lemma {:induction false} ObservedSelects(t: Trail, vars: set<nat>, i: nat, j: nat)
    requires j <= |t.lits|
    ensures Selected(t, vars, i, j, Observed(t, vars, i, j))
    decreases j
  {
    var s := Observed(t, vars, i, j);
    if j <= i {
      assert Selects(t, vars, i, j, s, []);
    } else {
      ObservedSelects(t, vars, i, j - 1);
      var ps: seq<nat> :| Selects(t, vars, i, j - 1, Observed(t, vars, i, j - 1), ps);
      SelectsNext(t, vars, i, j - 1, Observed(t, vars, i, j - 1), ps);
      assert s == if ToTell(t, vars, j - 1) then Observed(t, vars, i, j - 1) + [t.lits[j - 1]]
        else Observed(t, vars, i, j - 1);
    }
  }

  lemma SelectsNext(t: Trail, vars: set<nat>, i: nat, j: nat, s: seq<Lit>, ps: seq<nat>)
    requires Selects(t, vars, i, j, s, ps) && i <= j < |t.lits|
    ensures Selected(t, vars, i, j + 1, if ToTell(t, vars, j) then s + [t.lits[j]] else s)
  {
    if ToTell(t, vars, j) {
      var qs: seq<nat> := ps + [j];
      assert qs[|ps|] == j && forall p :: p in qs <==> p in ps || p == j;
      assert Selects(t, vars, i, j + 1, s + [t.lits[j]], qs);
    } else {
      assert j !in ps;
      assert Selects(t, vars, i, j + 1, s, ps);
    }
  }

  // Such a selection holds each literal of its part of the trail once and with its sign.
  lemma SelectedMeaning(t: Trail, vars: set<nat>, f: Formula, i: nat, j: nat, s: seq<Lit>)
    requires Valid(t, f) && Selected(t, vars, i, j, s)
    ensures NoDup(s)
    ensures forall l: Lit :: l in s <==> IsTrue(t, l) && i <= PosOf(t, l) < j && ToTell(t, vars, PosOf(t, l))
  {
    var ps :| Selects(t, vars, i, j, s, ps);
    forall n | 0 <= n < |s| ensures IsTrue(t, s[n]) && PosOf(t, s[n]) == ps[n] && ToTell(t, vars, ps[n]) {
      assert EntryOk(t, ps[n], f) && ps[n] in ps;
    }
    forall l: Lit | IsTrue(t, l) && i <= PosOf(t, l) < j && ToTell(t, vars, PosOf(t, l)) ensures l in s {
      assert PosOf(t, l) in ps;
      var n :| 0 <= n < |ps| && ps[n] == PosOf(t, l);
      assert s[n] == l;
    }
  }

  // Where level k ends on the trail.
  function EndOf(t: Trail, k: nat): nat {
    if k + 1 < |t.control| then t.control[k + 1] else |t.lits|
  }

  function Min(a: nat, b: nat): nat {
    if a <= b then a else b
  }

  // The lists agree with the part of the trail that has been notified.
  ghost predicate Mirror(a: State, vars: set<nat>, f: Formula) {
    && Valid(a.t, f) && |a.levels| == |a.t.control| && a.notified <= |a.t.lits|
    && (forall k :: 0 <= k < |a.t.control| ==> a.t.control[k] <= a.notified)
    && (forall k :: 1 <= k < |a.t.control| ==> ListOk(a, vars, k))
    && a.levels[0] == a.fixed
  }

  ghost predicate ListOk(a: State, vars: set<nat>, k: nat)
    requires k < |a.levels| && k < |a.t.control| && a.notified <= |a.t.lits|
  {
    a.levels[k] == Observed(a.t, vars, a.t.control[k], Min(a.notified, EndOf(a.t, k)))
  }

  // ---------- The steps ----------

  // A literal is assigned; the listener is told at once about observed root-level literals.
  ghost predicate Assigns(a: State, b: State, vars: set<nat>, l: Lit, lev: nat, r: Reason) {
    && Unassigned(a.t, l) && b.t == Push(a.t, l, lev, r) && b.notified == a.notified && a.levels != []
    && if lev == 0 && Var(l) in vars
       then b.levels == a.levels[0 := a.levels[0] + [l]] && b.fixed == a.fixed + [l]
       else b.levels == a.levels && b.fixed == a.fixed
  }

  // A new level is opened, only if the listener knows the whole trail.
  ghost predicate Opens(a: State, b: State) {
    && a.notified == |a.t.lits| && b.t == a.t.(control := a.t.control + [|a.t.lits|])
    && b.notified == a.notified && b.levels == a.levels + [[]] && b.fixed == a.fixed
  }

  ghost predicate Backtracks(a: State, b: State, n: nat) {
    && Backtracked(a.t, n, b.t) && n + 1 < |a.t.control| && n < |a.levels|
    && b.levels == a.levels[..n + 1] && b.notified == Min(a.notified, a.t.control[n + 1]) && b.fixed == a.fixed
  }

  ghost predicate Notifies(a: State, b: State, vars: set<nat>) {
    && b.t == a.t && b.notified == |a.t.lits| && b.fixed == a.fixed && a.levels != [] && |b.levels| == |a.levels|
    && b.levels == a.levels[|a.levels| - 1 := a.levels[|a.levels| - 1] + Observed(a.t, vars, a.notified, |a.t.lits|)]
  }

  ghost predicate Next(a: State, b: State, vars: set<nat>, f: Formula) {
    || (Valid(b.t, f) && exists l, lev, r :: Assigns(a, b, vars, l, lev, r))
    || Opens(a, b)
    || (exists n :: Backtracks(a, b, n))
    || Notifies(a, b, vars)
  }

  // An observed literal is found to be implied at the root level.
  ghost predicate Moved(t: Trail, t': Trail, vars: set<nat>, i: nat) {
    && i < |t.lits| && Var(t.lits[i]) in vars && LevelOf(t, t.lits[i]) > 0 && LevelOf(t', t.lits[i]) == 0
  }

  // External propagations are explained; the listener is told at once about
  // observed literals that get to the root level, and keeps them in its lists.
  ghost predicate Explains(a: State, b: State, vars: set<nat>, f: Formula) {
    && Explain.Relabelled(a.t, b.t) && Valid(b.t, f) && b.notified == a.notified && a.levels != []
    && exists news :: b.fixed == a.fixed + news && b.levels == a.levels[0 := a.levels[0] + news] &&
         forall l: Lit :: l in news <==> exists i: nat :: Moved(a.t, b.t, vars, i) && a.t.lits[i] == l
  }

  // ---------- What the steps keep ----------

  lemma {:induction false} ObservedSame(t: Trail, t': Trail, vars: set<nat>, i: nat, j: nat)
    requires j <= |t.lits| && j <= |t'.lits|
    requires forall k :: 0 <= k < j ==> t.lits[k] == t'.lits[k] && LevelOf(t, t.lits[k]) == LevelOf(t', t.lits[k])
    ensures Observed(t, vars, i, j) == Observed(t', vars, i, j)
    decreases j
  {
    if j > i { ObservedSame(t, t', vars, i, j - 1); }
  }

  lemma {:induction false} ObservedConcat(t: Trail, vars: set<nat>, i: nat, j: nat, k: nat)
    requires i <= j <= k <= |t.lits|
    ensures Observed(t, vars, i, k) == Observed(t, vars, i, j) + Observed(t, vars, j, k)
    decreases k
  {
    if k > j { ObservedConcat(t, vars, i, j, k - 1); }
  }

  // Nothing on level zero is observed and not fixed.
  lemma {:induction false} RootSegment(t: Trail, vars: set<nat>, f: Formula, j: nat)
    requires Valid(t, f) && j <= EndOf(t, 0) && j <= |t.lits|
    ensures Observed(t, vars, 0, j) == []
    decreases j
  {
    if j > 0 {
      RootSegment(t, vars, f, j - 1);
      assert EntryOk(t, j - 1, f);
    }
  }

  lemma AssignKeeps(a: State, b: State, vars: set<nat>, f: Formula, l: Lit, lev: nat, r: Reason)
    requires Mirror(a, vars, f) && Assigns(a, b, vars, l, lev, r) && Valid(b.t, f)
    ensures Mirror(b, vars, f)
  {
    PushOld(a.t, l, lev, r, f);
    forall k | 0 <= k < |a.t.lits| ensures LevelOf(b.t, a.t.lits[k]) == LevelOf(a.t, a.t.lits[k]) {
      assert EntryOk(a.t, k, f) && OnTrail(a.t, a.t.lits[k], |a.t.lits|);
    }
    forall k | 1 <= k < |b.t.control| ensures ListOk(b, vars, k) {
      assert ListOk(a, vars, k) && Min(a.notified, EndOf(a.t, k)) == Min(b.notified, EndOf(b.t, k));
      ObservedSame(a.t, b.t, vars, a.t.control[k], Min(a.notified, EndOf(a.t, k)));
    }
  }

  lemma OpenKeeps(a: State, b: State, vars: set<nat>, f: Formula)
    requires Mirror(a, vars, f) && Opens(a, b)
    ensures Mirror(b, vars, f)
  {
    OpenLevel(a.t, f);
    var top := |a.t.control|;
    assert b.t.control[top] == |a.t.lits|;
    forall k | 1 <= k < |b.t.control| ensures ListOk(b, vars, k) {
      if k < top {
        assert ListOk(a, vars, k) && EndOf(a.t, k) == EndOf(b.t, k);
        ObservedSame(a.t, b.t, vars, a.t.control[k], Min(a.notified, EndOf(a.t, k)));
      }
    }
  }

  lemma BacktrackKeeps(a: State, b: State, vars: set<nat>, f: Formula, n: nat)
    requires Mirror(a, vars, f) && Backtracks(a, b, n)
    ensures Mirror(b, vars, f)
  {
    BacktrackCorrect(a.t, n, b.t, f);
    KeptLength(a.t, n, f);
    var base := a.t.control[n + 1];
    forall k | 0 <= k < base ensures a.t.lits[k] == b.t.lits[k] {
      PrefixKept(a.t, k, n, f);
      assert EntryOk(a.t, k, f);
      RankPosition(a.t, k, n);
    }
    forall k | 1 <= k < |b.t.control| ensures ListOk(b, vars, k) {
      assert ListOk(a, vars, k) && a.t.control[k] == b.t.control[k];
      assert EndOf(a.t, k) == a.t.control[k + 1] <= base == b.notified;
      assert k < n ==> EndOf(b.t, k) == a.t.control[k + 1];
      ObservedSame(a.t, b.t, vars, a.t.control[k], EndOf(a.t, k));
    }
  }

  lemma NotifyKeeps(a: State, b: State, vars: set<nat>, f: Formula)
    requires Mirror(a, vars, f) && Notifies(a, b, vars)
    ensures Mirror(b, vars, f) && b.notified == |b.t.lits|
  {
    var top := |a.levels| - 1;
    if top == 0 {
      RootSegment(a.t, vars, f, |a.t.lits|);
      ObservedConcat(a.t, vars, 0, a.notified, |a.t.lits|);
      assert b.levels[0] == a.levels[0];
    } else {
      ObservedConcat(a.t, vars, a.t.control[top], a.notified, |a.t.lits|);
    }
    forall k | 1 <= k < |b.t.control| ensures ListOk(b, vars, k) {
      assert ListOk(a, vars, k);
      assert k < top ==> a.t.control[k + 1] <= a.notified;
    }
  }

  lemma StepKeeps(a: State, b: State, vars: set<nat>, f: Formula)
    requires Mirror(a, vars, f) && Next(a, b, vars, f)
    ensures Mirror(b, vars, f)
  {
    if Valid(b.t, f) && exists l, lev, r :: Assigns(a, b, vars, l, lev, r) {
      var l, lev, r :| Assigns(a, b, vars, l, lev, r);
      AssignKeeps(a, b, vars, f, l, lev, r);
    } else if Opens(a, b) {
      OpenKeeps(a, b, vars, f);
    } else if exists n :: Backtracks(a, b, n) {
      var n :| Backtracks(a, b, n);
      BacktrackKeeps(a, b, vars, f, n);
    } else {
      NotifyKeeps(a, b, vars, f);
    }
  }

  // ---------- Explanations ----------

  lemma {:induction false} ObservedMoved(t: Trail, t': Trail, vars: set<nat>, i: nat, j: nat)
    requires t'.lits == t.lits && j <= |t.lits|
    requires forall k :: 0 <= k < j && LevelOf(t, t.lits[k]) == 0 ==> LevelOf(t', t.lits[k]) == 0
    ensures |Observed(t', vars, i, j)| <= |Observed(t, vars, i, j)|
    ensures (forall k: nat :: i <= k < j ==> !Moved(t, t', vars, k)) ==>
      Observed(t', vars, i, j) == Observed(t, vars, i, j)
    ensures (exists k: nat :: i <= k < j && Moved(t, t', vars, k)) ==>
      |Observed(t', vars, i, j)| < |Observed(t, vars, i, j)|
    decreases j
  {
    if j > i {
      ObservedMoved(t, t', vars, i, j - 1);
      assert Moved(t, t', vars, j - 1) <==>
        Var(t.lits[j - 1]) in vars && LevelOf(t, t.lits[j - 1]) > 0 && LevelOf(t', t.lits[j - 1]) == 0;
    }
  }

  // The level during which a position above the root level was reached.
  lemma SegmentOf(t: Trail, i: nat) returns (k: nat)
    requires Frames(t) && |t.control| > 1 && t.control[1] <= i < |t.lits|
    ensures 1 <= k < |t.control| && t.control[k] <= i < EndOf(t, k)
  {
    k := 1;
    while EndOf(t, k) <= i
      invariant 1 <= k < |t.control| && t.control[k] <= i
      decreases |t.control| - k
    {
      k := k + 1;
    }
  }

  lemma MovedAbove(a: State, b: State, vars: set<nat>, f: Formula, i: nat)
    requires Mirror(a, vars, f) && Moved(a.t, b.t, vars, i)
    ensures |a.t.control| > 1 && a.t.control[1] <= i
  {
    assert EntryOk(a.t, i, f);
  }

  // Afterwards the lists agree if and only if no literal the listener has been
  // told about got to the root level.
  lemma MirrorIffNoneMoved(a: State, b: State, vars: set<nat>, f: Formula)
    requires Mirror(a, vars, f) && Explains(a, b, vars, f)
    ensures Mirror(b, vars, f) <==> forall i: nat :: i < a.notified ==> !Moved(a.t, b.t, vars, i)
  {
    forall k | 0 <= k < |a.t.lits| && LevelOf(a.t, a.t.lits[k]) == 0 ensures LevelOf(b.t, a.t.lits[k]) == 0 {
      assert EntryOk(a.t, k, f);
    }
    if forall i: nat :: i < a.notified ==> !Moved(a.t, b.t, vars, i) {
      forall k | 1 <= k < |b.t.control| ensures ListOk(b, vars, k) {
        assert ListOk(a, vars, k);
        ObservedMoved(a.t, b.t, vars, a.t.control[k], Min(a.notified, EndOf(a.t, k)));
      }
    } else {
      var i: nat :| i < a.notified && Moved(a.t, b.t, vars, i);
      MovedAbove(a, b, vars, f, i);
      var k := SegmentOf(a.t, i);
      assert ListOk(a, vars, k);
      ObservedMoved(a.t, b.t, vars, a.t.control[k], Min(a.notified, EndOf(a.t, k)));
      assert !ListOk(b, vars, k);
    }
  }

  // ---------- All runs ----------

  ghost predicate Run(run: seq<State>, vars: set<nat>, f: Formula) {
    && |run| > 0 && run[0] == State(Trail([], map[], [0]), 0, [[]], [])
    && forall i :: 0 < i < |run| ==> Next(run[i - 1], run[i], vars, f)
  }

  lemma {:induction false} RunMirrors(run: seq<State>, vars: set<nat>, f: Formula, n: nat)
    requires Run(run, vars, f) && n < |run|
    ensures Mirror(run[n], vars, f)
  {
    if n > 0 {
      RunMirrors(run, vars, f, n - 1);
      assert Next(run[n - 1], run[n], vars, f);
      StepKeeps(run[n - 1], run[n], vars, f);
    }
  }

  // Runs with explanations.
  ghost predicate ExplainedRun(run: seq<State>, vars: set<nat>, f: Formula) {
    && |run| > 0 && run[0] == State(Trail([], map[], [0]), 0, [[]], [])
    && forall i :: 0 < i < |run| ==> Next(run[i - 1], run[i], vars, f) || Explains(run[i - 1], run[i], vars, f)
  }

  // Some literal the listener has been told about gets to the root level.
  ghost predicate Moves(a: State, b: State, vars: set<nat>, f: Formula) {
    Explains(a, b, vars, f) && exists i: nat :: i < a.notified && Moved(a.t, b.t, vars, i)
  }

  // The lists agree as long as no explanation does that, and not after the first one that does.
  lemma {:induction false} ExplainedRunMirrors(run: seq<State>, vars: set<nat>, f: Formula, n: nat)
    requires ExplainedRun(run, vars, f) && n < |run|
    requires forall i :: 0 < i < n ==> !Moves(run[i - 1], run[i], vars, f)
    ensures n == 0 || !Explains(run[n - 1], run[n], vars, f) ==> Mirror(run[n], vars, f)
    ensures n > 0 && Explains(run[n - 1], run[n], vars, f) ==>
      (Mirror(run[n], vars, f) <==> !Moves(run[n - 1], run[n], vars, f))
  {
    if n > 0 {
      ExplainedRunMirrors(run, vars, f, n - 1);
      assert n - 1 > 0 ==> !Moves(run[n - 2], run[n - 1], vars, f);
      if Explains(run[n - 1], run[n], vars, f) {
        MirrorIffNoneMoved(run[n - 1], run[n], vars, f);
      } else {
        StepKeeps(run[n - 1], run[n], vars, f);
      }
    }
  }

  // After every notification the list of each level holds exactly the observed
  // literals of that level's part of the trail that are not fixed.
  lemma NotifiedExactly(run: seq<State>, vars: set<nat>, f: Formula, n: nat)
    requires Run(run, vars, f) && 0 < n < |run| && Notifies(run[n - 1], run[n], vars)
    ensures var a := run[n];
      && Frames(a.t) && |a.levels| == |a.t.control| && a.levels[0] == a.fixed
      && Observed(a.t, vars, 0, EndOf(a.t, 0)) == []
      && forall k :: 1 <= k < |a.levels| ==> HoldsSegment(a, vars, k)
  {
    RunMirrors(run, vars, f, n);
    var a := run[n];
    RootSegment(a.t, vars, f, EndOf(a.t, 0));
    forall k | 1 <= k < |a.levels| ensures HoldsSegment(a, vars, k) {
      assert ListOk(a, vars, k);
      ObservedSelects(a.t, vars, a.t.control[k], EndOf(a.t, k));
      SelectedMeaning(a.t, vars, f, a.t.control[k], EndOf(a.t, k), a.levels[k]);
    }
  }

  // The list of level k holds, in trail order and once each, exactly the true
  // literals of its part of the trail that are observed and not fixed.
  ghost predicate HoldsSegment(a: State, vars: set<nat>, k: nat)
    requires k < |a.levels| && k < |a.t.control|
  {
    && NoDup(a.levels[k]) && Selected(a.t, vars, a.t.control[k], EndOf(a.t, k), a.levels[k])
    && (forall l: Lit :: l in a.levels[k] <==>
         IsTrue(a.t, l) && a.t.control[k] <= PosOf(a.t, l) < EndOf(a.t, k) && ToTell(a.t, vars, PosOf(a.t, l)))
  }

  // ---------- Backtracking without a notification ----------

  // The list of every level is complete.
  ghost predicate Exact(a: State, vars: set<nat>) {
    Frames(a.t) && |a.levels| == |a.t.control| && forall k :: 1 <= k < |a.levels| ==> ListExact(a, vars, k)
  }

  ghost predicate ListExact(a: State, vars: set<nat>, k: nat)
    requires Frames(a.t) && k < |a.levels| && k < |a.t.control|
  {
    a.levels[k] == Observed(a.t, vars, a.t.control[k], EndOf(a.t, k))
  }

  // Backtracking leaves all lists complete if and only if nothing observed was
  // kept behind the position up to which the listener now knows the trail.
  lemma ExactAfterBacktrack(a: State, b: State, vars: set<nat>, f: Formula, n: nat)
    requires Mirror(a, vars, f) && Backtracks(a, b, n) && n > 0
    ensures Exact(b, vars) <==> Observed(b.t, vars, b.notified, |b.t.lits|) == []
  {
    BacktrackKeeps(a, b, vars, f, n);
    assert b.notified == a.t.control[n + 1] && EndOf(b.t, n) == |b.t.lits|;
    forall k | 1 <= k < n ensures ListExact(b, vars, k) {
      assert ListOk(b, vars, k) && EndOf(b.t, k) == a.t.control[k + 1] <= b.notified;
    }
    assert ListOk(b, vars, n) && Min(b.notified, EndOf(b.t, n)) == b.notified;
    ObservedConcat(b.t, vars, b.t.control[n], b.notified, |b.t.lits|);
    assert ListExact(b, vars, n) <==> Observed(b.t, vars, b.notified, |b.t.lits|) == [];
  }

  // Seen from the state before: an observed literal of one of the levels that
  // stay, but not fixed, is at a position where level n + 1 had been opened.
  ghost predicate KeptOutOfOrder(t: Trail, vars: set<nat>, n: nat, i: nat) {
    n + 1 < |t.control| && t.control[n + 1] <= i < |t.lits| && Var(t.lits[i]) in vars && 1 <= LevelOf(t, t.lits[i]) <= n
  }

  lemma {:induction false} ObservedEmpty(t: Trail, vars: set<nat>, i: nat, j: nat)
    requires i <= j <= |t.lits|
    ensures Observed(t, vars, i, j) == [] <==> forall k: nat :: k < j ==> !Missed(t, vars, k, i)
    decreases j
  {
    if i < j {
      ObservedEmpty(t, vars, i, j - 1);
      assert Observed(t, vars, i, j) == [] <==> Observed(t, vars, i, j - 1) == [] && !Missed(t, vars, j - 1, i);
    }
  }

  lemma MissedIffKept(a: State, b: State, vars: set<nat>, f: Formula, n: nat)
    requires Mirror(a, vars, f) && Backtracks(a, b, n)
    ensures Exact(b, vars) <==> forall i :: !KeptOutOfOrder(a.t, vars, n, i)
  {
    var base := a.t.control[n + 1];
    BacktrackKeeps(a, b, vars, f, n);
    if n == 0 { return; }
    ExactAfterBacktrack(a, b, vars, f, n);
    assert b.notified == base;
    ObservedEmpty(b.t, vars, base, |b.t.lits|);
    forall i | KeptOutOfOrder(a.t, vars, n, i) ensures Missed(b.t, vars, Rank(a.t, i, n), base) {
      KeptIsMissed(a.t, b.t, vars, f, n, i);
    }
    forall k: nat | Missed(b.t, vars, k, base) ensures exists i :: KeptOutOfOrder(a.t, vars, n, i) {
      var i := MissedIsKept(a.t, b.t, vars, f, n, k);
    }
    if forall i :: !KeptOutOfOrder(a.t, vars, n, i) {
      assert forall k: nat :: !Missed(b.t, vars, k, base);
    } else {
      var i :| KeptOutOfOrder(a.t, vars, n, i);
      assert Missed(b.t, vars, Rank(a.t, i, n), base);
    }
  }

  lemma KeptIsMissed(t: Trail, t': Trail, vars: set<nat>, f: Formula, n: nat, i: nat)
    requires Valid(t, f) && Backtracked(t, n, t') && KeptOutOfOrder(t, vars, n, i)
    ensures Missed(t', vars, Rank(t, i, n), t.control[n + 1])
  {
    BacktrackCorrect(t, n, t', f);
    PrefixKept(t, t.control[n + 1], n, f);
    RankPosition(t, i, n);
    RankMonotone(t, t.control[n + 1], i, n);
  }

  lemma MissedIsKept(t: Trail, t': Trail, vars: set<nat>, f: Formula, n: nat, k: nat) returns (i: nat)
    requires Valid(t, f) && Backtracked(t, n, t') && n + 1 < |t.control|
    requires Missed(t', vars, k, t.control[n + 1])
    ensures KeptOutOfOrder(t, vars, n, i)
  {
    BacktrackCorrect(t, n, t', f);
    assert t.lits[..|t.lits|] == t.lits;
    i := RankInverse(t, |t.lits|, k, n);
    RankPosition(t, i, n);
    if i < t.control[n + 1] { PrefixKept(t, i, n, f); }
  }

  // An observed literal behind the notified position.
  ghost predicate Missed(t: Trail, vars: set<nat>, k: nat, base: nat) {
    base <= k && ToTell(t, vars, k)
  }

  // A run in which a literal is missed: 3 is implied by (3, -1) on level 1
  // after level 2 has been opened, and is kept when the solver returns to level 1.
  function Known(): Formula { {[3, -1]} }

  function Decided(): Trail { Trail([1], map[1 := Info(1, 0, NoReason)], [0, 0]) }

  function Raised(): Trail { Push(Decided().(control := [0, 0, 1]), 2, 2, NoReason) }

  function Late(): Trail { Push(Raised(), 3, 1, Because([3, -1])) }

  function Returned(): Trail {
    Trail([1, 3], Late().info[3 := Info(1, 1, Because([3, -1]))], [0, 0])
  }

  lemma StagesValid()
    ensures Valid(Decided(), Known()) && Valid(Raised(), Known()) && Valid(Late(), Known())
  {
    var f := Known();
    assert EntryOk(Decided(), 0, f);
    OpenLevel(Decided(), f);
    assert Decided().control + [1] == [0, 0, 1];
    PushValid(Decided().(control := [0, 0, 1]), 2, 2, NoReason, f);
    assert Raised().lits == [1, 2];
    assert Entails(f, [3, -1]) by { assert [3, -1] in f; }
    assert Implies(Raised(), [3, -1], 3, 2, 1) by {
      assert -1 in [3, -1] && OnTrail(Raised(), Neg(-1), 2);
    }
    ImpliedEntry(Raised(), 3, [3, -1], 1, f);
    PushValid(Raised(), 3, 1, Because([3, -1]), f);
  }

  lemma LateRanks()
    ensures Kept(Late().lits, Late(), 1) == [1, 3] && Rank(Late(), 0, 1) == 0
    ensures Rank(Late(), 2, 1) == 1
  {
    var t := Late();
    assert t.lits == [1, 2, 3] && LevelOf(t, 1) == 1 && LevelOf(t, 2) == 2 && LevelOf(t, 3) == 1;
    assert t.lits[..0] == [] && t.lits[..3] == t.lits;
    KeptStep(t, 0, 1);
    KeptStep(t, 1, 1);
    KeptStep(t, 2, 1);
  }

  lemma ReturnedKeeps()
    ensures Backtracked(Late(), 1, Returned())
  {
    LateRanks();
    var t, t' := Late(), Returned();
    assert t.control[..2] == [0, 0];
    forall i {:trigger Rank(t, i, 1)} | 0 <= i < |t.lits| && Var(t.lits[i]) in t.info && LevelOf(t, t.lits[i]) <= 1
      ensures t'.info[Var(t.lits[i])].pos == Rank(t, i, 1)
    {
      assert i == 0 || i == 2;
    }
  }

  function Stages(): seq<State> {
    [State(Trail([], map[], [0]), 0, [[]], []),
     State(Trail([], map[], [0, 0]), 0, [[], []], []),
     State(Decided(), 0, [[], []], []),
     State(Decided(), 1, [[], [1]], []),
     State(Decided().(control := [0, 0, 1]), 1, [[], [1], []], []),
     State(Raised(), 1, [[], [1], []], []),
     State(Late(), 1, [[], [1], []], []),
     State(Returned(), 1, [[], [1]], [])]
  }

  lemma FirstStages(vars: set<nat>, run: seq<State>)
    requires vars == {1, 2, 3} && run == Stages()
    ensures Next(run[0], run[1], vars, Known()) && Next(run[1], run[2], vars, Known())
    ensures Next(run[2], run[3], vars, Known())
  {
    StagesValid();
    assert Opens(run[0], run[1]);
    assert Assigns(run[1], run[2], vars, 1, 1, NoReason);
    assert Observed(run[2].t, vars, 0, 0) == [] && Observed(run[2].t, vars, 0, 1) == [1];
    assert Notifies(run[2], run[3], vars);
  }

  lemma LastStages(vars: set<nat>, run: seq<State>)
    requires vars == {1, 2, 3} && run == Stages()
    ensures Next(run[3], run[4], vars, Known()) && Next(run[4], run[5], vars, Known())
    ensures Next(run[5], run[6], vars, Known())
  {
    StagesValid();
    assert Opens(run[3], run[4]);
    assert Assigns(run[4], run[5], vars, 2, 2, NoReason);
    assert Assigns(run[5], run[6], vars, 3, 1, Because([3, -1]));
  }

  lemma StagesRun(vars: set<nat>, run: seq<State>)
    requires vars == {1, 2, 3} && run == Stages()
    ensures Run(run, vars, Known()) && Backtracks(run[6], run[7], 1)
  {
    FirstStages(vars, run);
    LastStages(vars, run);
    ReturnedKeeps();
    assert Backtracks(run[6], run[7], 1);
    forall i | 0 < i < |run| ensures Next(run[i - 1], run[i], vars, Known()) {
      assert i in {1, 2, 3, 4, 5, 6, 7};
    }
  }

  lemma MissedRun(vars: set<nat>, run: seq<State>)
    requires vars == {1, 2, 3} && run == Stages()
    ensures Run(run, vars, Known()) && Backtracks(run[6], run[7], 1) && !Exact(run[7], vars)
  {
    StagesRun(vars, run);
    RunMirrors(run, vars, Known(), 6);
    MissedIffKept(run[6], run[7], vars, Known(), 1);
    assert KeptOutOfOrder(run[6].t, vars, 1, 2);
  }

  // The loop that notifies the listener.
  method NotifyAssignments(a: State, vars: set<nat>) returns (b: State)
    requires a.notified <= |a.t.lits| && a.levels != []
    ensures Notifies(a, b, vars)
    ensures a.levels[|a.levels| - 1] <= b.levels[|a.levels| - 1]
    ensures Selected(a.t, vars, a.notified, |a.t.lits|, b.levels[|a.levels| - 1][|a.levels[|a.levels| - 1]|..])
  {
    ObservedSelects(a.t, vars, a.notified, |a.t.lits|);
    b := a;
    var top := |a.levels| - 1;
    while b.notified < |a.t.lits|
      invariant a.notified <= b.notified <= |a.t.lits| && b.t == a.t && b.fixed == a.fixed
      invariant |b.levels| == |a.levels| && b.levels[..top] == a.levels[..top]
      invariant b.levels[top] == a.levels[top] + Observed(a.t, vars, a.notified, b.notified)
      decreases |a.t.lits| - b.notified
    {
      var l := a.t.lits[b.notified];
      b := b.(notified := b.notified + 1);
      if LevelOf(a.t, l) > 0 && Var(l) in vars {
        b := b.(levels := b.levels[top := b.levels[top] + [l]]);
      }
    }
    assert b.levels == b.levels[..top] + [b.levels[top]] && a.levels == a.levels[..top] + [a.levels[top]];
  }

  // The listener drops the lists above the new level.
  method NotifyBacktrack(levels: seq<seq<Lit>>, n: nat) returns (r: seq<seq<Lit>>)
    ensures r == if |levels| > n + 1 then levels[..n + 1] else levels
  {
    r := levels;
    while |r| > n + 1
      invariant |r| <= |levels| && r == levels[..|r|] && (|r| < |levels| ==> |r| >= n + 1)
      decreases |r|
    {
      r := r[..|r| - 1];
    }
  }
}
