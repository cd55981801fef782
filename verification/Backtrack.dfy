// Backtracking with out-of-order literals kept on the trail (src/backtrack.cpp).
module Backtrack {
  import opened Cnf
  import opened Trail

  // The literals up to a level, in trail order.
  function Kept(s: seq<Lit>, t: Trail, n: nat): seq<Lit> {
    if s == [] then []
    else
      var k := |s| - 1;
      Kept(s[..k], t, n) + if LevelOf(t, s[k]) <= n then [s[k]] else []
  }

  // The position of the i-th literal among those kept.
  function Rank(t: Trail, i: nat, n: nat): nat
    requires i <= |t.lits|
  {
    |Kept(t.lits[..i], t, n)|
  }

  lemma KeptStep(t: Trail, i: nat, n: nat)
    requires i < |t.lits|
    ensures Kept(t.lits[..i + 1], t, n) == Kept(t.lits[..i], t, n) + if LevelOf(t, t.lits[i]) <= n then [t.lits[i]]
      else []
  {
    assert t.lits[..i + 1][..i] == t.lits[..i];
  }

  lemma {:induction false} RankMonotone(t: Trail, i: nat, j: nat, n: nat)
    requires i <= j <= |t.lits|
    ensures Rank(t, i, n) <= Rank(t, j, n)
    ensures Kept(t.lits[..i], t, n) <= Kept(t.lits[..j], t, n)
    ensures i < j && LevelOf(t, t.lits[i]) <= n ==> Rank(t, i, n) < Rank(t, j, n)
    decreases j - i
  {
    if i < j {
      KeptStep(t, i, n);
      RankMonotone(t, i + 1, j, n);
    }
  }

  // The kept literal at old position i is at position Rank(i) of the new trail.
  lemma RankPosition(t: Trail, i: nat, n: nat)
    requires i < |t.lits| && LevelOf(t, t.lits[i]) <= n
    ensures Rank(t, i, n) < |Kept(t.lits, t, n)| && Kept(t.lits, t, n)[Rank(t, i, n)] == t.lits[i]
  {
    KeptStep(t, i, n);
    RankMonotone(t, i + 1, |t.lits|, n);
    assert t.lits[..|t.lits|] == t.lits;
  }

  // Every entry of the new trail comes from a kept literal of the old one.
  lemma {:induction false} RankInverse(t: Trail, j: nat, k: nat, n: nat) returns (i: nat)
    requires j <= |t.lits| && k < Rank(t, j, n)
    ensures i < j && LevelOf(t, t.lits[i]) <= n && Rank(t, i, n) == k
    decreases j
  {
    assert t.lits[..0] == [];
    KeptStep(t, j - 1, n);
    if k < Rank(t, j - 1, n) {
      i := RankInverse(t, j - 1, k, n);
    } else {
      i := j - 1;
    }
  }

  // Nothing is removed before level n + 1 was opened.
  lemma {:induction false} PrefixKept(t: Trail, i: nat, n: nat, f: Formula)
    requires Valid(t, f) && n < Height(t) && i <= t.control[n + 1]
    ensures Kept(t.lits[..i], t, n) == t.lits[..i] && Rank(t, i, n) == i
  {
    if i > 0 {
      PrefixKept(t, i - 1, n, f);
      KeptStep(t, i - 1, n);
      assert EntryOk(t, i - 1, f);
      assert t.lits[..i] == t.lits[..i - 1] + [t.lits[i - 1]];
    } else {
      assert t.lits[..0] == [];
    }
  }

  // The result of backtracking to level n.
  ghost predicate Backtracked(t: Trail, n: nat, t': Trail) {
    && n < |t.control| && t'.control == t.control[..n + 1] && t'.lits == Kept(t.lits, t, n)
    && t'.info.Keys == t.info.Keys
    && (forall v :: v in t.info ==> t'.info[v].level == t.info[v].level && t'.info[v].reason == t.info[v].reason)
    && (forall i {:trigger Rank(t, i, n)} ::
         0 <= i < |t.lits| && Var(t.lits[i]) in t.info && LevelOf(t, t.lits[i]) <= n ==>
          t'.info[Var(t.lits[i])].pos == Rank(t, i, n))
  }

  lemma KeptOnTrail(t: Trail, n: nat, t': Trail, f: Formula, k: Lit, i: nat)
    requires Valid(t, f) && Backtracked(t, n, t') && i <= |t.lits| && OnTrail(t, k, i)
    requires LevelOf(t, k) <= n
    ensures OnTrail(t', k, Rank(t, i, n)) && LevelOf(t', k) == LevelOf(t, k)
    ensures PosOf(t', k) == Rank(t, PosOf(t, k), n)
  {
    var p := PosOf(t, k);
    RankPosition(t, p, n);
    RankMonotone(t, p, i, n);
  }

  lemma KeptEntry(t: Trail, n: nat, t': Trail, f: Formula, k: nat)
    requires Valid(t, f) && Backtracked(t, n, t') && n < Height(t) && k < |t'.lits|
    ensures Frames(t') && EntryOk(t', k, f)
  {
    assert t.lits[..|t.lits|] == t.lits;
    var i := RankInverse(t, |t.lits|, k, n);
    RankPosition(t, i, n);
    assert EntryOk(t, i, f);
    KeptFrames(t, n, t', f);
    var v := t.info[Var(t.lits[i])];
    KeptPosition(t, n, f, v.level, i);
    if v.level > 0 && v.reason.Because? {
      KeptReason(t, n, t', f, i, v.reason.clause);
    }
    if v.level > 0 && v.reason.External? {
      KeptAbove(t, n, t', f, i, v.level);
    }
  }

  // What is kept before a literal was before it.
  lemma KeptAbove(t: Trail, n: nat, t': Trail, f: Formula, i: nat, lev: nat)
    requires Valid(t, f) && Backtracked(t, n, t') && i < |t.lits| && NoneAbove(t, i, lev)
    ensures NoneAbove(t', Rank(t, i, n), lev)
  {
    forall k | 0 <= k < Rank(t, i, n) && k < |t'.lits| ensures LevelOf(t', t'.lits[k]) <= lev {
      var j := RankInverse(t, i, k, n);
      RankPosition(t, j, n);
      assert EntryOk(t, j, f);
    }
  }

  // Positions before the opened level do not change.
  lemma KeptPosition(t: Trail, n: nat, f: Formula, lev: nat, i: nat)
    requires Valid(t, f) && lev <= n < Height(t) && t.control[lev] <= i < |t.lits|
    ensures t.control[lev] <= Rank(t, i, n) && (i == t.control[lev] ==> Rank(t, i, n) == i)
  {
    PrefixKept(t, t.control[lev], n, f);
    RankMonotone(t, t.control[lev], i, n);
  }

  lemma KeptFrames(t: Trail, n: nat, t': Trail, f: Formula)
    requires Valid(t, f) && Backtracked(t, n, t') && n < Height(t)
    ensures Frames(t')
  {
    KeptLength(t, n, f);
    forall a, b | 0 <= a <= b < |t'.control| ensures t'.control[a] <= t'.control[b] <= |t'.lits| {
      assert t'.control[a] == t.control[a] && t'.control[b] == t.control[b] <= t.control[n + 1];
    }
  }

  lemma KeptLength(t: Trail, n: nat, f: Formula)
    requires Valid(t, f) && n < Height(t)
    ensures t.control[n + 1] <= |Kept(t.lits, t, n)|
  {
    var base := t.control[n + 1];
    PrefixKept(t, base, n, f);
    RankMonotone(t, base, |t.lits|, n);
    assert t.lits[..|t.lits|] == t.lits;
  }

  lemma KeptReason(t: Trail, n: nat, t': Trail, f: Formula, i: nat, c: Clause)
    requires Valid(t, f) && Backtracked(t, n, t') && i < |t.lits| && LevelOf(t, t.lits[i]) <= n
    requires Implies(t, c, t.lits[i], i, LevelOf(t, t.lits[i]))
    ensures Implies(t', c, t.lits[i], Rank(t, i, n), LevelOf(t, t.lits[i]))
  {
    forall k | k in c && k != t.lits[i] ensures OnTrail(t', Neg(k), Rank(t, i, n)) && LevelOf(t', k) == LevelOf(t, k) {
      KeptOnTrail(t, n, t', f, Neg(k), i);
    }
  }

  // Backtracking keeps the invariant and exactly the literals up to the level.
  lemma BacktrackCorrect(t: Trail, n: nat, t': Trail, f: Formula)
    requires Valid(t, f) && Backtracked(t, n, t') && n < Height(t)
    ensures Valid(t', f)
    ensures forall l: Lit :: IsTrue(t', l) <==> IsTrue(t, l) && LevelOf(t, l) <= n
    ensures forall l: Lit :: LevelOf(t', l) == LevelOf(t, l)
  {
    KeptFrames(t, n, t', f);
    forall k | 0 <= k < |t'.lits| ensures EntryOk(t', k, f) {
      KeptEntry(t, n, t', f, k);
    }
    assert t.lits[..|t.lits|] == t.lits;
    forall l: Lit ensures IsTrue(t', l) <==> IsTrue(t, l) && LevelOf(t, l) <= n {
      if IsTrue(t, l) && LevelOf(t, l) <= n {
        KeptOnTrail(t, n, t', f, l, |t.lits|);
      }
      if IsTrue(t', l) {
        var i := RankInverse(t, |t.lits|, PosOf(t', l), n);
        RankPosition(t, i, n);
        assert EntryOk(t, i, f);
      }
    }
  }

  // Move the literals of the trail from position i on that are kept to position j.
  method Compact(t: Trail, n: nat, ghost f: Formula) returns (t': Trail)
    requires Valid(t, f) && n < Height(t)
    ensures Backtracked(t, n, t')
  {
    var base := t.control[n + 1];
    var lits: seq<Lit>, info: map<nat, Info> := t.lits, t.info;
    var i: nat, j: nat := base, base;
    PrefixKept(t, base, n, f);
    PositionsBefore(t, base, n, f);
    ghost var done := Kept(t.lits[..base], t, n);
    while i < |t.lits|
      invariant i <= |t.lits| && Partial(t, n, lits, i, j, done) && Moved(t, n, info, i)
    {
      assert EntryOk(t, i, f);
      lits, info, j, done := CompactStep(t, n, lits, info, i, j, done, f);
      i := i + 1;
    }
    assert t.lits[..|t.lits|] == t.lits;
    assert lits[..j] == done;
    t' := Trail(lits[..j], info, t.control[..n + 1]);
  }

  // The first i literals have been visited and those kept are the first j.
  ghost predicate Partial(t: Trail, n: nat, lits: seq<Lit>, i: nat, j: nat, done: seq<Lit>) {
    && j <= i <= |t.lits| == |lits| && j == |done| && done == Kept(t.lits[..i], t, n)
    && (forall k :: 0 <= k < j ==> lits[k] == done[k])
    && (forall k :: i <= k < |lits| ==> lits[k] == t.lits[k])
  }

  method CompactStep(t: Trail, n: nat, lits: seq<Lit>, info: map<nat, Info>, i: nat, j: nat, ghost done: seq<Lit>,
        ghost f: Formula)
    returns (lits': seq<Lit>, info': map<nat, Info>, j': nat, ghost done': seq<Lit>)
    requires Valid(t, f) && i < |t.lits| && Partial(t, n, lits, i, j, done)
    requires Moved(t, n, info, i) && Var(t.lits[i]) in t.info
    ensures Partial(t, n, lits', i + 1, j', done') && Moved(t, n, info', i + 1)
  {
    var lit := lits[i];
    KeptStep(t, i, n);
    lits', info', j', done' := lits, info, j, done;
    if info[Var(lit)].level <= n {
      MoveOne(t, n, info, i, f);
      lits', info' := lits[j := lit], info[Var(lit) := info[Var(lit)].(pos := j)];
      j', done' := j + 1, done + [lit];
    } else {
      SkipOne(t, n, info, i);
    }
  }

  // Levels and reasons are unchanged and the kept literals among the first i have their new positions.
  ghost predicate Moved(t: Trail, n: nat, info: map<nat, Info>, i: nat) {
    && info.Keys == t.info.Keys
    && (forall v :: v in t.info ==> info[v].level == t.info[v].level && info[v].reason == t.info[v].reason)
    && (forall k {:trigger Rank(t, k, n)} ::
         0 <= k < i && k < |t.lits| && Var(t.lits[k]) in t.info && LevelOf(t, t.lits[k]) <= n ==>
          info[Var(t.lits[k])].pos == Rank(t, k, n))
  }

  lemma SkipOne(t: Trail, n: nat, info: map<nat, Info>, i: nat)
    requires i < |t.lits| && Moved(t, n, info, i) && LevelOf(t, t.lits[i]) > n
    ensures Moved(t, n, info, i + 1)
  {
  }

  lemma MoveOne(t: Trail, n: nat, info: map<nat, Info>, i: nat, f: Formula)
    requires Valid(t, f) && i < |t.lits| && Moved(t, n, info, i) && Var(t.lits[i]) in info
    ensures var v := Var(t.lits[i]); Moved(t, n, info[v := info[v].(pos := Rank(t, i, n))], i + 1)
  {
    DistinctVars(t, i, f);
  }

  lemma DistinctVars(t: Trail, i: nat, f: Formula)
    requires Valid(t, f) && i < |t.lits|
    ensures forall k :: 0 <= k < i ==> Var(t.lits[k]) != Var(t.lits[i]) && Var(t.lits[k]) in t.info
  {
    forall k | 0 <= k < i ensures Var(t.lits[k]) != Var(t.lits[i]) && Var(t.lits[k]) in t.info {
      assert EntryOk(t, k, f) && EntryOk(t, i, f);
    }
  }

  lemma PositionsBefore(t: Trail, base: nat, n: nat, f: Formula)
    requires Valid(t, f) && n < Height(t) && base == t.control[n + 1]
    ensures forall k {:trigger Rank(t, k, n)} :: 0 <= k < base ==>
      Var(t.lits[k]) in t.info && t.info[Var(t.lits[k])].pos == Rank(t, k, n)
  {
    forall k | 0 <= k < base ensures Var(t.lits[k]) in t.info && t.info[Var(t.lits[k])].pos == Rank(t, k, n) {
      assert EntryOk(t, k, f);
      PrefixKept(t, k, n, f);
    }
  }

  method BacktrackTo(s: Search, n: nat)
    requires Valid(s.t, s.formula) && n <= Height(s.t)
    modifies s`t
    ensures Valid(s.t, s.formula) && Height(s.t) == n && Backtracked(old(s.t), n, s.t)
    ensures forall l: Lit :: IsTrue(s.t, l) <==> IsTrue(old(s.t), l) && LevelOf(old(s.t), l) <= n
    ensures forall l: Lit :: LevelOf(s.t, l) == LevelOf(old(s.t), l)
  {
    if n == Height(s.t) {
      AllKept(s.t, s.formula);
      return;
    }
    var t := Compact(s.t, n, s.formula);
    BacktrackCorrect(s.t, n, t, s.formula);
    s.t := t;
  }

  lemma {:induction false} AllKeptPrefix(t: Trail, i: nat, f: Formula)
    requires Valid(t, f) && i <= |t.lits|
    ensures Kept(t.lits[..i], t, Height(t)) == t.lits[..i]
  {
    if i > 0 {
      AllKeptPrefix(t, i - 1, f);
      KeptStep(t, i - 1, Height(t));
      assert EntryOk(t, i - 1, f);
      assert t.lits[..i] == t.lits[..i - 1] + [t.lits[i - 1]];
    } else {
      assert t.lits[..0] == [];
    }
  }

  // Backtracking to the current level changes nothing.
  lemma AllKept(t: Trail, f: Formula)
    requires Valid(t, f)
    ensures Backtracked(t, Height(t), t)
    ensures forall l: Lit :: IsTrue(t, l) ==> LevelOf(t, l) <= Height(t)
  {
    AllKeptPrefix(t, |t.lits|, f);
    assert t.lits[..|t.lits|] == t.lits;
    assert t.control[..Height(t) + 1] == t.control;
    forall i {:trigger Rank(t, i, Height(t))} | 0 <= i < |t.lits|
      ensures EntryOk(t, i, f) && Rank(t, i, Height(t)) == i
    {
      AllKeptPrefix(t, i, f);
    }
    forall l: Lit | IsTrue(t, l) ensures LevelOf(t, l) <= Height(t) {
      assert EntryOk(t, PosOf(t, l), f);
    }
  }
}
