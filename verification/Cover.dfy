// Covered clause elimination (src/cover.cpp): a candidate clause is extended by
// asymmetric and covered literals, all assigned false, until it is subsumed or
// blocked.  Only the covered literals are saved for repairing models.
module Cover {
  import opened Cnf
  import opened Extension
  import opened Resolution
  import opened Watching
  import opened CoverWatches

  // ---------- Specification ----------

  ghost predicate Falsifies(m: Model, ls: seq<Lit>) {
    forall i :: 0 <= i < |ls| ==> !True(m, ls[i])
  }

  // In models of the other clauses the added literals are false if the covered ones are.
  ghost predicate Follows(b: Base, covered: Clause, added: seq<Lit>) {
    forall m: Model :: b.Live(m) && Falsifies(m, covered) ==> Falsifies(m, added)
  }

  ghost predicate AlwaysSat(b: Base, c: Clause) {
    forall m: Model :: b.Live(m) ==> Sat(m, c)
  }

  // Replaying the entries turns every model of the other clauses into one of the original clause as well.
  ghost predicate RepairsAll(b: Base, es: seq<Entry>, original: Clause) {
    forall m: Model :: b.Live(m) ==> b.Live(Replay(es, m)) && Sat(Replay(es, m), original)
  }

  // Replaying the entries so far turns models of the covered clause into models of the original one.
  ghost predicate Repairs(b: Base, es: seq<Entry>, covered: Clause, original: Clause) {
    forall m: Model :: b.Live(m) && Sat(m, covered) ==> b.Live(Replay(es, m)) && Sat(Replay(es, m), original)
  }

  lemma FalseInModel(b: Base, m: Model, l: Lit, added: seq<Lit>)
    requires b.Live(m) && Falsifies(m, added) && False(l, b.units, Lits(added))
    ensures !True(m, l)
  {
    if l in Lits(added) {
      var i :| 0 <= i < |added| && added[i] == l;
    }
  }

  lemma HoldsInModel(b: Base, m: Model, l: Lit, added: seq<Lit>)
    requires b.Live(m) && Falsifies(m, added) && Holds(l, b.units, Lits(added))
    ensures True(m, l)
  {
    if Neg(l) in Lits(added) {
      var i :| 0 <= i < |added| && added[i] == Neg(l);
    }
  }

  // A live clause with all literals but one false: the last one is true, its negation is added.
  lemma AsymmetricStep(b: Base, covered: Clause, added: seq<Lit>, d: nat, other: Lit)
    requires Follows(b, covered, added) && d < |b.clauses| && d !in b.garbage
    requires other in b.clauses[d]
    requires forall l :: l in b.clauses[d] && l != other ==> False(l, b.units, Lits(added))
    ensures Follows(b, covered, added + [Neg(other)])
  {
    forall m: Model | b.Live(m) && Falsifies(m, covered) ensures Falsifies(m, added + [Neg(other)]) {
      var l :| l in b.clauses[d] && True(m, l);
      if l != other {
        FalseInModel(b, m, l, added);
      }
    }
  }

  // A live clause with all literals false: every model satisfies the covered clause.
  lemma Subsumed(b: Base, covered: Clause, added: seq<Lit>, d: nat, m: Model)
    requires Follows(b, covered, added) && d < |b.clauses| && d !in b.garbage && b.Live(m)
    requires forall l :: l in b.clauses[d] ==> False(l, b.units, Lits(added))
    ensures Sat(m, covered)
  {
    if Falsifies(m, covered) {
      var l :| l in b.clauses[d] && True(m, l);
      FalseInModel(b, m, l, added);
    } else {
      var i :| 0 <= i < |covered| && True(m, covered[i]);
      assert covered[i] in covered;
    }
  }

  // Clause d, which has Neg(lit), is satisfied by another literal than Neg(lit).
  ghost predicate Blocked(d: Clause, lit: Lit, units: set<Lit>, added: set<Lit>) {
    exists l :: l in d && l != Neg(lit) && Holds(l, units, added)
  }

  // Every resolution candidate on lit is blocked or contains all literals of inter.
  ghost predicate Candidates(b: Base, lit: Lit, added: set<Lit>, inter: seq<Lit>) {
    forall d :: 0 <= d < |b.clauses| && d !in b.garbage && Neg(lit) in b.clauses[d] ==>
      Blocked(b.clauses[d], lit, b.units, added) || forall l :: l in inter ==> l in b.clauses[d]
  }

  // Forcing lit repairs a model that satisfies one of the literals common to
  // all resolution candidates that are not blocked.
  lemma ForceCovered(b: Base, covered: Clause, added: seq<Lit>, lit: Lit, inter: seq<Lit>, m: Model)
    requires Follows(b, covered, added) && lit in covered && lit in added && b.Live(m)
    requires !Sat(m, covered)
    requires lit !in b.units && Neg(lit) !in b.units && Neg(lit) !in added
    requires Candidates(b, lit, Lits(added), inter)
    requires (forall d :: 0 <= d < |b.clauses| && d !in b.garbage && Neg(lit) in b.clauses[d] ==>
      Blocked(b.clauses[d], lit, b.units, Lits(added)))
      || exists l :: l in inter && l != Neg(lit) && True(m, l)
    ensures b.Live(Force(m, lit)) && Sat(Force(m, lit), covered)
  {
    assert Falsifies(m, covered) by {
      forall i | 0 <= i < |covered| ensures !True(m, covered[i]) { assert covered[i] in covered; }
    }
    forall d | 0 <= d < |b.clauses| && d !in b.garbage ensures Sat(Force(m, lit), b.clauses[d]) {
      var c := b.clauses[d];
      if Neg(lit) in c {
        if Blocked(c, lit, b.units, Lits(added)) {
          var l :| l in c && l != Neg(lit) && Holds(l, b.units, Lits(added));
          HoldsInModel(b, m, l, added);
          assert True(Force(m, lit), l);
        } else {
          var l :| l in inter && l != Neg(lit) && True(m, l);
          assert l in c && True(Force(m, lit), l);
        }
      } else {
        var l :| l in c && True(m, l);
        assert True(Force(m, lit), l);
      }
    }
  }

  lemma CoveredStep(b: Base, es: seq<Entry>, covered: Clause, added: seq<Lit>, original: Clause, lit: Lit,
        inter: seq<Lit>, k: Clause)
    requires Repairs(b, es, covered, original) && Follows(b, covered, added) && lit in covered
    requires lit in added
    requires forall l :: l in k <==> l in covered
    requires lit !in b.units && Neg(lit) !in b.units && Neg(lit) !in added && Neg(lit) !in inter
    requires Candidates(b, lit, Lits(added), inter)
    ensures Repairs(b, es + [Entry([lit], k)], covered + inter, original)
    ensures Follows(b, covered + inter, added + inter)
  {
    var e := Entry([lit], k);
    forall m: Model | b.Live(m) && Sat(m, covered + inter)
      ensures b.Live(Replay(es + [e], m)) && Sat(Replay(es + [e], m), original)
    {
      ReplayConcat(es, [e], m);
      ReplayOne(e, m);
      assert Sat(m, k) <==> Sat(m, covered);
      if !Sat(m, covered) {
        var l :| l in covered + inter && True(m, l);
        assert l in inter;
        ForceCovered(b, covered, added, lit, inter, m);
      }
    }
    forall m: Model | b.Live(m) && Falsifies(m, covered + inter) ensures Falsifies(m, added + inter) {
      assert Falsifies(m, covered) by {
        assert forall i :: 0 <= i < |covered| ==> (covered + inter)[i] == covered[i];
      }
      assert forall i :: 0 <= i < |inter| ==> (covered + inter)[|covered| + i] == inter[i];
    }
  }

  lemma BlockedStep(b: Base, es: seq<Entry>, covered: Clause, added: seq<Lit>, original: Clause, lit: Lit, k: Clause,
        m: Model)
    requires forall l :: l in k <==> l in covered
    requires Repairs(b, es, covered, original) && Follows(b, covered, added) && lit in covered
    requires lit in added && b.Live(m)
    requires lit !in b.units && Neg(lit) !in b.units && Neg(lit) !in added
    requires forall d :: 0 <= d < |b.clauses| && d !in b.garbage && Neg(lit) in b.clauses[d] ==>
      Blocked(b.clauses[d], lit, b.units, Lits(added))
    ensures b.Live(Replay(es + [Entry([lit], k)], m))
    ensures Sat(Replay(es + [Entry([lit], k)], m), original)
  {
    var e := Entry([lit], k);
    ReplayConcat(es, [e], m);
    ReplayOne(e, m);
    assert Sat(m, k) <==> Sat(m, covered);
    if !Sat(m, covered) {
      ForceCovered(b, covered, added, lit, [], m);
    }
  }

  lemma ReplayOne(e: Entry, m: Model)
    requires |e.wit| == 1
    ensures Replay([e], m) == if Sat(m, e.clause) then m else Force(m, e.wit[0])
  {
    assert [e][..0] == [] && e.wit == [e.wit[0]];
    ForceOne(m, e.wit[0]);
  }

  // ---------- Covered literals: intersecting the resolution candidates ----------

  method IsBlocked(d: Clause, lit: Lit, units: set<Lit>, added: set<Lit>) returns (blocked: bool)
    requires Consistent(units) && Consistent(added)
    requires forall u :: u in units ==> u !in added && Neg(u) !in added
    ensures blocked == Blocked(d, lit, units, added)
  {
    for i := 0 to |d|
      invariant forall k :: 0 <= k < i && d[k] != Neg(lit) ==> !Holds(d[k], units, added)
    {
      if d[i] != Neg(lit) && Holds(d[i], units, added) { return true; }
    }
    return false;
  }

  // A literal of a candidate that could be covered.
  predicate Coverable(l: Lit, d: Clause, lit: Lit, units: set<Lit>, added: set<Lit>) {
    l in d && l != Neg(lit) && !False(l, units, added)
  }

  // Copy and mark the literals of the first candidate.
  method FirstCandidate(d: Clause, lit: Lit, units: set<Lit>, added: set<Lit>)
    returns (inter: seq<Lit>, marks: set<Lit>)
    requires NoDup(d)
    ensures NoDup(inter) && marks == Lits(inter)
    ensures forall l :: l in inter <==> Coverable(l, d, lit, units, added)
  {
    inter, marks := [], {};
    for i := 0 to |d|
      invariant NoDup(inter) && marks == Lits(inter)
      invariant forall k :: 0 <= k < |inter| ==> Coverable(inter[k], d, lit, units, added)
      invariant forall k :: 0 <= k < i && Coverable(d[k], d, lit, units, added) ==> d[k] in inter
      invariant forall k :: i <= k < |d| ==> d[k] !in inter
    {
      if d[i] != Neg(lit) && !False(d[i], units, added) {
        LitsSnoc(inter, d[i]);
        inter, marks := inter + [d[i]], marks + {d[i]};
      }
    }
  }

  // Unmark the literals of the next candidate; those still marked leave the
  // intersection, the others stay and are marked again.
  method NextCandidate(d: Clause, lit: Lit, units: set<Lit>, added: set<Lit>, inter: seq<Lit>, marks: set<Lit>)
    returns (inter': seq<Lit>, marks': set<Lit>)
    requires NoDup(inter) && marks == Lits(inter)
    ensures NoDup(inter') && marks' == Lits(inter')
    ensures forall l :: l in inter' <==> l in inter && Coverable(l, d, lit, units, added)
  {
    marks' := marks;
    for i := 0 to |d|
      invariant forall l :: l in marks' <==> l in marks && !exists k ::
        0 <= k < i && d[k] == l && Coverable(l, d, lit, units, added)
    {
      if d[i] != Neg(lit) && !False(d[i], units, added) && d[i] in marks' {
        marks' := marks' - {d[i]};
      }
    }
    assert forall l :: l in marks' <==> l in inter && !Coverable(l, d, lit, units, added);
    inter' := [];
    ghost var dropped := marks';
    for k := 0 to |inter|
      invariant NoDup(inter') && forall l :: l in inter' <==> l in inter[..k] && l !in dropped
      invariant forall l :: l in marks' <==> l in inter' || (l in dropped && l !in inter[..k])
      invariant forall j :: k <= j < |inter| ==> inter[j] !in inter[..k]
    {
      var other := inter[k];
      assert inter[..k + 1] == inter[..k] + [other];
      if other in marks' {
        marks' := marks' - {other};
      } else {
        marks' := marks' + {other};
        inter' := inter' + [other];
      }
    }
    assert inter[..|inter|] == inter;
  }

  // A live clause of the list that is not blocked.
  ghost predicate Candidate(b: Base, d: nat, lit: Lit, added: set<Lit>) {
    d < |b.clauses| && d !in b.garbage && !Blocked(b.clauses[d], lit, b.units, added)
  }

  ghost predicate InAll(b: Base, os: seq<nat>, lit: Lit, added: set<Lit>, l: Lit) {
    forall k :: 0 <= k < |os| && Candidate(b, os[k], lit, added) ==> Coverable(l, b.clauses[os[k]], lit, b.units, added)
  }

  ghost predicate NoCandidate(b: Base, os: seq<nat>, lit: Lit, added: set<Lit>) {
    forall k :: 0 <= k < |os| ==> !Candidate(b, os[k], lit, added)
  }

  // A live clause with the negation of lit that is not blocked, in the data base rather than in a list.
  ghost predicate IsCandidate(b: Base, d: nat, lit: Lit, added: set<Lit>) {
    Candidate(b, d, lit, added) && Neg(lit) in b.clauses[d]
  }

  ghost predicate Common(b: Base, lit: Lit, added: set<Lit>, l: Lit) {
    forall d: nat :: IsCandidate(b, d, lit, added) ==> Coverable(l, b.clauses[d], lit, b.units, added)
  }

  // There are candidates, and no literal can be covered.
  ghost predicate Resists(b: Base, lit: Lit, added: set<Lit>) {
    (exists d: nat :: IsCandidate(b, d, lit, added)) && forall l: Lit :: !Common(b, lit, added, l)
  }

  lemma ListResists(b: Base, os: seq<nat>, lit: Lit, added: set<Lit>)
    requires AllOccurrences(b, Neg(lit), os) && !NoCandidate(b, os, lit, added)
    requires forall l: Lit :: !InAll(b, os, lit, added, l)
    ensures Resists(b, lit, added)
  {
    var k :| 0 <= k < |os| && Candidate(b, os[k], lit, added);
    assert IsCandidate(b, os[k], lit, added);
    forall l: Lit ensures !Common(b, lit, added, l) {
      assert !InAll(b, os, lit, added, l);
      var i :| 0 <= i < |os| && Candidate(b, os[i], lit, added) && !Coverable(l, b.clauses[os[i]], lit, b.units, added);
      assert IsCandidate(b, os[i], lit, added);
    }
  }

  // Nothing can be covered by the literals given that are not frozen.
  ghost predicate CoveredStuck(b: Base, frozen: set<nat>, covered: seq<Lit>, added: set<Lit>) {
    forall i :: 0 <= i < |covered| ==> Var(covered[i]) in frozen || Resists(b, covered[i], added)
  }

  // The exact intersection of the candidates, or that there is none; a candidate
  // that makes the intersection empty is moved to the front of the list.
  method Intersection(b: Base, os: seq<nat>, lit: Lit, added: set<Lit>)
    returns (none: bool, inter: seq<Lit>, os': seq<nat>)
    requires b.Valid() && Occurrences(b, Neg(lit), os)
    requires Consistent(added) && forall u :: u in b.units ==> u !in added && Neg(u) !in added
    ensures multiset(os') == multiset(os)
    ensures none == NoCandidate(b, os, lit, added) && NoDup(inter)
    ensures none ==> inter == []
    ensures !none ==> forall l: Lit :: l in inter <==> InAll(b, os, lit, added, l)
  {
    none, inter, os' := true, [], os;
    var marks := {};
    var i := 0;
    while i < |os|
      invariant 0 <= i <= |os| && none == NoCandidate(b, os[..i], lit, added) && NoDup(inter)
      invariant none ==> inter == []
      invariant !none ==> marks == Lits(inter) && forall l: Lit :: l in inter <==> InAll(b, os[..i], lit, added, l)
    {
      var d := os[i];
      assert os[..i + 1] == os[..i] + [d];
      if d !in b.garbage {
        assert NoDup(b.clauses[d]);
        var blocked := IsBlocked(b.clauses[d], lit, b.units, added);
        if !blocked && none {
          none := false;
          inter, marks := FirstCandidate(b.clauses[d], lit, b.units, added);
          InAllFirst(b, os, i, lit, added);
        } else if !blocked {
          InAllNext(b, os, i, lit, added);
          inter, marks := NextCandidate(b.clauses[d], lit, b.units, added, inter, marks);
          if inter == [] {
            InAllEmpty(b, os, i + 1, lit, added);
            os' := MoveToFront(os, i);
            return;
          }
        } else {
          InAllSkip(b, os, i, lit, added);
        }
      } else {
        InAllSkip(b, os, i, lit, added);
      }
      i := i + 1;
    }
    assert os[..i] == os;
  }

  lemma InAllFirst(b: Base, os: seq<nat>, i: nat, lit: Lit, added: set<Lit>)
    requires i < |os| && NoCandidate(b, os[..i], lit, added) && Candidate(b, os[i], lit, added)
    ensures !NoCandidate(b, os[..i + 1], lit, added)
    ensures forall l: Lit :: InAll(b, os[..i + 1], lit, added, l) <==>
      Coverable(l, b.clauses[os[i]], lit, b.units, added)
  {
    assert os[..i + 1][i] == os[i];
    assert forall k :: 0 <= k < i ==> os[..i + 1][k] == os[..i][k];
  }

  lemma InAllNext(b: Base, os: seq<nat>, i: nat, lit: Lit, added: set<Lit>)
    requires i < |os| && Candidate(b, os[i], lit, added)
    ensures !NoCandidate(b, os[..i + 1], lit, added)
    ensures forall l: Lit :: InAll(b, os[..i + 1], lit, added, l) <==>
      InAll(b, os[..i], lit, added, l) && Coverable(l, b.clauses[os[i]], lit, b.units, added)
  {
    assert os[..i + 1][i] == os[i];
    assert forall k :: 0 <= k < i ==> os[..i + 1][k] == os[..i][k];
  }

  lemma InAllSkip(b: Base, os: seq<nat>, i: nat, lit: Lit, added: set<Lit>)
    requires i < |os| && !Candidate(b, os[i], lit, added)
    ensures NoCandidate(b, os[..i + 1], lit, added) == NoCandidate(b, os[..i], lit, added)
    ensures forall l: Lit :: InAll(b, os[..i + 1], lit, added, l) <==> InAll(b, os[..i], lit, added, l)
  {
    assert os[..i + 1][i] == os[i];
    assert forall k :: 0 <= k < i ==> os[..i + 1][k] == os[..i][k];
  }

  lemma InAllEmpty(b: Base, os: seq<nat>, i: nat, lit: Lit, added: set<Lit>)
    requires i <= |os| && !NoCandidate(b, os[..i], lit, added)
    requires forall l: Lit :: !InAll(b, os[..i], lit, added, l)
    ensures !NoCandidate(b, os, lit, added) && forall l: Lit :: !InAll(b, os, lit, added, l)
  {
    assert forall k :: 0 <= k < i ==> os[..i][k] == os[k];
    forall l: Lit ensures !InAll(b, os, lit, added, l) {
      assert !InAll(b, os[..i], lit, added, l);
    }
  }

  method MoveToFront(os: seq<nat>, i: nat) returns (r: seq<nat>)
    requires i < |os|
    ensures r == [os[i]] + os[..i] + os[i + 1..] && multiset(r) == multiset(os)
  {
    r := os;
    var c, j := os[i], i;
    while j != 0
      invariant 0 <= j <= i && |r| == |os|
      invariant forall k :: 0 <= k <= j ==> r[k] == os[k]
      invariant forall k :: j < k <= i ==> r[k] == os[k - 1]
      invariant forall k :: i < k < |os| ==> r[k] == os[k]
    {
      r := r[j := r[j - 1]];
      j := j - 1;
    }
    r := r[0 := c];
    assert r == [os[i]] + os[..i] + os[i + 1..];
    assert os == os[..i] + [os[i]] + os[i + 1..];
  }

  // ---------- Covering one clause ----------

  // The literals added so far are distinct, consistent and unassigned at the root level.
  ghost predicate Assumed(units: set<Lit>, added: seq<Lit>, assumed: set<Lit>) {
    && assumed == Lits(added) && NoDup(added) && Consistent(assumed)
    && forall u :: u in units ==> u !in assumed && Neg(u) !in assumed
  }

  lemma AssumeOne(units: set<Lit>, added: seq<Lit>, assumed: set<Lit>, l: Lit)
    requires Assumed(units, added, assumed) && Undecided(l, units, assumed)
    ensures Assumed(units, added + [l], assumed + {l})
  {
    LitsSnoc(added, l);
    assert Neg(Neg(l)) == l;
    forall k | k in assumed + {l} ensures Neg(k) !in assumed + {l} {
      assert Neg(k) == l ==> k == Neg(l);
    }
    forall u | u in units ensures u !in assumed + {l} && Neg(u) !in assumed + {l} {
      assert Neg(u) == l ==> u == Neg(l);
    }
  }

  // Distinct literals from a finite universe cannot be added forever.
  lemma AddedBound(added: seq<Lit>, universe: set<Lit>)
    requires NoDup(added) && forall i :: 0 <= i < |added| ==> added[i] in universe
    ensures |added| <= |universe|
  {
    NoDupSize(added);
    assert Lits(added) <= universe;
    assert |universe - Lits(added)| == |universe| - |Lits(added)|;
  }

  ghost predicate Listed(b: Base, occs: map<Lit, seq<nat>>, frozen: set<nat>) {
    && (forall l :: l in occs ==> Occurrences(b, l, occs[l]))
    && (forall l, d :: 0 <= d < |b.clauses| && d !in b.garbage && l in b.clauses[d] && Var(l) !in frozen ==>
         l in occs && d in occs[l])
  }

  lemma ListedWithout(b: Base, c: nat, occs: map<Lit, seq<nat>>, frozen: set<nat>)
    requires Listed(b, occs, frozen) && b.Valid() && c < |b.clauses|
    ensures Listed(Remove(b, c), occs, frozen) && Remove(b, c).Valid()
  {
    assert Remove(b, c).clauses == b.clauses;
    forall l | l in occs ensures Occurrences(Remove(b, c), l, occs[l]) {
      assert Occurrences(b, l, occs[l]);
    }
  }

  class Coveror {
    var db: Base
    var order: seq<Clause>            // literals in watch order
    var pos: seq<nat>                 // saved replacement positions
    var watches: map<Lit, seq<Watch>>
    var occs: map<Lit, seq<nat>>
    var frozen: set<nat>              // variables
    var pushed: seq<Entry>            // the extension stack of the solver
    var added: seq<Lit>
    var covered: Clause
    var extend: seq<Entry>
    var assumed: set<Lit>             // the literals assigned false at level one
    var nextAdded: nat
    var nextCovered: nat

    ghost predicate Connected()
      reads this
    {
      db.Valid() && AllReordered(order, db.clauses) && PositionsOk(order, pos) && AllLists(order, watches, 0)
    }

    // Clauses other than c without true literal watch none of the literals done.
    ghost predicate Settled(c: nat, done: set<Lit>)
      reads this
    {
      done <= assumed && Settling(db, order, c, assumed, done, 0, [])
    }

    // The occurrences of every literal that is not frozen are complete.
    ghost predicate Occurring()
      reads this
    {
      Listed(db, occs, frozen)
    }

    ghost predicate Inside(universe: set<Lit>)
      reads this
    {
      && (forall i :: 0 <= i < |added| ==> added[i] in universe)
      && (forall d, l :: 0 <= d < |db.clauses| && l in db.clauses[d] ==> l in universe && Neg(l) in universe)
    }

    // The covered clause still represents the candidate.
    ghost predicate Covering(rest: Base, original: Clause)
      reads this
    {
      && Repairs(rest, extend, covered, original) && Follows(rest, covered, added)
      && (forall i :: 0 <= i < |covered| ==> covered[i] in assumed) && NoDup(covered)
    }

    method PropagateAsymmetric(lit: Lit, ignore: nat, ghost universe: set<Lit>, ghost done: set<Lit>,
          ghost standing: bool)
      returns (subsumed: bool)
      requires standing ==> AllStanding(db, order, watches) && Settled(ignore, done)
      requires Connected() && Assumed(db.units, added, assumed) && lit in assumed
      requires Inside(universe)
      requires ignore < |db.clauses| && Follows(Remove(db, ignore), covered, added)
      modifies this`order, this`pos, this`watches, this`added, this`assumed, this`nextCovered
      ensures Connected() && Assumed(db.units, added, assumed) && Inside(universe)
      ensures old(added) <= added && old(assumed) <= assumed
      ensures Follows(Remove(db, ignore), covered, added)
      ensures nextCovered == 0 || (nextCovered == old(nextCovered) && assumed == old(assumed))
      ensures subsumed ==> AlwaysSat(Remove(db, ignore), covered)
      ensures standing ==> AllStanding(db, order, watches) && (!subsumed ==> Settled(ignore, done + {lit}))
    {
      var s := Scan(order, pos, watches, [], At(watches, lit));
      assert s.kept + s.rest == At(watches, lit);
      ScanStart(db, s, lit, ignore, assumed, done);
      subsumed, s := VisitAll(s, lit, ignore, universe, done, standing);
      ScanDone(s, lit, db.clauses);
      order, pos, watches := s.order, s.pos, s.Lists(lit);
      if standing && !subsumed {
        SettlingDone(db, s.order, ignore, assumed, done, lit, s.rest);
        assert Settled(ignore, done + {lit});
      }
    }

    // Visit all watches until a subsuming clause is found.
    method VisitAll(s0: Scan, lit: Lit, ignore: nat, ghost universe: set<Lit>, ghost done: set<Lit>,
          ghost standing: bool)
      returns (subsumed: bool, s: Scan)
      requires s0.Ok(lit, db.clauses) && lit in assumed && ignore < |db.clauses| && db.Valid()
      requires Assumed(db.units, added, assumed) && Inside(universe) && Follows(Remove(db, ignore), covered, added)
      requires standing ==> AllStanding(db, s0.order, s0.Lists(lit)) && done <= assumed
      requires standing ==> Settling(db, s0.order, ignore, assumed, done, lit, s0.rest)
      modifies this`added, this`assumed, this`nextCovered
      ensures s.Ok(lit, db.clauses) && (subsumed || s.rest == [])
      ensures Assumed(db.units, added, assumed) && Inside(universe) && Follows(Remove(db, ignore), covered, added)
      ensures old(added) <= added && old(assumed) <= assumed
      ensures nextCovered == 0 || (nextCovered == old(nextCovered) && assumed == old(assumed))
      ensures subsumed ==> AlwaysSat(Remove(db, ignore), covered)
      ensures standing ==> AllStanding(db, s.order, s.Lists(lit))
      ensures standing && !subsumed ==> Settling(db, s.order, ignore, assumed, done, lit, s.rest)
    {
      subsumed, s := false, s0;
      while !subsumed && s.rest != []
        invariant s.Ok(lit, db.clauses) && Assumed(db.units, added, assumed) && Inside(universe)
        invariant old(added) <= added && old(assumed) <= assumed
        invariant Follows(Remove(db, ignore), covered, added)
        invariant nextCovered == 0 || (nextCovered == old(nextCovered) && assumed == old(assumed))
        invariant subsumed ==> AlwaysSat(Remove(db, ignore), covered)
        invariant standing ==> AllStanding(db, s.order, s.Lists(lit))
        invariant standing && !subsumed ==> Settling(db, s.order, ignore, assumed, done, lit, s.rest)
        decreases !subsumed, |s.rest|
      {
        subsumed, s := VisitNext(s, lit, ignore, universe, done);
      }
    }

    // Visit one watch and add the literal it gives, if any.
    method VisitNext(s: Scan, lit: Lit, ignore: nat, ghost universe: set<Lit>, ghost done: set<Lit>)
      returns (subsumed: bool, s': Scan)
      requires s.Ok(lit, db.clauses) && s.rest != [] && lit in assumed && ignore < |db.clauses| && db.Valid()
      requires Assumed(db.units, added, assumed) && Inside(universe) && Follows(Remove(db, ignore), covered, added)
      modifies this`added, this`assumed, this`nextCovered
      ensures s'.Ok(lit, db.clauses) && s'.rest == s.rest[1..]
      ensures Assumed(db.units, added, assumed) && Inside(universe) && Follows(Remove(db, ignore), covered, added)
      ensures old(added) <= added && old(assumed) <= assumed
      ensures nextCovered == 0 || (nextCovered == old(nextCovered) && assumed == old(assumed))
      ensures subsumed ==> AlwaysSat(Remove(db, ignore), covered)
      ensures AllStanding(db, s.order, s.Lists(lit)) ==> AllStanding(db, s'.order, s'.Lists(lit))
      ensures Settling(db, s.order, ignore, old(assumed), done, lit, s.rest) && done <= old(assumed) && !subsumed ==>
        Settling(db, s'.order, ignore, assumed, done, lit, s'.rest)
    {
      ghost var d := s.rest[0].id;
      var act;
      act, s' := VisitWatch(s, lit, db, ignore, assumed, done);
      subsumed := act.Subsume?;
      if act.Add? {
        AsymmetricAdd(act.lit, ignore, d, universe);
      } else if subsumed {
        forall m: Model | Remove(db, ignore).Live(m) ensures Sat(m, covered) {
          Subsumed(Remove(db, ignore), covered, added, d, m);
        }
      }
    }

    // Asymmetric literal addition justified by clause d.
    method AsymmetricAdd(lit: Lit, ghost ignore: nat, ghost d: nat, ghost universe: set<Lit>)
      requires Assumed(db.units, added, assumed) && Inside(universe)
      requires Follows(Remove(db, ignore), covered, added)
      requires d < |db.clauses| && d != ignore && d !in db.garbage
      requires ActionJustified(Add(lit), db.clauses[d], db.units, assumed)
      modifies this`added, this`assumed, this`nextCovered
      ensures added == old(added) + [lit] && assumed == old(assumed) + {lit} && nextCovered == 0
      ensures Assumed(db.units, added, assumed) && Inside(universe)
      ensures Follows(Remove(db, ignore), covered, added)
    {
      AssumeOne(db.units, added, assumed, lit);
      AsymmetricStep(Remove(db, ignore), covered, added, d, Neg(lit));
      assert Neg(Neg(lit)) == lit;
      added, assumed, nextCovered := added + [lit], assumed + {lit}, 0;
    }

    // The blocking literal comes first, then the other covered literals.
    method PushExtension(lit: Lit)
      requires NoDup(covered) && lit in covered
      modifies this`extend
      ensures |extend| == |old(extend)| + 1 && extend[..|old(extend)|] == old(extend)
      ensures extend[|old(extend)|].wit == [lit]
      ensures forall l :: l in extend[|old(extend)|].clause <==> l in covered
    {
      var c: Clause := [lit];
      for i := 0 to |covered|
        invariant lit in c
        invariant forall k :: 0 <= k < i ==> covered[k] in c
        invariant forall k :: 0 <= k < |c| ==> c[k] in covered
      {
        if covered[i] != lit { c := c + [covered[i]]; }
      }
      extend := extend + [Entry([lit], c)];
    }

    method CoveredLiteralAddition(inter: seq<Lit>)
      requires Assumed(db.units, added, assumed) && NoDup(inter) && Consistent(Lits(inter))
      requires forall i :: 0 <= i < |covered| ==> covered[i] in assumed
      requires NoDup(covered) && forall i :: 0 <= i < |inter| ==> Undecided(inter[i], db.units, assumed)
      modifies this`added, this`covered, this`assumed, this`nextCovered
      ensures Assumed(db.units, added, assumed) && added == old(added) + inter
      ensures covered == old(covered) + inter && nextCovered == 0
      ensures NoDup(covered) && forall i :: 0 <= i < |covered| ==> covered[i] in assumed
      ensures old(assumed) <= assumed
    {
      for i := 0 to |inter|
        invariant old(assumed) <= assumed
        invariant Assumed(db.units, added, assumed) && added == old(added) + inter[..i]
        invariant covered == old(covered) + inter[..i]
        invariant NoDup(covered) && forall k :: 0 <= k < |covered| ==> covered[k] in assumed
        invariant forall k :: i <= k < |inter| ==> Undecided(inter[k], db.units, assumed)
      {
        var other := inter[i];
        AssumeOne(db.units, added, assumed, other);
        forall k | i < k < |inter| ensures Undecided(inter[k], db.units, assumed + {other}) {
          assert inter[k] in Lits(inter) && Neg(inter[k]) !in Lits(inter);
        }
        assumed, covered, added := assumed + {other}, covered + [other], added + [other];
        assert inter[..i + 1] == inter[..i] + [other];
      }
      assert inter[..|inter|] == inter;
      nextCovered := 0;
    }

    // Replaying the saved entries repairs every model of the other clauses.
    ghost predicate Repaired(rest: Base, original: Clause)
      reads this
    {
      RepairsAll(rest, extend, original)
    }

    method PropagateCovered(lit: Lit, ghost c: nat, ghost universe: set<Lit>) returns (blocked: bool)
      requires db.Valid() && Occurring() && Assumed(db.units, added, assumed) && Inside(universe)
      requires c < |db.clauses| && Covering(Remove(db, c), db.clauses[c]) && lit in covered
      modifies this`occs, this`added, this`covered, this`assumed, this`nextCovered, this`extend
      ensures Occurring() && Assumed(db.units, added, assumed) && Inside(universe)
      ensures blocked ==> Repaired(Remove(db, c), db.clauses[c])
      ensures !blocked ==> Covering(Remove(db, c), db.clauses[c])
      ensures if |added| > |old(added)| then nextCovered == 0
        else added == old(added) && nextCovered == old(nextCovered) && covered == old(covered)
      ensures old(added) <= added && old(assumed) <= assumed && old(covered) <= covered
      ensures !blocked && added == old(added) ==> Var(lit) in frozen || Resists(db, lit, assumed)
    {
      if Var(lit) in frozen { return false; }
      assert lit in assumed && lit in added && Neg(lit) !in added && lit !in db.units && Neg(lit) !in db.units;
      var none, inter := IntersectCandidates(lit, c, universe);
      blocked := none;
      if none {
        ghost var es := extend;
        PushExtension(lit);
        FinishBlocked(Remove(db, c), es, covered, added, db.clauses[c], lit, extend);
      } else if inter != [] {
        AddCovered(lit, inter, c, universe);
      }
    }

    method IntersectCandidates(lit: Lit, ghost c: nat, ghost universe: set<Lit>) returns (none: bool, inter: seq<Lit>)
      requires db.Valid() && Occurring() && Assumed(db.units, added, assumed) && Inside(universe)
      requires Var(lit) !in frozen && c < |db.clauses|
      modifies this`occs
      ensures Occurring() && Candidates(Remove(db, c), lit, assumed, inter) && Neg(lit) !in inter
      ensures none ==> forall d :: 0 <= d < |db.clauses| && d !in db.garbage && Neg(lit) in db.clauses[d] ==>
        Blocked(db.clauses[d], lit, db.units, assumed)
      ensures !none && inter == [] ==> Resists(db, lit, assumed)
      ensures NoDup(inter) && Consistent(Lits(inter))
      ensures forall i :: 0 <= i < |inter| ==> Undecided(inter[i], db.units, assumed) && inter[i] in universe
    {
      var os := if Neg(lit) in occs then occs[Neg(lit)] else [];
      var os';
      none, inter, os' := Intersection(db, os, lit, assumed);
      AllCandidates(db, c, os, lit, assumed, none, inter);
      if !none {
        InterOk(db, os, lit, assumed, inter);
        InterInside(db, os, lit, added, inter, universe);
        if inter == [] { ListResists(db, os, lit, assumed); }
      }
      if Neg(lit) in occs {
        KeepOccurrences(db, Neg(lit), os, os');
        occs := occs[Neg(lit) := os'];
      }
    }

    // Save the covered clause with blocking literal lit and extend it.
    method AddCovered(lit: Lit, inter: seq<Lit>, ghost c: nat, ghost universe: set<Lit>)
      requires Assumed(db.units, added, assumed) && Inside(universe)
      requires c < |db.clauses| && Covering(Remove(db, c), db.clauses[c]) && lit in covered
      requires lit in added
      requires lit !in db.units && Neg(lit) !in db.units && Neg(lit) !in added
      requires Neg(lit) !in inter
      requires Candidates(Remove(db, c), lit, assumed, inter)
      requires NoDup(inter) && Consistent(Lits(inter)) && inter != []
      requires forall i :: 0 <= i < |inter| ==> Undecided(inter[i], db.units, assumed)
      requires forall i :: 0 <= i < |inter| ==> inter[i] in universe
      modifies this`added, this`covered, this`assumed, this`nextCovered, this`extend
      ensures Assumed(db.units, added, assumed) && Inside(universe)
      ensures Covering(Remove(db, c), db.clauses[c]) && |added| > |old(added)| && nextCovered == 0
      ensures old(added) <= added && old(assumed) <= assumed && old(covered) <= covered
    {
      ghost var es, cov, add := extend, covered, added;
      PushExtension(lit);
      ghost var k := extend[|es|].clause;
      assert extend == es + [Entry([lit], k)];
      CoveredStep(Remove(db, c), es, cov, add, db.clauses[c], lit, inter, k);
      CoveredLiteralAddition(inter);
    }

    // Assume the negation of the unassigned literals of the candidate.
    method AssumeClause(c: nat, ghost universe: set<Lit>)
      requires db.Valid() && c < |db.clauses| && forall l :: l in db.clauses[c] ==> l !in db.units
      requires added == [] && covered == [] && extend == [] && assumed == {} && Inside(universe)
      modifies this`added, this`covered, this`assumed
      ensures Assumed(db.units, added, assumed) && Inside(universe)
      ensures Covering(Remove(db, c), db.clauses[c])
      ensures forall l :: l in db.clauses[c] && Neg(l) !in db.units ==> l in covered
    {
      var cl := db.clauses[c];
      for i := 0 to |cl|
        invariant Assumed(db.units, added, assumed) && added == covered
        invariant forall k :: 0 <= k < |added| ==> added[k] in cl[..i]
        invariant forall k :: 0 <= k < i && Neg(cl[k]) !in db.units ==> cl[k] in covered
      {
        var lit := cl[i];
        assert !Tautology(cl) && NoDup(cl) && lit in cl;
        if Neg(lit) !in db.units {
          AssumeOne(db.units, added, assumed, lit);
          added, covered, assumed := added + [lit], covered + [lit], assumed + {lit};
        }
      }
      InitialCovering(Remove(db, c), covered, cl);
    }

    // Try to cover clause c.  Otherwise the literals reached and those covered
    // are returned, with which nothing more can be added.
    method CoverClause(c: nat) returns (success: bool, ghost reached: set<Lit>, ghost cov: Clause)
      requires Connected() && Occurring() && c < |db.clauses| && c !in db.garbage
      requires added == [] && covered == [] && extend == [] && assumed == {}
      modifies this
      ensures Connected() && Occurring() && added == [] && covered == [] && extend == []
      ensures assumed == {}
      ensures db == old(db) || db == Remove(old(db), c)
      ensures |pushed| >= |old(pushed)| && pushed[..|old(pushed)|] == old(pushed)
      ensures frozen == old(frozen)
      ensures Reconstructs(old(db).Formula(), pushed[|old(pushed)|..], db.Formula())
      ensures success ==> c in db.garbage
      ensures !success ==>
        pushed == old(pushed) && (c in db.garbage <==> exists l :: l in db.clauses[c] && l in db.units)
      ensures old(AllStanding(db, order, watches)) ==> AllStanding(db, order, watches)
      ensures !success && c !in db.garbage ==> Exhausted(db, c, frozen, cov, reached)
      ensures !success && c !in db.garbage && old(AllStanding(db, order, watches)) ==> NothingToAdd(db, c, reached)
      ensures BlockedOnSome(old(db), c, frozen) ==> c in db.garbage
      ensures old(AllStanding(db, order, watches)) && SubsumedBySome(old(db), c) ==> c in db.garbage
    {
      success, reached, cov := false, {}, [];
      ghost var standing := AllStanding(db, order, watches);
      var satisfied := AnySatisfied(db.clauses[c], db.units);
      if satisfied {
        DropSatisfied(c, standing);
        return;
      }
      success := TryCover(c, standing);
      if !success {
        reached, cov := assumed, covered;
        StuckNotBlocked(db, c, frozen, cov, reached);
        if standing { NotSubsumed(db, c, frozen, cov, reached); }
      }
      Conclude(c, success, standing);
    }

    method DropSatisfied(c: nat, ghost standing: bool)
      requires Connected() && Occurring() && c < |db.clauses| && exists l :: l in db.clauses[c] && l in db.units
      requires standing ==> AllStanding(db, order, watches)
      modifies this`db
      ensures Connected() && Occurring() && db == Remove(old(db), c)
      ensures standing ==> AllStanding(db, order, watches)
      ensures Reconstructs(old(db).Formula(), [], db.Formula()) && pushed[|pushed|..] == []
    {
      SatisfiedGone(db, c);
      ListedWithout(db, c, occs, frozen);
      FewerStanding(db, c, order, watches);
      db := Remove(db, c);
    }

    // Remove the clause if it is covered, and unassign all literals.
    method Conclude(c: nat, success: bool, ghost standing: bool)
      requires Connected() && Occurring() && c < |db.clauses| && (success ==> Success(c))
      requires standing ==> AllStanding(db, order, watches)
      modifies this`db, this`pushed, this`added, this`covered, this`extend, this`assumed
      ensures Connected() && Occurring() && added == [] && covered == [] && extend == [] && assumed == {}
      ensures standing ==> AllStanding(db, order, watches)
      ensures db == (if success then Remove(old(db), c) else old(db)) && (!success ==> pushed == old(pushed))
      ensures |pushed| >= |old(pushed)| && pushed[..|old(pushed)|] == old(pushed)
      ensures Reconstructs(old(db).Formula(), pushed[|old(pushed)|..], db.Formula())
    {
      if success {
        Removed(db, c, extend);
        ListedWithout(db, c, occs, frozen);
        FewerStanding(db, c, order, watches);
        db := Remove(db, c);
        pushed := pushed + extend;
        assert pushed[|old(pushed)|..] == extend;
      } else {
        SameReconstructs(db);
        assert pushed[|pushed|..] == [];
      }
      added, covered, extend, assumed := [], [], [], {};
    }

    // Everything kept by the steps below.
    ghost predicate State(c: nat, universe: set<Lit>)
      reads this
    {
      && Connected() && Occurring() && Assumed(db.units, added, assumed) && Inside(universe)
      && c < |db.clauses| && nextAdded <= |added| && nextCovered <= |covered|
    }

    // The literals whose watches have been visited.
    ghost function Propagated(): set<Lit>
      requires nextAdded <= |added|
      reads this
    {
      Lits(added[..nextAdded])
    }

    // The first covered literals cover nothing.
    ghost predicate StuckSoFar()
      requires nextCovered <= |covered|
      reads this
    {
      CoveredStuck(db, frozen, covered[..nextCovered], assumed)
    }

    method TryCover(c: nat, ghost standing: bool) returns (tautological: bool)
      requires standing ==> AllStanding(db, order, watches)
      requires Connected() && Occurring() && c < |db.clauses|
      requires forall l :: l in db.clauses[c] ==> l !in db.units
      requires added == [] && covered == [] && extend == [] && assumed == {}
      modifies this`order, this`pos, this`watches, this`occs, this`added, this`covered, this`assumed, this`nextAdded,
        this`nextCovered, this`extend
      ensures Connected() && Occurring() && Assumed(db.units, added, assumed)
      ensures tautological ==> Success(c)
      ensures !tautological ==> Exhausted(db, c, frozen, covered, assumed)
      ensures standing ==> AllStanding(db, order, watches) && (!tautological ==> NothingToAdd(db, c, assumed))
    {
      ghost var universe := Universe(db.clauses);
      AssumeClause(c, universe);
      ghost var own := covered;
      nextAdded, nextCovered := 0, 0;
      tautological := CoverLoop(c, universe, standing);
      if !tautological { OwnCovered(db, c, frozen, own, covered, assumed); }
    }

    method CoverLoop(c: nat, ghost universe: set<Lit>, ghost standing: bool) returns (tautological: bool)
      requires standing ==> AllStanding(db, order, watches)
      requires State(c, universe) && Covering(Remove(db, c), db.clauses[c]) && nextAdded == nextCovered == 0
      modifies this`order, this`pos, this`watches, this`occs, this`added, this`covered, this`assumed, this`nextAdded,
        this`nextCovered, this`extend
      ensures State(c, universe) && old(covered) <= covered
      ensures tautological ==> Success(c)
      ensures !tautological ==> CoveredStuck(db, frozen, covered, assumed) && CoveredAssumed()
      ensures standing ==> AllStanding(db, order, watches) && (!tautological ==> NothingToAdd(db, c, assumed))
    {
      tautological := false;
      NothingVisited(db, order, c, assumed);
      assert Propagated() == {} && covered[..0] == [];
      while !tautological
        invariant State(c, universe) && old(covered) <= covered && (standing ==> AllStanding(db, order, watches))
        invariant if tautological then Success(c) else Covering(Remove(db, c), db.clauses[c])
        invariant !tautological ==> StuckSoFar() && (standing ==> Settled(c, Propagated()))
        decreases !tautological, |universe| - |added|, |added| - nextAdded, |covered| - nextCovered
      {
        AddedBound(added, universe);
        if nextAdded < |added| {
          tautological := StepAsymmetric(c, universe, standing);
        } else if nextCovered < |covered| {
          tautological := StepCovered(c, universe, standing);
        } else {
          assert covered[..nextCovered] == covered && added[..nextAdded] == added;
          if standing { AllVisited(db, order, watches, c, assumed); }
          break;
        }
        AddedBound(added, universe);
      }
    }

    // Replaying the saved entries repairs clause c.
    ghost predicate Success(c: nat)
      reads this
    {
      c < |db.clauses| && Repaired(Remove(db, c), db.clauses[c])
    }

    ghost predicate CoveredAssumed()
      reads this
    {
      forall i :: 0 <= i < |covered| ==> covered[i] in assumed
    }

    method StepAsymmetric(c: nat, ghost universe: set<Lit>, ghost standing: bool) returns (tautological: bool)
      requires State(c, universe) && nextAdded < |added| && Covering(Remove(db, c), db.clauses[c])
      requires standing ==> AllStanding(db, order, watches) && Settled(c, Propagated())
      requires StuckSoFar()
      modifies this`order, this`pos, this`watches, this`added, this`assumed, this`nextAdded, this`nextCovered
      ensures State(c, universe) && |added| >= |old(added)| && nextAdded == old(nextAdded) + 1
      ensures if tautological then Success(c) else Covering(Remove(db, c), db.clauses[c])
      ensures StuckSoFar()
      ensures standing ==> AllStanding(db, order, watches) && (!tautological ==> Settled(c, Propagated()))
    {
      ghost var done := Propagated();
      var lit := added[nextAdded];
      nextAdded := nextAdded + 1;
      tautological := PropagateAsymmetric(lit, c, universe, done, standing);
      if tautological { SubsumedRepairs(Remove(db, c), extend, covered, db.clauses[c]); }
      VisitedPrefix(old(added), added, nextAdded - 1);
      assert nextCovered == 0 ==> covered[..nextCovered] == [];
    }

    method StepCovered(c: nat, ghost universe: set<Lit>, ghost standing: bool) returns (tautological: bool)
      requires State(c, universe) && nextCovered < |covered| && StuckSoFar()
      requires standing ==> Settled(c, Propagated())
      requires Covering(Remove(db, c), db.clauses[c])
      modifies this`occs, this`added, this`covered, this`assumed, this`nextCovered, this`extend
      ensures State(c, universe) && old(covered) <= covered
      ensures |added| > |old(added)| ||
        (added == old(added) && covered == old(covered) && nextCovered == old(nextCovered) + 1)
      ensures if tautological then Success(c) else Covering(Remove(db, c), db.clauses[c])
      ensures !tautological ==> StuckSoFar()
      ensures standing ==> Settled(c, Propagated())
    {
      var lit := covered[nextCovered];
      ghost var a, n := assumed, nextCovered;
      nextCovered := nextCovered + 1;
      tautological := PropagateCovered(lit, c, universe);
      if standing { SettlingMore(db, order, c, a, assumed, old(Propagated()), 0, []); }
      assert added[..nextAdded] == old(added)[..nextAdded];
      assert nextCovered == 0 ==> covered[..nextCovered] == [];
      if !tautological && added == old(added) { StuckNext(db, frozen, covered, n, assumed); }
    }
  }

  // The candidate's own literals are among those covered, and nothing more can be.
  ghost predicate Exhausted(b: Base, c: nat, frozen: set<nat>, cov: Clause, reached: set<Lit>)
    requires c < |b.clauses|
  {
    && (forall l :: l in b.clauses[c] ==> l !in b.units && (Neg(l) in b.units || (l in cov && l in reached)))
    && CoveredStuck(b, frozen, cov, reached)
  }

  // All other clauses with the negation of a literal that is not frozen clash with c on another one.
  ghost predicate BlockedOn(b: Base, c: nat, lit: Lit)
    requires c < |b.clauses|
  {
    forall d :: 0 <= d < |b.clauses| && d !in b.garbage && Neg(lit) in b.clauses[d] ==>
      Clash(b.clauses[d], Neg(lit), b.clauses[c])
  }

  ghost predicate BlockedOnSome(b: Base, c: nat, frozen: set<nat>)
    requires c < |b.clauses|
  {
    exists lit :: lit in b.clauses[c] && Var(lit) !in frozen && Neg(lit) !in b.units && BlockedOn(b, c, lit)
  }

  ghost predicate SubsumedBySome(b: Base, c: nat)
    requires c < |b.clauses|
  {
    exists d :: 0 <= d < |b.clauses| && d !in b.garbage && d != c && forall l :: l in b.clauses[d] ==> l in b.clauses[c]
  }

  lemma SubsumedRepairs(b: Base, es: seq<Entry>, covered: Clause, original: Clause)
    requires Repairs(b, es, covered, original) && AlwaysSat(b, covered)
    ensures RepairsAll(b, es, original)
  {
  }

  lemma OwnCovered(b: Base, c: nat, frozen: set<nat>, own: Clause, cov: Clause, reached: set<Lit>)
    requires c < |b.clauses| && own <= cov && CoveredStuck(b, frozen, cov, reached)
    requires forall i :: 0 <= i < |cov| ==> cov[i] in reached
    requires forall l :: l in b.clauses[c] ==> l !in b.units && (Neg(l) in b.units || l in own)
    ensures Exhausted(b, c, frozen, cov, reached)
  {
    forall l | l in own ensures l in cov && l in reached {
      var i :| 0 <= i < |own| && own[i] == l;
      assert cov[i] == l;
    }
  }

  // A clause that is stuck is not blocked.
  lemma StuckNotBlocked(b: Base, c: nat, frozen: set<nat>, cov: Clause, reached: set<Lit>)
    requires c < |b.clauses| && Exhausted(b, c, frozen, cov, reached)
    ensures !BlockedOnSome(b, c, frozen)
  {
    forall lit | lit in b.clauses[c] && Var(lit) !in frozen && Neg(lit) !in b.units ensures !BlockedOn(b, c, lit) {
      var i :| 0 <= i < |cov| && cov[i] == lit;
      var d: nat :| IsCandidate(b, d, lit, reached);
      forall l | l in b.clauses[d] && l != Neg(lit) ensures Neg(l) !in b.clauses[c] {
        assert !Holds(l, b.units, reached) && Neg(Neg(l)) == l;
      }
    }
  }

  // If nothing more follows, no other clause subsumes it either.
  lemma NotSubsumed(b: Base, c: nat, frozen: set<nat>, cov: Clause, reached: set<Lit>)
    requires c < |b.clauses| && Exhausted(b, c, frozen, cov, reached) && NothingToAdd(b, c, reached)
    requires Consistent(reached) && forall u :: u in b.units ==> u !in reached && Neg(u) !in reached
    ensures !SubsumedBySome(b, c)
  {
    forall d | 0 <= d < |b.clauses| && d !in b.garbage && d != c
      ensures exists l :: l in b.clauses[d] && l !in b.clauses[c]
    {
      if SomeHolds(b.clauses[d], b.units, reached) {
        var l :| l in b.clauses[d] && Holds(l, b.units, reached);
        assert Neg(Neg(l)) == l && l !in b.clauses[c];
      } else {
        var k, l :| k in b.clauses[d] && l in b.clauses[d] && k != l && !False(k, b.units, reached) &&
          !False(l, b.units, reached);
        assert k !in b.clauses[c];
      }
    }
  }

  lemma FewerStanding(b: Base, c: nat, order: seq<Clause>, watches: map<Lit, seq<Watch>>)
    ensures AllStanding(b, order, watches) ==> AllStanding(Remove(b, c), order, watches)
  {
    if AllStanding(b, order, watches) {
      forall d: nat | Relevant(Remove(b, c), d) && d < |order| ensures Standing(order[d], d, watches, b.units) {
        assert Relevant(b, d);
      }
    }
  }

  // Before the first visit nothing is claimed.
  lemma NothingVisited(b: Base, order: seq<Clause>, c: nat, assumed: set<Lit>)
    ensures Settling(b, order, c, assumed, {}, 0, [])
  {
  }

  lemma VisitedPrefix(added: seq<Lit>, added': seq<Lit>, i: nat)
    requires added <= added' && i < |added|
    ensures Lits(added'[..i + 1]) == Lits(added[..i]) + {added[i]}
  {
    assert added'[..i + 1] == added[..i] + [added[i]];
    LitsSnoc(added[..i], added[i]);
  }

  lemma StuckNext(b: Base, frozen: set<nat>, covered: seq<Lit>, n: nat, assumed: set<Lit>)
    requires n < |covered| && (Var(covered[n]) in frozen || Resists(b, covered[n], assumed))
    ensures CoveredStuck(b, frozen, covered[..n], assumed) ==> CoveredStuck(b, frozen, covered[..n + 1], assumed)
  {
  }

  lemma InitialCovering(b: Base, covered: Clause, original: Clause)
    requires forall i :: 0 <= i < |covered| ==> covered[i] in original
    ensures Repairs(b, [], covered, original) && Follows(b, covered, covered)
  {
  }

  method AnySatisfied(c: Clause, units: set<Lit>) returns (satisfied: bool)
    ensures satisfied <==> exists l :: l in c && l in units
  {
    satisfied := false;
    for i := 0 to |c|
      invariant satisfied <==> exists k :: 0 <= k < i && c[k] in units
    {
      if c[i] in units { satisfied := true; }
    }
  }

  lemma SatisfiedGone(b: Base, c: nat)
    requires c < |b.clauses| && exists l :: l in b.clauses[c] && l in b.units
    ensures Reconstructs(b.Formula(), [], Remove(b, c).Formula())
  {
    forall m: Model | Models(m, Remove(b, c).Formula()) ensures Models(Replay([], m), b.Formula()) {
      FormulaModels(Remove(b, c), m);
      FormulaModels(b, m);
      var l :| l in b.clauses[c] && l in b.units;
      assert True(m, l);
    }
  }

  lemma SameReconstructs(b: Base)
    ensures Reconstructs(b.Formula(), [], b.Formula())
  {
  }

  lemma Removed(b: Base, c: nat, es: seq<Entry>)
    requires c < |b.clauses|
    requires RepairsAll(Remove(b, c), es, b.clauses[c])
    ensures Reconstructs(b.Formula(), es, Remove(b, c).Formula())
  {
    forall m: Model | Models(m, Remove(b, c).Formula()) ensures Models(Replay(es, m), b.Formula()) {
      FormulaModels(Remove(b, c), m);
      FormulaModels(b, Replay(es, m));
    }
  }

  // All literals of the clauses and their negations.
  ghost function Universe(cs: seq<Clause>): (u: set<Lit>)
    ensures forall d, l :: 0 <= d < |cs| && l in cs[d] ==> l in u && Neg(l) in u
  {
    (set d, l | 0 <= d < |cs| && l in cs[d] :: l) + (set d, l | 0 <= d < |cs| && l in cs[d] :: Neg(l))
  }

  lemma KeepOccurrences(b: Base, l: Lit, os: seq<nat>, os': seq<nat>)
    requires multiset(os) == multiset(os') && Occurrences(b, l, os)
    ensures Occurrences(b, l, os') && forall d :: d in os <==> d in os'
  {
    forall d ensures d in os <==> d in os' {
      assert d in multiset(os) <==> d in multiset(os');
    }
    forall i | 0 <= i < |os'| ensures os'[i] < |b.clauses| && l in b.clauses[os'[i]] {
      assert os'[i] in os';
    }
  }

  // What the list of Neg(lit) says about all clauses.
  lemma AllCandidates(b: Base, c: nat, os: seq<nat>, lit: Lit, assumed: set<Lit>, none: bool, inter: seq<Lit>)
    requires AllOccurrences(b, Neg(lit), os) && c < |b.clauses|
    requires none == NoCandidate(b, os, lit, assumed) && (none ==> inter == [])
    requires !none ==> forall l: Lit :: l in inter <==> InAll(b, os, lit, assumed, l)
    ensures Candidates(Remove(b, c), lit, assumed, inter)
    ensures none ==> forall d :: 0 <= d < |b.clauses| && d !in b.garbage && Neg(lit) in b.clauses[d] ==>
      Blocked(b.clauses[d], lit, b.units, assumed)
    ensures Neg(lit) !in inter
  {
    forall d | 0 <= d < |b.clauses| && d !in b.garbage && Neg(lit) in b.clauses[d] &&
      !Blocked(b.clauses[d], lit, b.units, assumed)
      ensures !none && forall l :: l in inter ==> l in b.clauses[d]
    {
      var k :| 0 <= k < |os| && os[k] == d;
      assert Candidate(b, os[k], lit, assumed);
    }
    if !none {
      var k :| 0 <= k < |os| && Candidate(b, os[k], lit, assumed);
      assert forall l :: l in inter ==> Coverable(l, b.clauses[os[k]], lit, b.units, assumed);
    }
  }

  lemma InterOk(b: Base, os: seq<nat>, lit: Lit, assumed: set<Lit>, inter: seq<Lit>)
    requires b.Valid() && !NoCandidate(b, os, lit, assumed)
    requires forall l: Lit :: l in inter <==> InAll(b, os, lit, assumed, l)
    ensures Consistent(Lits(inter))
    ensures forall i :: 0 <= i < |inter| ==> Undecided(inter[i], b.units, assumed)
  {
    var k :| 0 <= k < |os| && Candidate(b, os[k], lit, assumed);
    var d := b.clauses[os[k]];
    assert forall l :: l in inter ==> Coverable(l, d, lit, b.units, assumed);
    assert !Tautology(d) && !Blocked(d, lit, b.units, assumed);
    forall i | 0 <= i < |inter| ensures Undecided(inter[i], b.units, assumed) {
      assert inter[i] in inter;
      assert Coverable(inter[i], d, lit, b.units, assumed);
    }
  }

  lemma InterInside(b: Base, os: seq<nat>, lit: Lit, added: seq<Lit>, inter: seq<Lit>, universe: set<Lit>)
    requires !NoCandidate(b, os, lit, Lits(added))
    requires forall l: Lit :: l in inter <==> InAll(b, os, lit, Lits(added), l)
    requires forall d, l :: 0 <= d < |b.clauses| && l in b.clauses[d] ==> l in universe
    ensures forall i :: 0 <= i < |inter| ==> inter[i] in universe
  {
    var k :| 0 <= k < |os| && Candidate(b, os[k], lit, Lits(added));
    forall i | 0 <= i < |inter| ensures inter[i] in universe {
      assert inter[i] in inter;
      assert Coverable(inter[i], b.clauses[os[k]], lit, b.units, Lits(added));
    }
  }

  lemma FinishBlocked(b: Base, es: seq<Entry>, covered: Clause, added: seq<Lit>, original: Clause, lit: Lit,
        es': seq<Entry>)
    requires Repairs(b, es, covered, original) && Follows(b, covered, added) && lit in covered
    requires lit in added
    requires lit !in b.units && Neg(lit) !in b.units && Neg(lit) !in added
    requires forall d :: 0 <= d < |b.clauses| && d !in b.garbage && Neg(lit) in b.clauses[d] ==>
      Blocked(b.clauses[d], lit, b.units, Lits(added))
    requires |es'| == |es| + 1 && es'[..|es|] == es && es'[|es|].wit == [lit]
    requires forall l :: l in es'[|es|].clause <==> l in covered
    ensures RepairsAll(b, es', original)
  {
    assert es' == es + [Entry([lit], es'[|es|].clause)];
    forall m: Model | b.Live(m) ensures b.Live(Replay(es', m)) && Sat(Replay(es', m), original) {
      BlockedStep(b, es, covered, added, original, lit, es'[|es|].clause, m);
    }
  }
}
