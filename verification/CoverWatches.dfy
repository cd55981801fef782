// Asymmetric literals in covered clause elimination (src/cover.cpp): visiting
// watches, and why nothing is left to add once all of them have been visited.
module CoverWatches {
  import opened Cnf
  import opened Resolution
  import opened Watching

  // val of a literal under root-level units and false added literals.
  predicate False(l: Lit, units: set<Lit>, added: set<Lit>) {
    Neg(l) in units || l in added
  }

  predicate Holds(l: Lit, units: set<Lit>, added: set<Lit>) {
    l in units || Neg(l) in added
  }

  predicate Undecided(l: Lit, units: set<Lit>, added: set<Lit>) {
    !False(l, units, added) && !Holds(l, units, added)
  }

  // ---------- Completeness ----------

  ghost predicate SomeHolds(c: Clause, units: set<Lit>, assumed: set<Lit>) {
    exists l :: l in c && Holds(l, units, assumed)
  }

  ghost predicate Watches(ws: seq<Watch>, d: nat) {
    exists i :: 0 <= i < |ws| && ws[i].id == d
  }

  // Live clauses that are not satisfied at the root level.
  ghost predicate Relevant(b: Base, d: nat) {
    d < |b.clauses| && d !in b.garbage && forall l :: l in b.clauses[d] ==> l !in b.units
  }

  // Both watches of the clause are listed and not false at the root level.
  ghost predicate Standing(c: Clause, d: nat, watches: map<Lit, seq<Watch>>, units: set<Lit>) {
    && |c| >= 2 && Watches(At(watches, c[0]), d) && Watches(At(watches, c[1]), d)
    && Neg(c[0]) !in units && Neg(c[1]) !in units
  }

  ghost predicate AllStanding(b: Base, order: seq<Clause>, watches: map<Lit, seq<Watch>>) {
    forall d: nat :: Relevant(b, d) && d < |order| ==> Standing(order[d], d, watches, b.units)
  }

  // A clause without true literal has no watch among the literals done, and
  // watches the current one only if its visit is still to come.
  ghost predicate Unvisited(c: Clause, d: nat, done: set<Lit>, lit: int, rest: seq<Watch>) {
    |c| >= 2 ==> forall k :: k == c[0] || k == c[1] ==> k !in done && (k == lit ==> Watches(rest, d))
  }

  ghost predicate Settling(b: Base, order: seq<Clause>, skip: nat, assumed: set<Lit>, done: set<Lit>, lit: int,
        rest: seq<Watch>)
  {
    forall d: nat :: Relevant(b, d) && d < |order| && d != skip && !SomeHolds(b.clauses[d], b.units, assumed) ==>
      Unvisited(order[d], d, done, lit, rest)
  }

  // The first visit of a literal: everything that watches it is listed.
  lemma SettlingStart(b: Base, order: seq<Clause>, watches: map<Lit, seq<Watch>>, skip: nat, assumed: set<Lit>,
        done: set<Lit>, lit: Lit)
    requires AllStanding(b, order, watches) && Settling(b, order, skip, assumed, done, 0, [])
    ensures Settling(b, order, skip, assumed, done, lit, At(watches, lit))
  {
    forall d: nat | Relevant(b, d) && d < |order| && d != skip && !SomeHolds(b.clauses[d], b.units, assumed)
      ensures Unvisited(order[d], d, done, lit, At(watches, lit))
    {
      assert Standing(order[d], d, watches, b.units) && Unvisited(order[d], d, done, 0, []);
    }
  }

  // After the last one the literal is done.
  lemma SettlingDone(b: Base, order: seq<Clause>, skip: nat, assumed: set<Lit>, done: set<Lit>, lit: Lit,
        rest: seq<Watch>)
    requires Settling(b, order, skip, assumed, done, lit, rest) && rest == []
    ensures Settling(b, order, skip, assumed, done + {lit}, 0, [])
  {
    forall d: nat | Relevant(b, d) && d < |order| && d != skip && !SomeHolds(b.clauses[d], b.units, assumed)
      ensures Unvisited(order[d], d, done + {lit}, 0, [])
    {
      assert Unvisited(order[d], d, done, lit, rest);
    }
  }

  lemma SettlingMore(b: Base, order: seq<Clause>, skip: nat, assumed: set<Lit>, assumed': set<Lit>, done: set<Lit>,
        lit: int, rest: seq<Watch>)
    requires Settling(b, order, skip, assumed, done, lit, rest) && assumed <= assumed'
    ensures Settling(b, order, skip, assumed', done, lit, rest)
  {
    forall d: nat | d < |b.clauses| && SomeHolds(b.clauses[d], b.units, assumed)
      ensures SomeHolds(b.clauses[d], b.units, assumed')
    {
      var l :| l in b.clauses[d] && Holds(l, b.units, assumed);
      assert Holds(l, b.units, assumed');
    }
  }

  // Each other clause has a true literal or two that are not false.
  ghost predicate TwoNotFalse(c: Clause, units: set<Lit>, assumed: set<Lit>) {
    exists k, l :: k in c && l in c && k != l && !False(k, units, assumed) && !False(l, units, assumed)
  }

  ghost predicate NothingToAdd(b: Base, skip: nat, assumed: set<Lit>) {
    forall d :: 0 <= d < |b.clauses| && d !in b.garbage && d != skip ==>
      SomeHolds(b.clauses[d], b.units, assumed) || TwoNotFalse(b.clauses[d], b.units, assumed)
  }

  lemma AllVisited(b: Base, order: seq<Clause>, watches: map<Lit, seq<Watch>>, skip: nat, assumed: set<Lit>)
    requires AllReordered(order, b.clauses) && AllStanding(b, order, watches)
    requires Settling(b, order, skip, assumed, assumed, 0, [])
    ensures NothingToAdd(b, skip, assumed)
  {
    forall d | 0 <= d < |b.clauses| && d !in b.garbage && d != skip && !SomeHolds(b.clauses[d], b.units, assumed)
      ensures TwoNotFalse(b.clauses[d], b.units, assumed)
    {
      assert Relevant(b, d) by {
        forall l | l in b.clauses[d] ensures l !in b.units { assert !Holds(l, b.units, assumed); }
      }
      var c := order[d];
      assert Standing(c, d, watches, b.units) && Unvisited(c, d, assumed, 0, []) && Reordered(c, b.clauses[d]);
      assert c[0] in c && c[1] in c;
    }
  }

  // ---------- Visiting watches ----------

  datatype Action = Keep | Unwatch(other: Lit) | Add(lit: Lit) | Subsume

  ghost predicate PositionsOk(order: seq<Clause>, pos: seq<nat>) {
    |pos| == |order| && forall d :: 0 <= d < |order| && |order[d]| > 2 ==> 2 <= pos[d] <= |order[d]|
  }

  // The outcome of visiting the watch of lit in clause c.
  ghost predicate Visited(c: Clause, lit: Lit, act: Action, c': Clause, units: set<Lit>, assumed: set<Lit>)
    requires |c| >= 2 && |c'| >= 2
  {
    match act
    case Keep => SameWatches(c, c') && SomeHolds(c, units, assumed)
    case Unwatch(r) => r in c && r != c[0] && r != c[1] && c'[1] == r && Undecided(r, units, assumed) &&
      ((c'[0] == c[0] && c[1] == lit) || (c'[0] == c[1] && c[0] == lit))
    case _ => SameWatches(c, c') && ActionJustified(act, c, units, assumed)
  }

  // A literal is only added if it is unset and all the other literals of c
  // than its negation are false; c subsumes if all its literals are false.
  ghost predicate ActionJustified(act: Action, c: Clause, units: set<Lit>, assumed: set<Lit>) {
    match act
    case Add(l) => Undecided(l, units, assumed) && Neg(l) in c && forall k :: k in c && k != Neg(l) ==>
      False(k, units, assumed)
    case Subsume => forall k :: k in c ==> False(k, units, assumed)
    case _ => true
  }

  // A literal that is not false, searched from the saved position to the end and then from the start.
  method FindReplacement(c: Clause, pos: nat, units: set<Lit>, assumed: set<Lit>) returns (k: nat, found: bool)
    requires 2 <= pos <= |c|
    ensures 2 <= k <= |c| && (found ==> k < |c| && !False(c[k], units, assumed))
    ensures !found ==> forall i :: 2 <= i < |c| ==> False(c[i], units, assumed)
  {
    k := pos;
    while k != |c| && False(c[k], units, assumed)
      invariant pos <= k <= |c| && forall i :: pos <= i < k ==> False(c[i], units, assumed)
    {
      k := k + 1;
    }
    if k != |c| { return k, true; }
    k := 2;
    while k != pos && False(c[k], units, assumed)
      invariant 2 <= k <= pos && forall i :: 2 <= i < k ==> False(c[i], units, assumed)
    {
      k := k + 1;
    }
    found := k != pos;
  }

  // One watch whose blocking literal is not true in a clause of more than two literals.
  method VisitLong(c: Clause, pos: nat, lit: Lit, w: Watch, units: set<Lit>, assumed: set<Lit>)
    returns (act: Action, c': Clause, pos': nat, w': Watch)
    requires NoDup(c) && |c| > 2 && Watched(c, lit, w) && 2 <= pos <= |c|
    requires False(lit, units, assumed)
    requires Consistent(units) && Consistent(assumed)
    requires forall u :: u in units ==> u !in assumed && Neg(u) !in assumed
    ensures Reordered(c', c) && Visited(c, lit, act, c', units, assumed) && 2 <= pos' <= |c|
    ensures w'.id == w.id && w'.size == w.size && w'.blit in c && w'.blit != lit
  {
    act, pos', w' := Keep, pos, w;
    c' := SwapFirst(c, lit);
    SwapReorders(c, lit);
    var other := c'[0];
    if Holds(other, units, assumed) {
      w' := w.(blit := other);
    } else {
      var k, found := FindReplacement(c', pos, units, assumed);
      pos' := k;
      if found {
        var r := c'[k];
        if Holds(r, units, assumed) {
          w' := w.(blit := r);
        } else {
          ExchangeReorders(c', k);
          c' := c'[1 := r][k := lit];
          act := Unwatch(r);
        }
      } else {
        assert forall i :: 0 <= i < |c'| && c'[i] != other ==> False(c'[i], units, assumed);
        if !False(other, units, assumed) {
          act := Add(Neg(other));
        } else {
          act := Subsume;
        }
      }
    }
  }

  // The watches of one literal while they are visited: those kept so far and those to come.
  datatype Scan = Scan(order: seq<Clause>, pos: seq<nat>, watches: map<Lit, seq<Watch>>, kept: seq<Watch>,
    rest: seq<Watch>) {
    ghost predicate Ok(lit: Lit, cs: seq<Clause>) {
      && AllReordered(order, cs) && PositionsOk(order, pos) && AllLists(order, watches, lit)
      && ListOk(order, lit, kept + rest)
    }

    // All lists, with that of the current literal put together.
    function Lists(lit: Lit): map<Lit, seq<Watch>> { watches[lit := kept + rest] }
  }

  // The literals assumed after the visit.
  function After(assumed: set<Lit>, act: Action): set<Lit> {
    if act.Add? then assumed + {act.lit} else assumed
  }

  // The next watch has been visited: all other clauses are as before.
  ghost predicate SameElsewhere(s: Scan, s': Scan) {
    && s.rest != [] && s'.rest == s.rest[1..] && |s'.order| == |s.order|
    && forall x :: 0 <= x < |s.order| && x != s.rest[0].id ==> s'.order[x] == s.order[x]
  }

  // Other clauses stay in the list of the current literal.
  lemma StaysListed(s: Scan, s': Scan, w: Watch, d: nat)
    requires SameElsewhere(s, s') && w.id == s.rest[0].id && (s'.kept == s.kept || s'.kept == s.kept + [w])
    ensures d != w.id && Watches(s.kept + s.rest, d) ==> Watches(s'.kept + s'.rest, d)
    ensures s'.kept == s.kept + [w] ==> Watches(s'.kept + s'.rest, w.id)
    ensures d != w.id && Watches(s.rest, d) ==> Watches(s'.rest, d)
  {
    var a, c := s.kept + s.rest, s'.kept + s'.rest;
    if d != w.id && Watches(a, d) {
      var i :| 0 <= i < |a| && a[i].id == d;
      assert i != |s.kept|;
      var j := if i < |s.kept| then i else i - |s.kept| - 1 + |s'.kept|;
      assert c[j].id == d;
    }
    if s'.kept == s.kept + [w] { assert c[|s.kept|] == w; }
    if d != w.id && Watches(s.rest, d) {
      var i :| 0 <= i < |s.rest| && s.rest[i].id == d;
      assert s'.rest[i - 1].id == d;
    }
  }

  // The watch stays, or the clause is garbage.
  lemma KeepsStanding(b: Base, s: Scan, s': Scan, lit: Lit, w: Watch)
    requires AllStanding(b, s.order, s.Lists(lit)) && SameElsewhere(s, s') && s'.watches == s.watches
    requires w.id == s.rest[0].id < |s.order| && |s'.order[w.id]| == |s.order[w.id]|
    requires |s.order[w.id]| >= 2 ==> SameWatches(s.order[w.id], s'.order[w.id])
    requires s'.kept == s.kept + [w] || (s'.kept == s.kept && w.id in b.garbage)
    ensures AllStanding(b, s'.order, s'.Lists(lit))
  {
    forall d: nat | Relevant(b, d) && d < |s.order| ensures Standing(s'.order[d], d, s'.Lists(lit), b.units) {
      assert Standing(s.order[d], d, s.Lists(lit), b.units);
      StaysListed(s, s', w, d);
    }
  }

  lemma KeepsSettling(b: Base, s: Scan, s': Scan, lit: Lit, w: Watch, skip: nat, assumed: set<Lit>, assumed': set<Lit>,
        done: set<Lit>)
    requires Settling(b, s.order, skip, assumed, done, lit, s.rest) && SameElsewhere(s, s') && assumed <= assumed'
    requires w.id == s.rest[0].id && (s'.kept == s.kept || s'.kept == s.kept + [w])
    requires Relevant(b, w.id) && w.id != skip ==> SomeHolds(b.clauses[w.id], b.units, assumed')
    ensures Settling(b, s'.order, skip, assumed', done, lit, s'.rest)
  {
    SettlingMore(b, s.order, skip, assumed, assumed', done, lit, s.rest);
    forall d: nat | Relevant(b, d) && d < |s.order| && d != skip && !SomeHolds(b.clauses[d], b.units, assumed')
      ensures Unvisited(s'.order[d], d, done, lit, s'.rest)
    {
      assert Unvisited(s.order[d], d, done, lit, s.rest);
      StaysListed(s, s', w, d);
    }
  }

  // The clause is watched by another literal instead.
  ghost predicate Rewatched(s: Scan, s': Scan, lit: Lit, r: Lit, w: Watch) {
    && SameElsewhere(s, s') && w.id == s.rest[0].id < |s.order| && |s.order[w.id]| >= 2 && |s'.order[w.id]| >= 2
    && s'.kept == s.kept && s'.watches == s.watches[r := At(s.watches, r) + [w]]
    && r != lit && s'.order[w.id][1] == r && s'.order[w.id][0] != lit
    && (s'.order[w.id][0] == s.order[w.id][0] || s'.order[w.id][0] == s.order[w.id][1])
  }

  lemma MovesStanding(b: Base, s: Scan, s': Scan, lit: Lit, r: Lit, w: Watch)
    requires AllStanding(b, s.order, s.Lists(lit)) && Rewatched(s, s', lit, r, w) && Neg(r) !in b.units
    ensures AllStanding(b, s'.order, s'.Lists(lit))
  {
    var m, m' := s.Lists(lit), s'.Lists(lit);
    forall d: nat | Relevant(b, d) && d < |s.order| ensures Standing(s'.order[d], d, m', b.units) {
      assert Standing(s.order[d], d, m, b.units);
      StaysListed(s, s', s.rest[0], d);
      MoreListed(s, lit, r, w, d);
    }
  }

  // The list of r grows by the watch.
  lemma MoreListed(s: Scan, lit: Lit, r: Lit, w: Watch, d: nat)
    requires r != lit
    ensures forall l: Lit :: l != lit && Watches(At(s.Lists(lit), l), d) ==>
      Watches(At(s.watches[r := At(s.watches, r) + [w]], l), d)
    ensures Watches(At(s.watches[r := At(s.watches, r) + [w]], r), w.id)
  {
    var ws := At(s.watches, r) + [w];
    assert ws[|ws| - 1] == w;
    forall l: Lit | l != lit && Watches(At(s.Lists(lit), l), d)
      ensures Watches(At(s.watches[r := ws], l), d)
    {
      var before := At(s.watches, l);
      assert At(s.Lists(lit), l) == before && before <= At(s.watches[r := ws], l);
      var i :| 0 <= i < |before| && before[i].id == d;
      assert At(s.watches[r := ws], l)[i] == before[i];
    }
  }

  lemma MovesSettling(b: Base, s: Scan, s': Scan, lit: Lit, r: Lit, w: Watch, skip: nat, assumed: set<Lit>,
        done: set<Lit>)
    requires Settling(b, s.order, skip, assumed, done, lit, s.rest) && Rewatched(s, s', lit, r, w)
    requires done <= assumed && r !in assumed
    ensures Settling(b, s'.order, skip, assumed, done, lit, s'.rest)
  {
    forall d: nat | Relevant(b, d) && d < |s.order| && d != skip && !SomeHolds(b.clauses[d], b.units, assumed)
      ensures Unvisited(s'.order[d], d, done, lit, s'.rest)
    {
      assert Unvisited(s.order[d], d, done, lit, s.rest);
      StaysListed(s, s', s.rest[0], d);
    }
  }

  lemma ScanStart(b: Base, s: Scan, lit: Lit, skip: nat, assumed: set<Lit>, done: set<Lit>)
    requires s.kept == [] && s.rest == At(s.watches, lit)
    ensures AllStanding(b, s.order, s.watches) ==> AllStanding(b, s.order, s.Lists(lit))
    ensures AllStanding(b, s.order, s.watches) && Settling(b, s.order, skip, assumed, done, 0, []) ==>
      Settling(b, s.order, skip, assumed, done, lit, s.rest)
  {
    assert s.kept + s.rest == s.rest;
    assert forall l: Lit :: At(s.Lists(lit), l) == At(s.watches, l);
    if AllStanding(b, s.order, s.watches) {
      forall d: nat | Relevant(b, d) && d < |s.order| ensures Standing(s.order[d], d, s.Lists(lit), b.units) {
        assert Standing(s.order[d], d, s.watches, b.units);
      }
      if Settling(b, s.order, skip, assumed, done, 0, []) {
        SettlingStart(b, s.order, s.watches, skip, assumed, done, lit);
      }
    }
  }

  lemma ScanDone(s: Scan, lit: Lit, cs: seq<Clause>)
    requires s.Ok(lit, cs)
    ensures AllReordered(s.order, cs) && PositionsOk(s.order, s.pos) && AllLists(s.order, s.Lists(lit), 0)
  {
  }

  // What every visit keeps: the watches, and that clauses not visited yet are the only ones with something to add.
  ghost predicate VisitKeeps(b: Base, s: Scan, s': Scan, lit: Lit, skip: nat, assumed: set<Lit>, act: Action,
        done: set<Lit>)
  {
    && (AllStanding(b, s.order, s.Lists(lit)) ==> AllStanding(b, s'.order, s'.Lists(lit)))
    && (Settling(b, s.order, skip, assumed, done, lit, s.rest) && done <= assumed && !act.Subsume? ==>
          Settling(b, s'.order, skip, After(assumed, act), done, lit, s'.rest))
  }

  lemma KeepVisit(b: Base, s: Scan, s': Scan, lit: Lit, w: Watch, skip: nat, assumed: set<Lit>, act: Action,
        done: set<Lit>)
    requires SameElsewhere(s, s') && s'.watches == s.watches && w.id == s.rest[0].id < |s.order|
    requires |s'.order[w.id]| == |s.order[w.id]|
    requires |s.order[w.id]| >= 2 ==> SameWatches(s.order[w.id], s'.order[w.id])
    requires s'.kept == s.kept + [w] || (s'.kept == s.kept && w.id in b.garbage)
    requires Relevant(b, w.id) && w.id != skip && !act.Subsume? ==>
      SomeHolds(b.clauses[w.id], b.units, After(assumed, act))
    ensures VisitKeeps(b, s, s', lit, skip, assumed, act, done)
  {
    if AllStanding(b, s.order, s.Lists(lit)) { KeepsStanding(b, s, s', lit, w); }
    if Settling(b, s.order, skip, assumed, done, lit, s.rest) && !act.Subsume? {
      KeepsSettling(b, s, s', lit, w, skip, assumed, After(assumed, act), done);
    }
  }

  lemma MoveVisit(b: Base, s: Scan, s': Scan, lit: Lit, r: Lit, w: Watch, skip: nat, assumed: set<Lit>, done: set<Lit>)
    requires Rewatched(s, s', lit, r, w) && Undecided(r, b.units, assumed)
    ensures VisitKeeps(b, s, s', lit, skip, assumed, Unwatch(r), done)
  {
    if AllStanding(b, s.order, s.Lists(lit)) { MovesStanding(b, s, s', lit, r, w); }
    if Settling(b, s.order, skip, assumed, done, lit, s.rest) && done <= assumed {
      MovesSettling(b, s, s', lit, r, w, skip, assumed, done);
    }
  }

  // A literal added makes its negation true.
  lemma AddHolds(b: Base, d: nat, act: Action, assumed: set<Lit>)
    requires d < |b.clauses| && act.Add? && ActionJustified(act, b.clauses[d], b.units, assumed)
    ensures SomeHolds(b.clauses[d], b.units, After(assumed, act))
  {
    assert Neg(act.lit) in b.clauses[d] && Neg(Neg(act.lit)) == act.lit;
    assert Holds(Neg(act.lit), b.units, After(assumed, act));
  }

  // Visit the next watch.
  method VisitWatch(s: Scan, lit: Lit, b: Base, skip: nat, assumed: set<Lit>, ghost done: set<Lit>)
    returns (act: Action, s': Scan)
    requires s.Ok(lit, b.clauses) && s.rest != [] && False(lit, b.units, assumed)
    requires Consistent(b.units) && Consistent(assumed)
    requires forall u :: u in b.units ==> u !in assumed && Neg(u) !in assumed
    ensures s'.Ok(lit, b.clauses) && s'.rest == s.rest[1..]
    ensures s.rest[0].id < |b.clauses| && ActionJustified(act, b.clauses[s.rest[0].id], b.units, assumed)
    ensures (act.Add? || act.Subsume?) ==> s.rest[0].id != skip && s.rest[0].id !in b.garbage
    ensures VisitKeeps(b, s, s', lit, skip, assumed, act, done)
  {
    var w, rest := s.rest[0], s.rest[1..];
    assert (s.kept + s.rest)[|s.kept|] == w;
    ListTail(s.order, lit, s.kept, s.rest, w);
    act, s' := Keep, s.(kept := s.kept + [w], rest := rest);
    if w.id == skip || Holds(w.blit, b.units, assumed) {
      assert Reordered(s.order[w.id], b.clauses[w.id]) && w.blit in s.order[w.id];
      KeepVisit(b, s, s', lit, w, skip, assumed, act, done);
      return;
    }
    if w.id in b.garbage {
      s' := s'.(kept := s.kept);
      KeepVisit(b, s, s', lit, w, skip, assumed, act, done);
      return;
    }
    var c := s.order[w.id];
    if w.size == 2 {
      assert Reordered(c, b.clauses[w.id]);
      assert forall i :: 0 <= i < |c| ==> c[i] == lit || c[i] == w.blit;
      act := if False(w.blit, b.units, assumed) then Subsume else Add(Neg(w.blit));
      assert Neg(Neg(w.blit)) == w.blit;
      if act.Add? { AddHolds(b, w.id, act, assumed); }
      KeepVisit(b, s, s', lit, w, skip, assumed, act, done);
      return;
    }
    act, s' := ApplyVisit(s, lit, b, skip, assumed, done);
  }

  method ApplyVisit(s: Scan, lit: Lit, b: Base, ghost skip: nat, assumed: set<Lit>, ghost done: set<Lit>)
    returns (act: Action, s': Scan)
    requires s.Ok(lit, b.clauses) && s.rest != [] && False(lit, b.units, assumed)
    requires (s.kept + s.rest)[|s.kept|] == s.rest[0] && s.rest[0].size != 2
    requires Consistent(b.units) && Consistent(assumed)
    requires forall u :: u in b.units ==> u !in assumed && Neg(u) !in assumed
    ensures s'.Ok(lit, b.clauses) && s'.rest == s.rest[1..] && s.rest[0].id < |b.clauses|
    ensures ActionJustified(act, b.clauses[s.rest[0].id], b.units, assumed)
    ensures VisitKeeps(b, s, s', lit, skip, assumed, act, done)
  {
    var w := s.rest[0];
    var c, c', pos', w';
    c := s.order[w.id];
    assert Reordered(c, b.clauses[w.id]);
    act, c', pos', w' := VisitLong(c, s.pos[w.id], lit, w, b.units, assumed);
    if act.Unwatch? {
      s' := Rewatch(s, lit, b.clauses, act.other, c', pos');
      MoveVisit(b, s, s', lit, act.other, Watch(lit, |c'|, w.id), skip, assumed, done);
    } else {
      s' := Rekeep(s, lit, b.clauses, w', c', pos');
      if act.Add? {
        AddHolds(b, w.id, act, assumed);
      } else if act.Keep? {
        SameHolds(c, b.clauses[w.id], b.units, assumed);
      }
      KeepVisit(b, s, s', lit, w', skip, assumed, act, done);
    }
  }

  lemma SameHolds(c: Clause, d: Clause, units: set<Lit>, assumed: set<Lit>)
    requires Reordered(c, d) && SomeHolds(c, units, assumed)
    ensures SomeHolds(d, units, assumed)
  {
    var l :| l in c && Holds(l, units, assumed);
    assert l in d;
  }

  // The clause is watched by r instead of lit.
  method Rewatch(s: Scan, lit: Lit, ghost cs: seq<Clause>, r: Lit, c': Clause, pos': nat) returns (s': Scan)
    requires s.Ok(lit, cs) && s.rest != [] && (s.kept + s.rest)[|s.kept|] == s.rest[0] && s.rest[0].id < |s.order|
    requires |s.order[s.rest[0].id]| > 2 && Reordered(c', s.order[s.rest[0].id]) && 2 <= pos' <= |c'|
    requires var c := s.order[s.rest[0].id];
      && r in c && r != c[0] && r != c[1] && c'[1] == r
      && ((c'[0] == c[0] && c[1] == lit) || (c'[0] == c[1] && c[0] == lit))
    ensures s'.Ok(lit, cs) && Rewatched(s, s', lit, r, Watch(lit, |c'|, s.rest[0].id))
  {
    var w, rest := s.rest[0], s.rest[1..];
    var order' := s.order[w.id := c'];
    assert Reordered(s.order[w.id], cs[w.id]);
    ListTail(s.order, lit, s.kept, s.rest, w);
    forall l | l in s.watches && l != lit ensures ListOk(order', l, s.watches[l]) {
      ListUnwatched(s.order, l, s.watches[l], w.id, c', lit, r);
    }
    ListUnwatched(s.order, r, At(s.watches, r), w.id, c', lit, r);
    ListUnwatched(s.order, lit, s.kept + rest, w.id, c', lit, r);
    s' := Scan(order', s.pos[w.id := pos'], s.watches[r := At(s.watches, r) + [Watch(lit, |c'|, w.id)]], s.kept, rest);
    assert NoDup(s.order[w.id]);
  }

  // The clause keeps its watches, perhaps in the other order.
  method Rekeep(s: Scan, lit: Lit, ghost cs: seq<Clause>, w': Watch, c': Clause, pos': nat) returns (s': Scan)
    requires s.Ok(lit, cs) && s.rest != [] && (s.kept + s.rest)[|s.kept|] == s.rest[0] && s.rest[0].id < |s.order|
    requires |s.order[s.rest[0].id]| > 2 && Reordered(c', s.order[s.rest[0].id]) && 2 <= pos' <= |c'|
    requires SameWatches(s.order[s.rest[0].id], c') && w'.id == s.rest[0].id && Watched(s.order[w'.id], lit, w')
    ensures s'.Ok(lit, cs) && SameElsewhere(s, s') && s'.watches == s.watches && s'.kept == s.kept + [w']
    ensures s'.order[w'.id] == c'
  {
    var rest := s.rest[1..];
    var order' := s.order[w'.id := c'];
    assert Reordered(s.order[w'.id], cs[w'.id]);
    ListTail(s.order, lit, s.kept, s.rest, w');
    forall l | l in s.watches && l != lit ensures ListOk(order', l, s.watches[l]) {
      ListSwapped(s.order, l, s.watches[l], w'.id, c');
    }
    ListSwapped(s.order, lit, s.kept + [w'] + rest, w'.id, c');
    s' := Scan(order', s.pos[w'.id := pos'], s.watches, s.kept + [w'], rest);
  }
}
