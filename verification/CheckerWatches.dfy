// Watch lists of the proof checker (src/checker.cpp): propagating one literal.
// `dead` holds the clauses marked as garbage, `freed` those also deleted.
module CheckerWatches {
  import opened Cnf
  import opened Watching
  import opened UnitPropagation

  datatype Step = Keep | Unwatch(other: Lit) | Assign(lit: Lit) | Stop

  // The outcome of visiting clause c through its false watch x.
  ghost predicate Visited(c: Clause, x: Lit, act: Step, c': Clause, vals: set<Lit>)
    requires |c| >= 2 && |c'| >= 2
  {
    match act
    case Keep => SameWatches(c, c') && SatBy(c, vals)
    case Unwatch(r) =>
      && r in c && r != c[0] && r != c[1] && c'[1] == r && Neg(r) !in vals
      && ((c'[0] == c[0] && c[1] == x) || (c'[0] == c[1] && c[0] == x))
    case _ => SameWatches(c, c') && Justified(c, act, vals)
  }

  // Assigned literals are units under the assignment; conflicts are falsified clauses.
  ghost predicate Justified(c: Clause, act: Step, vals: set<Lit>) {
    match act
    case Assign(l) => l !in vals && Neg(l) !in vals && UnitOn(Lits(c), l, vals)
    case Stop => Falsified(Lits(c), vals)
    case _ => true
  }

  // A clause of more than two literals whose blocking literal is not true.
  method VisitLong(c: Clause, x: Lit, w: Watch, vals: set<Lit>) returns (act: Step, c': Clause, w': Watch)
    requires NoDup(c) && |c| > 2 && Watched(c, x, w) && Neg(x) in vals && Consistent(vals)
    ensures Reordered(c', c) && Visited(c, x, act, c', vals)
    ensures w'.id == w.id && w'.size == w.size && w'.blit in c && w'.blit != x
  {
    var other := if c[0] == x then c[1] else c[0];
    c', w' := c, w;
    if other in vals { return Keep, c, w.(blit := other); }
    c' := SwapFirst(c, x);
    SwapReorders(c, x);
    var k := 2;
    while k < |c| && Neg(c'[k]) in vals
      invariant 2 <= k <= |c| && forall i :: 2 <= i < k ==> Neg(c'[i]) in vals
    {
      k := k + 1;
    }
    if k < |c| {
      act := Unwatch(c'[k]);
      ExchangeReorders(c', k);
      c' := c'[1 := c'[k]][k := x];
    } else {
      assert forall i :: 0 <= i < |c'| && c'[i] != other ==> Neg(c'[i]) in vals;
      act := if Neg(other) !in vals then Assign(other) else Stop;
    }
  }

  function Ids(ws: seq<Watch>): set<nat> {
    set i | 0 <= i < |ws| :: ws[i].id
  }

  lemma IdsAppend(a: seq<Watch>, b: seq<Watch>)
    ensures Ids(a + b) == Ids(a) + Ids(b)
  {
    forall i | 0 <= i < |a| ensures (a + b)[i] == a[i] {}
    forall i | 0 <= i < |b| ensures (a + b)[|a| + i] == b[i] {}
    forall d | d in Ids(a) + Ids(b) ensures d in Ids(a + b) {
      if d in Ids(a) {
        var i :| 0 <= i < |a| && a[i].id == d;
        assert (a + b)[i].id == d;
      } else {
        var i :| 0 <= i < |b| && b[i].id == d;
        assert (a + b)[|a| + i].id == d;
      }
    }
  }

  lemma IdsFirst(ws: seq<Watch>)
    requires ws != []
    ensures Ids(ws) == {ws[0].id} + Ids(ws[1..])
  {
    assert ws == [ws[0]] + ws[1..];
    IdsAppend([ws[0]], ws[1..]);
    assert Ids([ws[0]]) == {ws[0].id} by { assert [ws[0]][0] == ws[0]; }
  }

  // The store of clauses and the watch lists, while the list of x is traversed.
  datatype Scan = Scan(store: seq<Clause>, watchers: map<Lit, seq<Watch>>, kept: seq<Watch>, rest: seq<Watch>)

  ghost predicate Shape(store: seq<Clause>) {
    forall d :: 0 <= d < |store| ==> |store[d]| >= 2 && NoDup(store[d])
  }

  // The list of y, which is split in two parts for x.
  function List(s: Scan, x: int, y: Lit): seq<Watch> {
    if y == x then s.kept + s.rest else At(s.watchers, y)
  }

  ghost predicate Safe(ws: seq<Watch>, freed: set<nat>) {
    forall i :: 0 <= i < |ws| ==> ws[i].id !in freed
  }

  // Watches lead to clauses that are not deleted and which are watched by the literal.
  ghost predicate ListsOk(s: Scan, x: int, freed: set<nat>) {
    Shape(s.store) && forall y: Lit :: ListOk(s.store, y, List(s, x, y)) && Safe(List(s, x, y), freed)
  }

  // Every live clause is in the lists of its two watches.
  ghost predicate Listed(s: Scan, x: int, dead: set<nat>)
    requires Shape(s.store)
  {
    forall d, i :: 0 <= d < |s.store| && d !in dead && 0 <= i < 2 ==> d in Ids(List(s, x, s.store[d][i]))
  }

  // A live clause one of whose watches has become false is satisfied or still to be visited.
  ghost predicate Settled(s: Scan, x: int, dead: set<nat>, done: set<Lit>, vals: set<Lit>)
    requires Shape(s.store)
  {
    forall d, i :: 0 <= d < |s.store| && d !in dead && 0 <= i < 2 && Neg(s.store[d][i]) in done ==>
      SatBy(s.store[d], vals) || (s.store[d][i] == x && d in Ids(s.rest))
  }

  // The same for the root-level assignment.
  ghost predicate Rooted(store: seq<Clause>, dead: set<nat>, root: set<Lit>)
    requires Shape(store)
  {
    forall d, i :: 0 <= d < |store| && d !in dead && 0 <= i < 2 && Neg(store[d][i]) in root ==> SatBy(store[d], root)
  }

  ghost predicate Holding(store: seq<Clause>, freed: set<nat>, f: Clauses) {
    forall d :: 0 <= d < |store| && d !in freed ==> Lits(store[d]) in f
  }

  // Clauses have only been reordered.
  ghost predicate SameSets(store: seq<Clause>, store': seq<Clause>) {
    && |store| == |store'|
    && forall d :: 0 <= d < |store| ==> |store[d]| == |store'[d]| && Lits(store[d]) == Lits(store'[d])
  }

  lemma SatReordered(c: Clause, c': Clause, vals: set<Lit>)
    requires Reordered(c', c)
    ensures SatBy(c, vals) <==> SatBy(c', vals)
    ensures Lits(c) == Lits(c')
  {
  }

  // ---------- The visited watch is kept ----------

  lemma KeepLists(s: Scan, x: Lit, freed: set<nat>, c': Clause, w': Watch, s': Scan)
    requires ListsOk(s, x, freed) && s.rest != [] && w'.id == s.rest[0].id && w'.id < |s.store|
    requires Reordered(c', s.store[w'.id]) && (c' == s.store[w'.id] || |c'| > 2)
    requires SameWatches(s.store[w'.id], c')
    requires Watched(s.store[w'.id], x, w')
    requires s' == Scan(s.store[w'.id := c'], s.watchers, s.kept + [w'], s.rest[1..])
    ensures ListsOk(s', x, freed)
  {
    assert ListOk(s.store, x, List(s, x, x));
    ListTail(s.store, x, s.kept, s.rest, w');
    forall y: Lit ensures ListOk(s'.store, y, List(s', x, y)) && Safe(List(s', x, y), freed) {
      assert ListOk(s.store, y, List(s, x, y)) && Safe(List(s, x, y), freed);
      if y == x {
        assert List(s', x, y) == s.kept + [w'] + s.rest[1..];
        SafeTail(s, freed, w');
      }
      if c' == s.store[w'.id] {
        assert s'.store == s.store;
      } else {
        ListSwapped(s.store, y, List(s', x, y), w'.id, c');
      }
    }
  }

  lemma SafeTail(s: Scan, freed: set<nat>, w': Watch)
    requires Safe(s.kept + s.rest, freed) && s.rest != [] && w'.id == s.rest[0].id
    ensures Safe(s.kept + [w'] + s.rest[1..], freed) && Safe(s.kept + s.rest[1..], freed)
    ensures w'.id !in freed
  {
    var a, b, c := s.kept + s.rest, s.kept + [w'] + s.rest[1..], s.kept + s.rest[1..];
    assert a[|s.kept|] == s.rest[0];
    assert forall i :: 0 <= i < |b| ==> b[i].id == a[i].id;
    assert forall i :: 0 <= i < |c| ==> c[i].id == a[if i < |s.kept| then i else i + 1].id;
  }

  lemma KeepListed(s: Scan, x: Lit, dead: set<nat>, c': Clause, w': Watch, s': Scan)
    requires Shape(s.store) && Listed(s, x, dead) && s.rest != [] && w'.id == s.rest[0].id
    requires w'.id < |s.store|
    requires Reordered(c', s.store[w'.id]) && SameWatches(s.store[w'.id], c')
    requires s' == Scan(s.store[w'.id := c'], s.watchers, s.kept + [w'], s.rest[1..])
    ensures Shape(s'.store) && Listed(s', x, dead)
  {
    IdsAppend(s.kept, s.rest);
    IdsAppend(s'.kept, s'.rest);
    IdsAppend(s.kept, [w']);
    IdsFirst(s.rest);
    IdsFirst([w']);
    forall d, i | 0 <= d < |s'.store| && d !in dead && 0 <= i < 2 ensures d in Ids(List(s', x, s'.store[d][i])) {
      assert d in Ids(List(s, x, s.store[d][0])) && d in Ids(List(s, x, s.store[d][1]));
    }
  }

  lemma KeepSettled(s: Scan, x: Lit, dead: set<nat>, done: set<Lit>, vals: set<Lit>, vals': set<Lit>, c': Clause,
        w': Watch, s': Scan)
    requires Shape(s.store) && Settled(s, x, dead, done, vals) && s.rest != []
    requires w'.id == s.rest[0].id && w'.id < |s.store|
    requires Reordered(c', s.store[w'.id]) && SameWatches(s.store[w'.id], c') && vals <= vals'
    requires SatBy(c', vals')
    requires s' == Scan(s.store[w'.id := c'], s.watchers, s.kept + [w'], s.rest[1..])
    ensures Shape(s'.store) && Settled(s', x, dead, done, vals')
  {
    IdsFirst(s.rest);
    forall d, i | 0 <= d < |s'.store| && d !in dead && 0 <= i < 2 && Neg(s'.store[d][i]) in done
      ensures SatBy(s'.store[d], vals') || (s'.store[d][i] == x && d in Ids(s'.rest)) {
      if d != w'.id && SatBy(s.store[d], vals) {
        var l :| l in s.store[d] && l in vals;
        assert l in vals';
      }
    }
  }

  lemma SwapRooted(store: seq<Clause>, dead: set<nat>, root: set<Lit>, d: nat, c': Clause)
    requires Shape(store) && Rooted(store, dead, root) && d < |store| && Reordered(c', store[d])
    requires SameWatches(store[d], c') || (Neg(c'[1]) !in root && (c'[0] == store[d][0] || c'[0] == store[d][1]))
    ensures Shape(store[d := c']) && Rooted(store[d := c'], dead, root)
  {
    SatReordered(store[d], c', root);
    assert d !in dead && (Neg(store[d][0]) in root || Neg(store[d][1]) in root) ==> SatBy(store[d], root);
  }

  lemma SwapHolding(store: seq<Clause>, freed: set<nat>, f: Clauses, d: nat, c': Clause)
    requires Holding(store, freed, f) && d < |store| && Reordered(c', store[d])
    ensures Holding(store[d := c'], freed, f)
  {
    SatReordered(store[d], c', {});
  }

  // ---------- The watch of a garbage clause is dropped ----------

  lemma DropWatch(s: Scan, x: Lit, freed: set<nat>, dead: set<nat>, done: set<Lit>, vals: set<Lit>, s': Scan)
    requires ListsOk(s, x, freed) && Listed(s, x, dead) && Settled(s, x, dead, done, vals)
    requires s.rest != [] && s.rest[0].id in dead && s' == s.(rest := s.rest[1..])
    ensures ListsOk(s', x, freed) && Listed(s', x, dead) && Settled(s', x, dead, done, vals)
  {
    var w := s.rest[0];
    assert (s.kept + s.rest)[|s.kept|] == w && List(s, x, x) == s.kept + s.rest;
    ListTail(s.store, x, s.kept, s.rest, w);
    SafeTail(s, freed, w);
    forall y: Lit ensures ListOk(s'.store, y, List(s', x, y)) && Safe(List(s', x, y), freed) {
      assert ListOk(s.store, y, List(s, x, y)) && Safe(List(s, x, y), freed);
    }
    IdsAppend(s.kept, s.rest);
    IdsAppend(s'.kept, s'.rest);
    IdsFirst(s.rest);
    forall d, i | 0 <= d < |s'.store| && d !in dead && 0 <= i < 2 ensures d in Ids(List(s', x, s'.store[d][i])) {
      assert d in Ids(List(s, x, s.store[d][i]));
    }
  }

  // ---------- The clause is watched by another literal ----------

  ghost predicate Moved(s: Scan, x: Lit, r: Lit, c': Clause, s': Scan) {
    && s.rest != [] && s.rest[0].id < |s.store| && |c'| > 2
    && var d := s.rest[0].id;
       var c := s.store[d];
    && Reordered(c', c) && r in c && r != c[0] && r != c[1] && c'[1] == r && r != x
    && ((c'[0] == c[0] && c[1] == x) || (c'[0] == c[1] && c[0] == x))
    && s' == Scan(s.store[d := c'], s.watchers[r := At(s.watchers, r) + [Watch(x, |c'|, d)]], s.kept, s.rest[1..])
  }

  lemma MoveLists(s: Scan, x: Lit, freed: set<nat>, r: Lit, c': Clause, s': Scan)
    requires ListsOk(s, x, freed) && Moved(s, x, r, c', s')
    ensures ListsOk(s', x, freed)
  {
    var w := s.rest[0];
    assert (s.kept + s.rest)[|s.kept|] == w && List(s, x, x) == s.kept + s.rest;
    assert ListOk(s.store, x, List(s, x, x));
    ListTail(s.store, x, s.kept, s.rest, w);
    SafeTail(s, freed, w);
    forall y: Lit ensures ListOk(s'.store, y, List(s', x, y)) && Safe(List(s', x, y), freed) {
      assert ListOk(s.store, y, List(s, x, y)) && Safe(List(s, x, y), freed);
      ListUnwatched(s.store, y, if y == x then s.kept + s.rest[1..] else At(s.watchers, y), w.id, c', x, r);
    }
  }

  lemma MoveListed(s: Scan, x: Lit, dead: set<nat>, r: Lit, c': Clause, s': Scan)
    requires Shape(s.store) && Listed(s, x, dead) && Moved(s, x, r, c', s')
    ensures Shape(s'.store) && Listed(s', x, dead)
  {
    var d0 := s.rest[0].id;
    IdsAppend(s.kept, s.rest);
    IdsAppend(s'.kept, s'.rest);
    IdsFirst(s.rest);
    IdsAppend(At(s.watchers, r), [Watch(x, |c'|, d0)]);
    IdsFirst([Watch(x, |c'|, d0)]);
    forall d, i | 0 <= d < |s'.store| && d !in dead && 0 <= i < 2 ensures d in Ids(List(s', x, s'.store[d][i])) {
      assert d in Ids(List(s, x, s.store[d][0])) && d in Ids(List(s, x, s.store[d][1]));
    }
  }

  lemma MoveSettled(s: Scan, x: Lit, dead: set<nat>, done: set<Lit>, vals: set<Lit>, r: Lit, c': Clause, s': Scan)
    requires Shape(s.store) && Settled(s, x, dead, done, vals) && Moved(s, x, r, c', s')
    requires Neg(r) !in done
    ensures Shape(s'.store) && Settled(s', x, dead, done, vals)
  {
    var d0 := s.rest[0].id;
    IdsFirst(s.rest);
    SatReordered(s.store[d0], c', vals);
    forall d, i | 0 <= d < |s'.store| && d !in dead && 0 <= i < 2 && Neg(s'.store[d][i]) in done
      ensures SatBy(s'.store[d], vals) || (s'.store[d][i] == x && d in Ids(s'.rest)) {
      if d == d0 {
        assert c'[0] == s.store[d][0] || c'[0] == s.store[d][1];
        assert s.store[d][0] != s.store[d][1];
      }
    }
  }

  // ---------- Visiting watches ----------

  // What holds of the clauses and lists whatever is assigned.
  ghost predicate Stable(s: Scan, x: int, freed: set<nat>, dead: set<nat>, root: set<Lit>, f: Clauses) {
    && ListsOk(s, x, freed) && Listed(s, x, dead) && Rooted(s.store, dead, root) && Holding(s.store, freed, f)
    && freed <= dead
  }

  lemma KeepStable(s: Scan, x: Lit, freed: set<nat>, dead: set<nat>, root: set<Lit>, f: Clauses, c': Clause,
        w': Watch, s': Scan)
    requires Stable(s, x, freed, dead, root, f) && s.rest != [] && w'.id == s.rest[0].id
    requires w'.id < |s.store|
    requires Reordered(c', s.store[w'.id]) && (c' == s.store[w'.id] || |c'| > 2)
    requires SameWatches(s.store[w'.id], c')
    requires Watched(s.store[w'.id], x, w')
    requires s' == Scan(s.store[w'.id := c'], s.watchers, s.kept + [w'], s.rest[1..])
    ensures Stable(s', x, freed, dead, root, f)
  {
    KeepLists(s, x, freed, c', w', s');
    KeepListed(s, x, dead, c', w', s');
    SwapRooted(s.store, dead, root, w'.id, c');
    SwapHolding(s.store, freed, f, w'.id, c');
  }

  lemma MoveStable(s: Scan, x: Lit, freed: set<nat>, dead: set<nat>, root: set<Lit>, f: Clauses, r: Lit, c': Clause,
        s': Scan)
    requires Stable(s, x, freed, dead, root, f) && Moved(s, x, r, c', s') && Neg(r) !in root
    ensures Stable(s', x, freed, dead, root, f)
  {
    MoveLists(s, x, freed, r, c', s');
    MoveListed(s, x, dead, r, c', s');
    SwapRooted(s.store, dead, root, s.rest[0].id, c');
    SwapHolding(s.store, freed, f, s.rest[0].id, c');
  }

  // The first watch of the rest leads to a stored clause.
  lemma FirstWatch(s: Scan, x: Lit, freed: set<nat>, dead: set<nat>, root: set<Lit>, f: Clauses)
    requires Stable(s, x, freed, dead, root, f) && s.rest != []
    ensures s.rest[0].id < |s.store| && s.rest[0].id !in freed && Lits(s.store[s.rest[0].id]) in f
    ensures Watched(s.store[s.rest[0].id], x, s.rest[0]) && NoDup(s.store[s.rest[0].id])
  {
    assert List(s, x, x)[|s.kept|] == s.rest[0];
    assert ListOk(s.store, x, List(s, x, x)) && Safe(List(s, x, x), freed);
  }

  // The meaning of one step for the assignment.
  ghost predicate StepOk(act: Step, s': Scan, x: Lit, dead: set<nat>, done: set<Lit>, vals: set<Lit>, f: Clauses)
    requires Shape(s'.store)
  {
    match act
    case Assign(l) => l !in vals && Neg(l) !in vals && Propagates(f, l, vals) && Settled(s', x, dead, done, vals + {l})
    case Stop => Conflict(f, vals)
    case _ => Settled(s', x, dead, done, vals)
  }

  method VisitWatch(s: Scan, x: Lit, dead: set<nat>, vals: set<Lit>, ghost freed: set<nat>, ghost done: set<Lit>,
        ghost root: set<Lit>, ghost f: Clauses)
    returns (act: Step, s': Scan)
    requires Stable(s, x, freed, dead, root, f) && Settled(s, x, dead, done, vals) && s.rest != []
    requires Neg(x) in vals && Consistent(vals) && done <= vals && root <= vals
    ensures Stable(s', x, freed, dead, root, f) && s'.rest == s.rest[1..]
    ensures SameSets(s.store, s'.store)
    ensures StepOk(act, s', x, dead, done, vals, f)
  {
    FirstWatch(s, x, freed, dead, root, f);
    var w := s.rest[0];
    ghost var c := s.store[w.id];
    s' := s.(kept := s.kept + [w], rest := s.rest[1..]);
    assert s' == Scan(s.store[w.id := c], s.watchers, s.kept + [w], s.rest[1..]);
    KeepStable(s, x, freed, dead, root, f, c, w, s');
    if w.blit in vals {
      act := Keep;
      KeepSettled(s, x, dead, done, vals, vals, c, w, s');
    } else if w.size == 2 {
      assert forall i :: 0 <= i < |c| ==> c[i] == x || c[i] == w.blit;
      if Neg(w.blit) in vals {
        act := Stop;
        assert Falsified(Lits(c), vals);
      } else {
        act := Assign(w.blit);
        assert UnitOn(Lits(c), w.blit, vals);
        KeepSettled(s, x, dead, done, vals, vals + {w.blit}, c, w, s');
      }
    } else if w.id in dead {
      act := Keep;
      s' := s'.(kept := s.kept);
      DropWatch(s, x, freed, dead, done, vals, s');
    } else {
      act, s' := ApplyVisit(s, x, dead, vals, freed, done, root, f);
    }
  }

  method ApplyVisit(s: Scan, x: Lit, dead: set<nat>, vals: set<Lit>, ghost freed: set<nat>, ghost done: set<Lit>,
        ghost root: set<Lit>, ghost f: Clauses)
    returns (act: Step, s': Scan)
    requires Stable(s, x, freed, dead, root, f) && Settled(s, x, dead, done, vals)
    requires s.rest != [] && s.rest[0].size != 2
    requires Neg(x) in vals && Consistent(vals) && done <= vals && root <= vals
    ensures Stable(s', x, freed, dead, root, f) && s'.rest == s.rest[1..]
    ensures SameSets(s.store, s'.store)
    ensures StepOk(act, s', x, dead, done, vals, f)
  {
    FirstWatch(s, x, freed, dead, root, f);
    var w, rest := s.rest[0], s.rest[1..];
    var c := s.store[w.id];
    var c', w';
    act, c', w' := VisitLong(c, x, w, vals);
    SatReordered(c, c', vals);
    if act.Unwatch? {
      var r := act.other;
      s' := Scan(s.store[w.id := c'], s.watchers[r := At(s.watchers, r) + [Watch(x, |c'|, w.id)]], s.kept, rest);
      MoveStable(s, x, freed, dead, root, f, r, c', s');
      MoveSettled(s, x, dead, done, vals, r, c', s');
    } else {
      s' := Scan(s.store[w.id := c'], s.watchers, s.kept + [w'], rest);
      KeepStable(s, x, freed, dead, root, f, c', w', s');
      if act.Keep? {
        KeepSettled(s, x, dead, done, vals, vals, c', w', s');
      } else if act.Assign? {
        assert SatBy(c', vals + {act.lit});
        KeepSettled(s, x, dead, done, vals, vals + {act.lit}, c', w', s');
      }
    }
  }

  lemma OpenScan(store: seq<Clause>, watchers: map<Lit, seq<Watch>>, x: Lit, freed: set<nat>, dead: set<nat>,
        root: set<Lit>, f: Clauses, done: set<Lit>, vals: set<Lit>)
    requires Stable(Scan(store, watchers, [], []), 0, freed, dead, root, f)
    requires Settled(Scan(store, watchers, [], []), 0, dead, done, vals)
    ensures Stable(Scan(store, watchers, [], At(watchers, x)), x, freed, dead, root, f)
    ensures Settled(Scan(store, watchers, [], At(watchers, x)), x, dead, done + {Neg(x)}, vals)
  {
    var s, s' := Scan(store, watchers, [], []), Scan(store, watchers, [], At(watchers, x));
    assert s'.kept + s'.rest == At(watchers, x);
    forall y: Lit ensures List(s', x, y) == List(s, 0, y) {}
    forall d, i | 0 <= d < |store| && d !in dead && 0 <= i < 2 && Neg(store[d][i]) in done + {Neg(x)}
      ensures SatBy(store[d], vals) || (store[d][i] == x && d in Ids(s'.rest)) {
      assert Neg(Neg(x)) == x && Neg(Neg(store[d][i])) == store[d][i];
      assert d in Ids(List(s, 0, store[d][i]));
    }
  }

  lemma CloseScan(s: Scan, x: Lit, freed: set<nat>, dead: set<nat>, root: set<Lit>, f: Clauses)
    requires Stable(s, x, freed, dead, root, f)
    ensures Stable(Scan(s.store, s.watchers[x := s.kept + s.rest], [], []), 0, freed, dead, root, f)
  {
    var s' := Scan(s.store, s.watchers[x := s.kept + s.rest], [], []);
    forall y: Lit ensures List(s', 0, y) == List(s, x, y) {}
    assert forall y: Lit :: ListOk(s.store, y, List(s, x, y)) && Safe(List(s, x, y), freed);
  }

  lemma CloseSettled(s: Scan, x: Lit, dead: set<nat>, done: set<Lit>, vals: set<Lit>, watchers: map<Lit, seq<Watch>>)
    requires Shape(s.store) && Settled(s, x, dead, done, vals) && s.rest == []
    ensures Settled(Scan(s.store, watchers, [], []), 0, dead, done, vals)
  {
    assert Ids([]) == {};
  }

  // ---------- Fixpoints ----------

  function LiveSets(store: seq<Clause>, dead: set<nat>): Clauses {
    set d | 0 <= d < |store| && d !in dead :: Lits(store[d])
  }

  // When every false watch has been visited the assignment is a fixpoint for the live clauses.
  lemma SettledFixpoint(store: seq<Clause>, watchers: map<Lit, seq<Watch>>, dead: set<nat>, vals: set<Lit>)
    requires Shape(store) && Settled(Scan(store, watchers, [], []), 0, dead, vals, vals)
    ensures Fixpoint(LiveSets(store, dead) + Units(vals), vals)
  {
    var s := Scan(store, watchers, [], []);
    forall c | c in LiveSets(store, dead) + Units(vals) ensures (exists l :: l in c && l in vals) || TwoOpen(c, vals) {
      if c in Units(vals) {
        var u :| u in vals && c == {u};
        assert u in c;
      } else {
        var d :| 0 <= d < |store| && d !in dead && c == Lits(store[d]);
        var k, l := store[d][0], store[d][1];
        assert Neg(s.store[d][0]) in vals || Neg(s.store[d][1]) in vals ==> SatBy(store[d], vals);
        assert k in c && l in c && k != l;
      }
    }
  }

  lemma RootedSettled(store: seq<Clause>, watchers: map<Lit, seq<Watch>>, dead: set<nat>, root: set<Lit>,
        vals: set<Lit>)
    requires Shape(store) && Rooted(store, dead, root) && root <= vals
    ensures Settled(Scan(store, watchers, [], []), 0, dead, root, vals)
  {
    forall d, i | 0 <= d < |store| && d !in dead && 0 <= i < 2 && Neg(store[d][i]) in root
      ensures SatBy(store[d], vals)
    {
      var l :| l in store[d] && l in root;
    }
  }
}
