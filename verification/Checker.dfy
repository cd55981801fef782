// The online forward proof checker (src/checker.cpp).
module Checker {
  import opened Cnf
  import opened Watching
  import opened UnitPropagation
  import opened CheckerWatches
  import opened CheckerTable

  ghost predicate Within(f: Clauses, universe: set<Lit>) {
    forall c, l :: c in f && l in c ==> l in universe
  }

  lemma TrailBound(trail: seq<Lit>, universe: set<Lit>)
    requires NoDup(trail) && Lits(trail) <= universe
    ensures |trail| <= |universe|
  {
    NoDupSize(trail);
    assert |universe - Lits(trail)| == |universe| - |Lits(trail)|;
  }

  // One more literal derived.
  lemma AssignDerived(f: Clauses, start: set<Lit>, trail: seq<Lit>, vals: set<Lit>, l: Lit, universe: set<Lit>)
    requires vals == Lits(trail) && NoDup(trail) && Consistent(vals) && vals <= universe
    requires Within(f, universe) && Derives(f, start, trail)
    requires l !in vals && Neg(l) !in vals && Propagates(f, l, vals)
    ensures vals + {l} == Lits(trail + [l]) && NoDup(trail + [l]) && Consistent(vals + {l})
    ensures vals + {l} <= universe && Derives(f, start, trail + [l])
  {
    LitsSnoc(trail, l);
    DerivesSnoc(f, start, trail, l);
    ConsistentSnoc(vals, l);
    var c :| c in f && UnitOn(c, l, vals);
    assert l in c;
  }

  lemma ConsistentSnoc(vals: set<Lit>, l: Lit)
    requires Consistent(vals) && l !in vals && Neg(l) !in vals
    ensures Consistent(vals + {l})
  {
    forall k | k in vals + {l} ensures Neg(k) !in vals + {l} {
      assert Neg(k) == l ==> k == Neg(l);
    }
  }

  function Literals(f: Clauses): (u: set<Lit>)
    ensures Within(f, u)
  {
    set c, l | c in f && l in c :: l
  }

  lemma SameStored(store: seq<Clause>, store': seq<Clause>, hidden: set<nat>)
    requires SameSets(store, store')
    ensures LiveSets(store, hidden) == LiveSets(store', hidden)
  {
    forall c ensures c in LiveSets(store, hidden) <==> c in LiveSets(store', hidden) {
      if c in LiveSets(store, hidden) {
        var d :| 0 <= d < |store| && d !in hidden && c == Lits(store[d]);
        assert c == Lits(store'[d]);
      }
      if c in LiveSets(store', hidden) {
        var d :| 0 <= d < |store'| && d !in hidden && c == Lits(store'[d]);
        assert c == Lits(store[d]);
      }
    }
  }

  // Root-level literals count as unit clauses.
  lemma RootDerives(f: Clauses, start: set<Lit>, trail: seq<Lit>)
    requires Units(Lits(trail)) <= f
    ensures Derives(f, start, trail)
  {
    forall i | 0 <= i < |trail| ensures Propagates(f, trail[i], Lits(trail[..i])) {
      assert trail[i] in Lits(trail);
      assert {trail[i]} in Units(Lits(trail));
      assert UnitOn({trail[i]}, trail[i], Lits(trail[..i]));
    }
  }

  lemma StableFor(s: Scan, freed: set<nat>, dead: set<nat>, root: set<Lit>, f: Clauses, f': Clauses)
    requires Stable(s, 0, freed, dead, root, f) && LiveSets(s.store, freed) <= f'
    ensures Stable(s, 0, freed, dead, root, f')
  {
    forall d | 0 <= d < |s.store| && d !in freed ensures Lits(s.store[d]) in f' {
      assert Lits(s.store[d]) in LiveSets(s.store, freed);
    }
  }

  // Sandwich: what propagation decides about the assumed clause.
  lemma CheckMeaning(store: seq<Clause>, watchers: map<Lit, seq<Watch>>, dead: set<nat>, root: set<Lit>,
        vals: set<Lit>, c: set<Lit>)
    requires Shape(store) && Settled(Scan(store, watchers, [], []), 0, dead, vals, vals)
    requires Consistent(vals)
    requires root <= vals && Negated(c) <= vals
    ensures !Rup(LiveSets(store, dead) + Units(root), c)
  {
    SettledFixpoint(store, watchers, dead, vals);
    var f, f' := LiveSets(store, dead) + Units(vals), LiveSets(store, dead) + Units(root);
    assert Fixpoint(f', vals) by {
      forall d | d in f' ensures d in f {
        if d in Units(root) {
          var u :| u in root && d == {u};
        }
      }
    }
    NoRup(f', vals, c);
  }

  // ---------- Counting clauses ----------

  ghost predicate Living(live: set<nat>, n: nat, dead: set<nat>) {
    (forall d: nat :: d in live <==> d < n && d !in dead) && (forall d :: d in dead ==> d < n)
  }

  // The live clauses with exactly the literals in s.
  ghost function Holders(store: seq<Clause>, dead: set<nat>, s: set<Lit>): (r: set<nat>)
    ensures forall d: nat :: d in r <==> d < |store| && d !in dead && Lits(store[d]) == s
  {
    set d | 0 <= d < |store| && d !in dead && Lits(store[d]) == s
  }

  // Clauses that are neither satisfied at the root level nor tautological are
  // in the table as often as they have been added and not deleted.
  ghost predicate Booked(book: multiset<set<Lit>>, store: seq<Clause>, dead: set<nat>, vals: set<Lit>) {
    forall s: set<Lit> :: !TautologySet(s) && s !! vals ==> book[s] == |Holders(store, dead, s)|
  }

  lemma BookedSame(book: multiset<set<Lit>>, store: seq<Clause>, store': seq<Clause>, dead: set<nat>, vals: set<Lit>,
        vals': set<Lit>)
    requires Booked(book, store, dead, vals) && SameSets(store, store') && vals <= vals'
    ensures Booked(book, store', dead, vals')
  {
    forall s: set<Lit> | !TautologySet(s) && s !! vals' ensures book[s] == |Holders(store', dead, s)| {
      assert s !! vals;
      assert Holders(store, dead, s) == Holders(store', dead, s);
    }
  }

  // A tautological or satisfied clause is not counted.
  lemma BookedIgnored(book: multiset<set<Lit>>, store: seq<Clause>, dead: set<nat>, vals: set<Lit>, s: set<Lit>,
        book': multiset<set<Lit>>)
    requires Booked(book, store, dead, vals) && (TautologySet(s) || !(s !! vals))
    requires forall t :: t != s ==> book'[t] == book[t]
    ensures Booked(book', store, dead, vals)
  {
  }

  lemma BookedInsert(book: multiset<set<Lit>>, store: seq<Clause>, dead: set<nat>, vals: set<Lit>, c: Clause)
    requires Booked(book, store, dead, vals) && forall d :: d in dead ==> d < |store|
    ensures Booked(book + multiset{Lits(c)}, store + [c], dead, vals)
  {
    forall s: set<Lit> | !TautologySet(s) && s !! vals
      ensures (book + multiset{Lits(c)})[s] == |Holders(store + [c], dead, s)|
    {
      assert book[s] == |Holders(store, dead, s)|;
      HoldersInsert(store, dead, c, s);
    }
  }

  lemma HoldersInsert(store: seq<Clause>, dead: set<nat>, c: Clause, s: set<Lit>)
    requires forall d :: d in dead ==> d < |store|
    ensures |Holders(store + [c], dead, s)| == |Holders(store, dead, s)| + if s == Lits(c) then 1 else 0
  {
    var store' := store + [c];
    assert forall d :: 0 <= d < |store| ==> store'[d] == store[d];
    if s == Lits(c) {
      assert Holders(store', dead, s) == Holders(store, dead, s) + {|store|};
    } else {
      assert Holders(store', dead, s) == Holders(store, dead, s);
    }
  }

  lemma BookedDelete(book: multiset<set<Lit>>, store: seq<Clause>, dead: set<nat>, vals: set<Lit>, d: nat)
    requires Booked(book, store, dead, vals) && d < |store| && d !in dead
    ensures Booked(book - multiset{Lits(store[d])}, store, dead + {d}, vals)
  {
    var book' := book - multiset{Lits(store[d])};
    forall s: set<Lit> | !TautologySet(s) && s !! vals ensures book'[s] == |Holders(store, dead + {d}, s)| {
      assert book[s] == |Holders(store, dead, s)|;
      if s == Lits(store[d]) {
        assert d in Holders(store, dead, s);
        assert Holders(store, dead + {d}, s) == Holders(store, dead, s) - {d};
      } else {
        assert Holders(store, dead + {d}, s) == Holders(store, dead, s);
      }
    }
  }

  // Removing satisfied clauses changes nothing.
  lemma BookedSatisfied(book: multiset<set<Lit>>, store: seq<Clause>, dead: set<nat>, vals: set<Lit>, d: nat)
    requires Booked(book, store, dead, vals) && d < |store| && SatBy(store[d], vals)
    ensures Booked(book, store, dead + {d}, vals)
  {
    forall s: set<Lit> | !TautologySet(s) && s !! vals ensures book[s] == |Holders(store, dead + {d}, s)| {
      assert Lits(store[d]) != s by {
        var l :| l in store[d] && l in vals;
        assert l in Lits(store[d]);
      }
      assert Holders(store, dead + {d}, s) == Holders(store, dead, s);
    }
  }

  // ---------- Watches of a new clause ----------

  // Move literals that are not false to the first two places.
  method PickWatches(s: Clause, vals: set<Lit>, ghost i0: nat, ghost j0: nat) returns (c: Clause)
    requires NoDup(s) && i0 < j0 < |s| && Neg(s[i0]) !in vals && Neg(s[j0]) !in vals
    requires forall l :: l in s ==> l !in vals
    ensures Reordered(c, s) && |c| >= 2 && Neg(c[0]) !in vals && Neg(c[1]) !in vals
  {
    var k := PickOne(s, vals, 0, i0);
    c := SwapAt(s, 0, k);
    k := PickOne(c, vals, 1, j0);
    c := SwapAt(c, 1, k);
  }

  method PickOne(c: Clause, vals: set<Lit>, i: nat, ghost k0: nat) returns (k: nat)
    requires i <= k0 < |c| && Neg(c[k0]) !in vals
    ensures i <= k <= k0 && Neg(c[k]) !in vals && (Neg(c[i]) !in vals ==> k == i)
  {
    k := i;
    while Neg(c[k]) in vals
      invariant i <= k <= k0 && forall j :: i <= j < k ==> Neg(c[j]) in vals
      decreases k0 - k
    {
      k := k + 1;
    }
  }

  method SwapAt(c: Clause, i: nat, k: nat) returns (r: Clause)
    requires NoDup(c) && i <= k < |c|
    ensures r == c[i := c[k]][k := c[i]] && Reordered(r, c)
  {
    r := c[i := c[k]][k := c[i]];
    assert r[i] == c[k] && r[k] == c[i];
    forall l | l in c ensures l in r {
      var j :| 0 <= j < |c| && c[j] == l;
      assert j != i && j != k ==> r[j] == l;
    }
  }

  function WatchNew(watchers: map<Lit, seq<Watch>>, c: Clause, d: nat): map<Lit, seq<Watch>>
    requires |c| >= 2
  {
    var w := watchers[c[0] := At(watchers, c[0]) + [Watch(c[1], |c|, d)]];
    w[c[1] := At(w, c[1]) + [Watch(c[0], |c|, d)]]
  }

  lemma ListExtended(store: seq<Clause>, y: Lit, ws: seq<Watch>, c: Clause, freed: set<nat>)
    requires ListOk(store, y, ws) && Safe(ws, freed)
    ensures ListOk(store + [c], y, ws)
    ensures forall w: Watch :: w.id == |store| && w.id !in freed && Watched(c, y, w) ==>
      ListOk(store + [c], y, ws + [w]) && Safe(ws + [w], freed)
  {
    forall w: Watch | w.id == |store| && w.id !in freed && Watched(c, y, w)
      ensures ListOk(store + [c], y, ws + [w]) && Safe(ws + [w], freed)
    {
      assert (store + [c])[|store|] == c;
    }
  }

  lemma InsertLists(store: seq<Clause>, watchers: map<Lit, seq<Watch>>, freed: set<nat>, c: Clause)
    requires ListsOk(Scan(store, watchers, [], []), 0, freed) && |store| !in freed && NoDup(c)
    requires |c| >= 2
    ensures ListsOk(Scan(store + [c], WatchNew(watchers, c, |store|), [], []), 0, freed)
  {
    var s, s' := Scan(store, watchers, [], []), Scan(store + [c], WatchNew(watchers, c, |store|), [], []);
    var a, b := Watch(c[1], |c|, |store|), Watch(c[0], |c|, |store|);
    assert c[0] != c[1] && Watched(c, c[0], a) && Watched(c, c[1], b);
    forall y: Lit ensures ListOk(s'.store, y, List(s', 0, y)) && Safe(List(s', 0, y), freed) {
      assert ListOk(store, y, List(s, 0, y)) && Safe(List(s, 0, y), freed);
      ListExtended(store, y, At(watchers, y), c, freed);
      assert List(s', 0, y) == if y == c[0] then At(watchers, y) + [a] else if y == c[1] then At(watchers, y) + [b]
        else At(watchers, y);
    }
    assert Shape(s'.store);
  }

  lemma InsertListed(store: seq<Clause>, watchers: map<Lit, seq<Watch>>, dead: set<nat>, c: Clause)
    requires Shape(store) && Listed(Scan(store, watchers, [], []), 0, dead) && NoDup(c)
    requires |c| >= 2
    ensures Shape(store + [c])
    ensures Listed(Scan(store + [c], WatchNew(watchers, c, |store|), [], []), 0, dead)
  {
    var s, s' := Scan(store, watchers, [], []), Scan(store + [c], WatchNew(watchers, c, |store|), [], []);
    var a, b := Watch(c[1], |c|, |store|), Watch(c[0], |c|, |store|);
    IdsAppend(At(watchers, c[0]), [a]);
    IdsAppend(At(watchers, c[1]), [b]);
    IdsFirst([a]);
    IdsFirst([b]);
    forall d, i | 0 <= d < |s'.store| && d !in dead && 0 <= i < 2 ensures d in Ids(List(s', 0, s'.store[d][i])) {
      if d < |store| { assert d in Ids(List(s, 0, store[d][i])); }
    }
  }

  lemma InsertStable(store: seq<Clause>, watchers: map<Lit, seq<Watch>>, freed: set<nat>, dead: set<nat>,
        vals: set<Lit>, c: Clause)
    requires Stable(Scan(store, watchers, [], []), 0, freed, dead, vals, LiveSets(store, freed))
    requires |store| !in dead
    requires NoDup(c) && |c| >= 2 && Neg(c[0]) !in vals && Neg(c[1]) !in vals
    ensures Stable(Scan(store + [c], WatchNew(watchers, c, |store|), [], []), 0, freed, dead, vals,
      LiveSets(store + [c], freed))
  {
    InsertLists(store, watchers, freed, c);
    InsertListed(store, watchers, dead, c);
    InsertRooted(store, dead, vals, c);
    InsertHolding(store, freed, c);
  }

  lemma InsertRooted(store: seq<Clause>, dead: set<nat>, vals: set<Lit>, c: Clause)
    requires Shape(store) && Rooted(store, dead, vals) && NoDup(c) && |c| >= 2
    requires Neg(c[0]) !in vals && Neg(c[1]) !in vals
    ensures Shape(store + [c]) && Rooted(store + [c], dead, vals)
  {
    var store' := store + [c];
    forall d, i | 0 <= d < |store'| && d !in dead && 0 <= i < 2 && Neg(store'[d][i]) in vals
      ensures SatBy(store'[d], vals)
    {
      assert d < |store| && store'[d] == store[d];
    }
  }

  lemma InsertHolding(store: seq<Clause>, freed: set<nat>, c: Clause)
    ensures Holding(store + [c], freed, LiveSets(store + [c], freed))
  {
  }

  lemma LivingEnter(g: Ledger, n: nat, dead: set<nat>)
    requires Living(g.live, n, dead)
    ensures Living(g.live + {n}, n + 1, dead)
  {
  }

  // No literal of the clause is not false, one, or at least two.
  method CountOpen(s: Clause, vals: set<Lit>) returns (open: nat, i: nat, j: nat)
    ensures open <= 2
    ensures open == 0 ==> Falsified(Lits(s), vals)
    ensures open == 1 ==> i < |s| && Neg(s[i]) !in vals && UnitOn(Lits(s), s[i], vals)
    ensures open == 2 ==> i < j < |s| && Neg(s[i]) !in vals && Neg(s[j]) !in vals
  {
    open, i, j := 0, 0, 0;
    for k := 0 to |s|
      invariant open <= 1
      invariant open == 0 ==> forall l :: 0 <= l < k ==> Neg(s[l]) in vals
      invariant open == 1 ==> i < k && Neg(s[i]) !in vals && forall l :: 0 <= l < k && l != i ==> Neg(s[l]) in vals
    {
      if Neg(s[k]) !in vals {
        if open == 1 { return 2, i, k; }
        open, i := 1, k;
      }
    }
  }

  // Deleting succeeds, finds no such clause, or violates the assertion that the table is not empty.
  datatype Deletion = Deleted | NotInProof | EmptyTable

  class Checker {
    const nonces: seq<nat>
    var vals: set<Lit>                    // true literals
    var trail: seq<Lit>
    var next: nat                         // next literal to propagate
    var store: seq<Clause>                // all clauses ever allocated
    var watchers: map<Lit, seq<Watch>>
    var table: Table
    var sizeVars: nat
    var inconsistent: bool
    ghost var ledger: Ledger
    ghost var originals: Formula

    // The assignment and everything propagation relies on.
    ghost predicate Engine(root: set<Lit>, f: Clauses, start: set<Lit>, universe: set<Lit>)
      reads this
    {
      && Stable(Scan(store, watchers, [], []), 0, ledger.freed, table.dead, root, f)
      && Assignment(universe) && next <= |trail| && root <= vals && Derives(f, start, trail) && Within(f, universe)
    }

    ghost predicate Assignment(universe: set<Lit>)
      reads this
    {
      vals == Lits(trail) && NoDup(trail) && Consistent(vals) && vals <= universe
    }

    ghost predicate Visited()
      reads this
      requires Shape(store) && next <= |trail|
    {
      Settled(Scan(store, watchers, [], []), 0, table.dead, Lits(trail[..next]), vals)
    }

    method Propagate(ghost root: set<Lit>, ghost f: Clauses, ghost start: set<Lit>, ghost universe: set<Lit>)
      returns (res: bool)
      requires Engine(root, f, start, universe) && Visited()
      modifies this`vals, this`trail, this`next, this`store, this`watchers
      ensures Engine(root, f, start, universe) && SameSets(old(store), store)
      ensures |trail| >= |old(trail)| && trail[..|old(trail)|] == old(trail)
      ensures res ==> Settled(Scan(store, watchers, [], []), 0, table.dead, vals, vals) && next == |trail|
      ensures !res ==> Conflict(f, vals)
    {
      res := true;
      while res && next < |trail|
        invariant Engine(root, f, start, universe) && SameSets(old(store), store)
        invariant |trail| >= |old(trail)| && trail[..|old(trail)|] == old(trail)
        invariant res ==> Visited()
        invariant !res ==> Conflict(f, vals)
        decreases res, |universe| - next
      {
        res := PropagateNext(root, f, start, universe);
        TrailBound(trail, universe);
      }
      assert trail[..|trail|] == trail;
    }

    method PropagateNext(ghost root: set<Lit>, ghost f: Clauses, ghost start: set<Lit>, ghost universe: set<Lit>)
      returns (res: bool)
      requires Engine(root, f, start, universe) && Visited() && next < |trail|
      modifies this`vals, this`trail, this`next, this`store, this`watchers
      ensures Engine(root, f, start, universe) && SameSets(old(store), store)
      ensures next == old(next) + 1
      ensures |trail| >= |old(trail)| && trail[..|old(trail)|] == old(trail)
      ensures res ==> Visited()
      ensures !res ==> Conflict(f, vals)
    {
      var lit := trail[next];
      var x := Neg(lit);
      ghost var done := Lits(trail[..next]) + {lit};
      assert done == Lits(trail[..next + 1]) by {
        assert trail[..next + 1] == trail[..next] + [lit];
        LitsSnoc(trail[..next], lit);
      }
      assert Neg(x) == lit;
      next := next + 1;
      OpenScan(store, watchers, x, ledger.freed, table.dead, root, f, Lits(trail[..next - 1]), vals);
      var s := Scan(store, watchers, [], At(watchers, x));
      s, res := PropagateList(s, x, done, root, f, start, universe);
      CloseScan(s, x, ledger.freed, table.dead, root, f);
      store, watchers := s.store, s.watchers[x := s.kept + s.rest];
      if res {
        CloseSettled(s, x, table.dead, done, vals, watchers);
        assert trail[..next] == old(trail[..next + 1]);
      }
    }

    method PropagateList(s0: Scan, x: Lit, ghost done: set<Lit>, ghost root: set<Lit>, ghost f: Clauses,
          ghost start: set<Lit>, ghost universe: set<Lit>)
      returns (s: Scan, res: bool)
      requires Stable(s0, x, ledger.freed, table.dead, root, f)
      requires Settled(s0, x, table.dead, done, vals) && Neg(x) in vals && done <= vals
      requires Assignment(universe) && root <= vals && Derives(f, start, trail)
      requires Within(f, universe)
      modifies this`vals, this`trail
      ensures Stable(s, x, ledger.freed, table.dead, root, f) && SameSets(s0.store, s.store)
      ensures Assignment(universe) && root <= vals && Derives(f, start, trail)
      ensures |trail| >= |old(trail)| && trail[..|old(trail)|] == old(trail)
      ensures res ==> Settled(s, x, table.dead, done, vals) && s.rest == []
      ensures !res ==> Conflict(f, vals)
    {
      s, res := s0, true;
      while res && s.rest != []
        invariant Stable(s, x, ledger.freed, table.dead, root, f) && SameSets(s0.store, s.store)
        invariant Neg(x) in vals && done <= vals
        invariant Assignment(universe) && root <= vals && Derives(f, start, trail)
        invariant |trail| >= |old(trail)| && trail[..|old(trail)|] == old(trail)
        invariant res ==> Settled(s, x, table.dead, done, vals)
        invariant !res ==> Conflict(f, vals)
        decreases res, |s.rest|
      {
        var act;
        act, s := VisitWatch(s, x, table.dead, vals, ledger.freed, done, root, f);
        if act.Assign? {
          AssignDerived(f, start, trail, vals, act.lit, universe);
          vals, trail := vals + {act.lit}, trail + [act.lit];
        } else if act.Stop? {
          res := false;
        }
      }
    }

    // Propagation at the root level is complete.
    ghost predicate Root()
      reads this
    {
      && Stable(Scan(store, watchers, [], []), 0, ledger.freed, table.dead, vals, LiveSets(store, ledger.freed))
      && vals == Lits(trail) && NoDup(trail) && Consistent(vals) && next == |trail|
    }

    method Backtrack(previous: nat)
      requires previous <= |trail| && vals == Lits(trail) && NoDup(trail)
      modifies this`vals, this`trail, this`next
      ensures trail == old(trail)[..previous] && vals == Lits(trail) && next == previous
    {
      while |trail| > previous
        invariant |trail| >= previous && trail == old(trail)[..|trail|] && vals == Lits(trail)
        invariant NoDup(trail)
      {
        var n := |trail| - 1;
        var lit := trail[n];
        assert trail == trail[..n] + [lit];
        LitsSnoc(trail[..n], lit);
        vals := vals - {lit};
        trail := trail[..n];
      }
      next := previous;
    }

    // Assume the negation of every literal of the clause.
    method AssumeAll(s: Clause, ghost f: Clauses, ghost universe: set<Lit>)
      requires Assignment(universe) && Derives(f, Negated(Lits(s)), trail)
      requires Negated(Lits(s)) <= universe
      requires !TautologySet(Lits(s)) && forall l :: l in s ==> l !in vals
      modifies this`vals, this`trail
      ensures Assignment(universe) && Derives(f, Negated(Lits(s)), trail)
      ensures Negated(Lits(s)) <= vals
      ensures |trail| >= |old(trail)| && trail[..|old(trail)|] == old(trail)
    {
      for i := 0 to |s|
        invariant Assignment(universe) && Derives(f, Negated(Lits(s)), trail)
        invariant |trail| >= |old(trail)| && trail[..|old(trail)|] == old(trail)
        invariant forall k :: 0 <= k < i ==> Neg(s[k]) in vals
        invariant forall k :: 0 <= k < |s| ==> s[k] !in vals
      {
        var l := Neg(s[i]);
        assert s[i] in Lits(s) && l in Negated(Lits(s)) && Neg(l) == s[i];
        if l !in vals {
          LitsSnoc(trail, l);
          ConsistentSnoc(vals, l);
          DerivesSnoc(f, Negated(Lits(s)), trail, l);
          assert forall k :: 0 <= k < |s| ==> s[k] in Lits(s) && Neg(s[k]) in Negated(Lits(s));
          vals, trail := vals + {l}, trail + [l];
        }
      }
      forall k | k in Negated(Lits(s)) ensures k in vals {
        var l :| l in Lits(s) && k == Neg(l);
        assert l in s;
      }
    }

    // Exactly the clauses with the reverse unit propagation property for the
    // live clauses pass, except that garbage clauses may still be used.
    method Check(s: Clause) returns (res: bool)
      requires Root() && !TautologySet(Lits(s)) && forall l :: l in s ==> l !in vals
      modifies this`vals, this`trail, this`next, this`store, this`watchers
      ensures Root() && vals == old(vals) && trail == old(trail) && SameSets(old(store), store)
      ensures res ==> Rup(LiveSets(store, ledger.freed) + Units(vals), Lits(s))
      ensures Rup(LiveSets(store, table.dead) + Units(vals), Lits(s)) ==> res
    {
      var previous := next;
      ghost var root := vals;
      ghost var f := LiveSets(store, ledger.freed) + Units(root);
      var ok := Refute(s, f);
      res := !ok;
      SameStored(old(store), store, ledger.freed);
      SameStored(old(store), store, table.dead);
      StableFor(Scan(store, watchers, [], []), ledger.freed, table.dead, root, f, LiveSets(store, ledger.freed));
      Backtrack(previous);
    }

    method AssumeNegation(s: Clause, ghost f: Clauses, ghost universe: set<Lit>)
      requires Root() && f == LiveSets(store, ledger.freed) + Units(vals) && !TautologySet(Lits(s))
      requires forall l :: l in s ==> l !in vals
      requires universe == Literals(f) + vals + Negated(Lits(s))
      modifies this`vals, this`trail
      ensures Engine(old(vals), f, Negated(Lits(s)), universe) && Visited()
      ensures Negated(Lits(s)) <= vals
      ensures |trail| >= |old(trail)| && trail[..|old(trail)|] == old(trail)
    {
      ghost var root := vals;
      RootDerives(f, Negated(Lits(s)), trail);
      AssumeAll(s, f, universe);
      StableFor(Scan(store, watchers, [], []), ledger.freed, table.dead, root, LiveSets(store, ledger.freed), f);
      RootedSettled(store, watchers, table.dead, root, vals);
    }

    // Assume and propagate.
    method Refute(s: Clause, ghost f: Clauses) returns (ok: bool)
      requires Root() && f == LiveSets(store, ledger.freed) + Units(vals) && !TautologySet(Lits(s))
      requires forall l :: l in s ==> l !in vals
      modifies this`vals, this`trail, this`next, this`store, this`watchers
      ensures Stable(Scan(store, watchers, [], []), 0, ledger.freed, table.dead, old(vals), f)
      ensures SameSets(old(store), store)
      ensures vals == Lits(trail) && NoDup(trail) && |trail| >= |old(trail)|
      ensures trail[..|old(trail)|] == old(trail)
      ensures !ok ==> Rup(f, Lits(s))
      ensures ok ==> !Rup(LiveSets(store, table.dead) + Units(old(vals)), Lits(s))
    {
      ghost var root, start := vals, Negated(Lits(s));
      ghost var universe := Literals(f) + root + start;
      AssumeNegation(s, f, universe);
      ok := Propagate(root, f, start, universe);
      if ok {
        CheckMeaning(store, watchers, table.dead, root, vals, Lits(s));
      } else {
        assert Derives(f, start, trail) && Conflict(f, Lits(trail));
      }
    }

    lemma RootFixpoint()
      requires Root()
      ensures Fixpoint(LiveSets(store, table.dead) + Units(vals), vals)
    {
      RootedSettled(store, watchers, table.dead, vals, vals);
      SettledFixpoint(store, watchers, table.dead, vals);
    }

    // The table holds the live clauses and the counters are exact.
    ghost predicate Tabled()
      reads this
    {
      Accounts(table, ledger, store, nonces)
    }

    // Everything stored, garbage or not, and the root-level assignment follow from the original clauses.
    ghost predicate Sound()
      reads this
    {
      forall m: Model :: Models(m, originals) ==> Agrees(m, vals) && StoreHolds(m, store)
    }

    ghost predicate Valid()
      reads this
    {
      (inconsistent && Unsatisfiable(originals)) || (!inconsistent && Good())
    }

    constructor (nonces: seq<nat>)
      requires nonces != []
      ensures Valid() && !inconsistent && originals == {} && ledger.book == multiset{}
      ensures vals == {} && store == [] && table.chains == []
    {
      this.nonces := nonces;
      vals, trail, next, store, watchers, sizeVars, inconsistent := {}, [], 0, [], map[], 0, false;
      table, ledger, originals := Table([], [], 0, {}, [], 0), Ledger({}, [], [], {}, multiset{}), {};
      new;
      assert forall s: set<Lit> :: Holders([], {}, s) == {};
    }

    method Insert(s: Clause, ghost i0: nat, ghost j0: nat)
      requires Root() && Tabled() && Sound() && Booked(ledger.book, store, table.dead, vals)
      requires Canonical(s)
      requires i0 < j0 < |s| && Neg(s[i0]) !in vals && Neg(s[j0]) !in vals
      requires forall l :: l in s ==> l !in vals
      requires forall m: Model :: Models(m, originals) ==> SetSat(m, Lits(s))
      modifies this`store, this`watchers, this`table, this`ledger
      ensures Root() && Tabled() && Sound() && Booked(ledger.book, store, table.dead, vals)
      ensures ledger.book == old(ledger).book + multiset{Lits(s)}
    {
      CanonicalNoDup(s);
      var c := PickWatches(s, vals, i0, j0);
      SatReordered(s, c, {});
      BookedInsert(ledger.book, store, table.dead, vals, c);
      SoundInsert(originals, store, c, vals);
      EnterClause(c, s);
      WatchClause(c);
    }

    method EnterClause(c: Clause, s: Clause)
      requires Tabled() && Canonical(s) && |c| == |s| && Lits(c) == Lits(s)
      modifies this`table, this`ledger
      ensures Accounts(table, ledger, store + [c], nonces)
      ensures ledger.book == old(ledger).book + multiset{Lits(s)}
      ensures table.dead == old(table).dead && ledger.freed == old(ledger).freed
    {
      ghost var g;
      LivingEnter(ledger, |store|, table.dead);
      table, g := InsertInTable(table, s, c, store, nonces, ledger);
      ledger := g;
    }

    method WatchClause(c: Clause)
      requires Root() && Accounts(table, ledger, store + [c], nonces)
      requires Booked(ledger.book, store + [c], table.dead, vals)
      requires forall m: Model :: Models(m, originals) ==> Agrees(m, vals) && StoreHolds(m, store + [c])
      requires |store| !in table.dead && NoDup(c) && |c| >= 2 && Neg(c[0]) !in vals
      requires Neg(c[1]) !in vals
      modifies this`store, this`watchers
      ensures Root() && Tabled() && Sound() && Booked(ledger.book, store, table.dead, vals)
    {
      InsertStable(store, watchers, ledger.freed, table.dead, vals, c);
      watchers := WatchNew(watchers, c, |store|);
      store := store + [c];
    }

    // A unit under the root-level assignment is assigned and propagated.
    method AddUnit(unit: Lit, ghost s: set<Lit>) returns (ok: bool)
      requires Root() && Sound() && UnitOn(s, unit, vals) && unit !in vals && Neg(unit) !in vals
      requires forall m: Model :: Models(m, originals) ==> SetSat(m, s)
      modifies this`vals, this`trail, this`next, this`store, this`watchers
      ensures SameSets(old(store), store) && old(vals) <= vals && unit in vals
      ensures ok ==> Root() && Sound()
      ensures !ok ==> Unsatisfiable(originals)
    {
      ghost var f := LiveSets(store, ledger.freed) + Units(vals + {unit});
      ok := PropagateUnit(unit, f);
      FinishUnit(unit, s, old(store), old(vals), f, trail, store);
    }

    method PropagateUnit(unit: Lit, ghost f: Clauses) returns (ok: bool)
      requires Root() && unit !in vals && Neg(unit) !in vals
      requires f == LiveSets(store, ledger.freed) + Units(vals + {unit})
      modifies this`vals, this`trail, this`next, this`store, this`watchers
      ensures SameSets(old(store), store) && old(vals) <= vals && unit in vals
      ensures vals == Lits(trail) && Derives(f, {}, trail)
      ensures ok ==> Root()
      ensures !ok ==> Conflict(f, vals)
    {
      ghost var root, universe := vals, Literals(f);
      AssignUnit(unit, root, f, universe);
      ok := Propagate(root, f, {}, universe);
      assert unit == trail[|old(trail)|];
      if ok {
        StableRoot(Scan(store, watchers, [], []), ledger.freed, table.dead, root, vals, f);
      }
    }

    // Everything that holds until the original clauses are found to be inconsistent.
    ghost predicate Good()
      reads this
    {
      Root() && Tabled() && Sound() && Booked(ledger.book, store, table.dead, vals)
    }

    method AddClause(s: Clause)
      requires Good() && !inconsistent && Canonical(s)
      requires forall l :: l in s ==> l !in vals
      requires forall m: Model :: Models(m, originals) ==> SetSat(m, Lits(s))
      modifies this`vals, this`trail, this`next, this`store, this`watchers, this`table, this`ledger, this`inconsistent
      ensures Valid() && (!inconsistent ==> ledger.book == old(ledger).book + multiset{Lits(s)})
    {
      var open, i, j := CountOpen(s, vals);
      if open == 0 {
        FalsifiedUnsat(Lits(s), vals, originals);
        inconsistent := true;
      } else if open == 1 {
        AddUnitClause(s[i], Lits(s));
      } else {
        Insert(s, i, j);
      }
    }

    method AddUnitClause(unit: Lit, ghost s: set<Lit>)
      requires Good() && !inconsistent && UnitOn(s, unit, vals)
      requires unit !in vals && Neg(unit) !in vals
      requires forall m: Model :: Models(m, originals) ==> SetSat(m, s)
      modifies this`vals, this`trail, this`next, this`store, this`watchers, this`ledger, this`inconsistent
      ensures Valid() && (!inconsistent ==> ledger.book == old(ledger).book + multiset{s})
    {
      var ok := AddUnit(unit, s);
      if ok {
        TableReordered(table, ledger, old(store), store, nonces);
        BookedSame(ledger.book, old(store), store, table.dead, old(vals), vals);
        assert unit in s && unit in vals;
        BookedIgnored(ledger.book, store, table.dead, vals, s, ledger.book + multiset{s});
        ledger := ledger.(book := ledger.book + multiset{s});
      } else {
        inconsistent := true;
      }
    }

    method ImportClause(c: Clause)
      modifies this`sizeVars
      ensures old(sizeVars) <= sizeVars && forall l :: l in c ==> Var(l) < sizeVars
    {
      for i := 0 to |c|
        invariant old(sizeVars) <= sizeVars && forall k :: 0 <= k < i ==> Var(c[k]) < sizeVars
      {
        if Var(c[i]) >= sizeVars {
          sizeVars := EnlargeVars(Var(c[i]), sizeVars);
        }
      }
    }

    // Tautological and satisfied clauses are counted but not stored.
    ghost method Ignore(s: set<Lit>)
      requires Good() && (TautologySet(s) || !(s !! vals))
      modifies this`ledger
      ensures Good() && ledger.book == old(ledger).book + multiset{s}
    {
      BookedIgnored(ledger.book, store, table.dead, vals, s, ledger.book + multiset{s});
      ledger := ledger.(book := ledger.book + multiset{s});
    }

    ghost method Forget(s: set<Lit>)
      requires Good() && (TautologySet(s) || !(s !! vals))
      modifies this`ledger
      ensures Good() && ledger.book == old(ledger).book - multiset{s}
    {
      BookedIgnored(ledger.book, store, table.dead, vals, s, ledger.book - multiset{s});
      ledger := ledger.(book := ledger.book - multiset{s});
    }

    method AddOriginalClause(c: Clause)
      requires Valid()
      modifies this
      ensures Valid() && originals == old(originals) + {c}
      ensures !inconsistent ==> ledger.book == old(ledger).book + multiset{Lits(c)}
      ensures old(inconsistent) ==> inconsistent
    {
      MoreOriginals(originals, c);
      originals := originals + {c};
      if inconsistent { return; }
      ImportClause(c);
      var taut, s := Tautological(c, vals);
      if taut {
        Ignore(Lits(c));
      } else {
        LitsMembers(s, c);
        AddClause(s);
      }
    }

    // Accepted clauses are entailed; clauses that unit propagation over the live clauses shows to
    // be entailed are accepted.
    method AddDerivedClause(c: Clause) returns (accepted: bool)
      requires Valid()
      modifies this
      ensures Valid() && originals == old(originals)
      ensures accepted ==> Entails(originals, c)
      ensures !inconsistent ==>
        ledger.book == if accepted then old(ledger).book + multiset{Lits(c)} else old(ledger).book
      ensures !old(inconsistent) && Rup(LiveSets(old(store), old(table).dead) + Units(old(vals)), Lits(c)) ==> accepted
      ensures !accepted ==> !inconsistent && vals == old(vals) && SameSets(old(store), store) && table == old(table)
    {
      if inconsistent { return true; }
      ImportClause(c);
      var taut, s := Tautological(c, vals);
      if taut {
        SatisfiedSound(c, vals, originals);
        Ignore(Lits(c));
        return true;
      }
      LitsMembers(s, c);
      accepted := CheckAndAdd(c, s);
    }

    method CheckAndAdd(ghost c: Clause, s: Clause) returns (accepted: bool)
      requires !inconsistent && Good() && Canonical(s) && Lits(s) == Lits(c)
      requires !TautologySet(Lits(s))
      requires forall l :: l in s ==> l !in vals
      modifies this`vals, this`trail, this`next, this`store, this`watchers, this`table, this`ledger, this`inconsistent
      ensures Valid()
      ensures accepted ==> Entails(originals, c)
      ensures !inconsistent ==>
        ledger.book == if accepted then old(ledger).book + multiset{Lits(c)} else old(ledger).book
      ensures Rup(LiveSets(old(store), old(table).dead) + Units(old(vals)), Lits(s)) ==> accepted
      ensures !accepted ==> !inconsistent && vals == old(vals) && SameSets(old(store), store) && table == old(table)
    {
      accepted := CheckClause(c, s);
      if accepted {
        AddClause(s);
      }
    }

    method CheckClause(ghost c: Clause, s: Clause) returns (res: bool)
      requires Good() && Lits(s) == Lits(c) && !TautologySet(Lits(s))
      requires forall l :: l in s ==> l !in vals
      modifies this`vals, this`trail, this`next, this`store, this`watchers
      ensures Good() && vals == old(vals) && SameSets(old(store), store)
      ensures res ==> Entails(originals, c) && forall m: Model :: Models(m, originals) ==> SetSat(m, Lits(s))
      ensures Rup(LiveSets(old(store), table.dead) + Units(vals), Lits(s)) ==> res
    {
      res := Check(s);
      if res {
        SoundReordered(originals, old(store), store);
        RupEntailed(c, Lits(s), store, ledger.freed, vals, originals);
      }
      SameStored(old(store), store, table.dead);
      TableReordered(table, ledger, old(store), store, nonces);
      BookedSame(ledger.book, old(store), store, table.dead, vals, vals);
      SoundReordered(originals, old(store), store);
    }

    // A deletion that is neither tautological nor satisfied is looked up in the table.
    ghost predicate Ignored(c: Clause)
      reads this
    {
      inconsistent || TautologySet(Lits(c)) || exists l :: l in c && l in vals
    }

    // Deletion never hits an empty table for a clause that has been added and not yet deleted.
    lemma DeletionAllowed(c: Clause)
      requires Valid() && !inconsistent && ledger.book[Lits(c)] > 0
      ensures Ignored(c) || |table.chains| > 0
    {
      if !TautologySet(Lits(c)) && forall l :: l in c ==> l !in vals {
        assert Lits(c) !! vals;
        assert Holders(store, table.dead, Lits(c)) != {};
        var d :| d in Holders(store, table.dead, Lits(c));
        assert d in ledger.live;
      }
    }

    // The clause is found if and only if it was added more often than deleted,
    // unless it is ignored; looking it up in a table of size zero fails.
    method DeleteClause(c: Clause) returns (o: Deletion)
      requires Valid()
      modifies this`sizeVars, this`table, this`ledger, this`watchers
      ensures Valid()
      ensures o.EmptyTable? <==> !old(Ignored(c)) && |old(table).chains| == 0
      ensures o.Deleted? <==> old(Ignored(c)) || old(ledger).book[Lits(c)] > 0
      ensures !inconsistent ==> ledger.book == old(ledger).book - multiset{Lits(c)}
      ensures o.Deleted? && !old(Ignored(c)) ==>
        2 * table.numGarbage <= |table.chains| || 2 * table.numGarbage <= sizeVars
    {
      if inconsistent { return Deleted; }
      if ledger.book[Lits(c)] > 0 { DeletionAllowed(c); }
      ImportClause(c);
      var taut, s := Tautological(c, vals);
      if taut {
        Forget(Lits(c));
        return Deleted;
      }
      LitsMembers(s, c);
      if |table.chains| == 0 {
        assert ledger.book - multiset{Lits(c)} == ledger.book;
        return EmptyTable;
      }
      var found := FindAndRemove(s);
      o := if found then Deleted else NotInProof;
    }

    method FindAndRemove(s: Clause) returns (found: bool)
      requires !inconsistent && Good() && Canonical(s) && |table.chains| > 0
      requires !TautologySet(Lits(s))
      requires forall l :: l in s ==> l !in vals
      modifies this`table, this`ledger, this`watchers
      ensures Valid() && ledger.book == old(ledger).book - multiset{Lits(s)}
      ensures found <==> old(ledger).book[Lits(s)] > 0
      ensures found ==> 2 * table.numGarbage <= |table.chains| || 2 * table.numGarbage <= sizeVars
    {
      var h, k;
      found, h, k := Find(table, s, store, nonces, ledger);
      CountHolders(ledger.book, store, table.dead, vals, Lits(s), ledger.live, found);
      if found {
        MoveToGarbage(h, k);
        if 2 * table.numGarbage > |table.chains| && 2 * table.numGarbage > sizeVars {
          CollectGarbage();
        }
      } else {
        assert ledger.book - multiset{Lits(s)} == ledger.book;
      }
    }

    method MoveToGarbage(h: nat, k: nat)
      requires Good() && h < |table.chains| && k < |table.chains[h]|
      requires table.chains[h][k] < |store| && !inconsistent
      modifies this`table, this`ledger
      ensures Valid()
      ensures ledger.book == old(ledger).book - multiset{Lits(store[old(table).chains[h][k]])}
    {
      DeleteStep(table, ledger, store, nonces, watchers, vals, h, k);
      ghost var d := table.chains[h][k];
      ghost var g := CrossOut(ledger, d, Lits(store[d]));
      table := Unlink(table, h, k);
      ledger := g;
    }

    method CollectGarbage()
      requires Good() && !inconsistent
      modifies this`table, this`ledger, this`watchers
      ensures Valid() && ledger.freed == table.dead && table.garbage == []
      ensures ledger.book == old(ledger).book && Collected(store, vals, old(table).dead, table.dead)
    {
      var t;
      ghost var g;
      t, g := RemoveSatisfied(table, store, vals, ledger, nonces);
      StableDead(Scan(store, watchers, [], []), ledger.freed, table.dead, t.dead, vals, LiveSets(store, ledger.freed));
      var ws := FlushWatchers(watchers, t.dead, store, ledger.freed);
      FlushedStable(store, watchers, ws, ledger.freed, t.dead, vals);
      watchers := ws;
      table := DeleteAll(t);
      ledger := g.(freed := t.dead);
    }

    lemma FinishUnit(unit: Lit, s: set<Lit>, store0: seq<Clause>, root: set<Lit>, f: Clauses, trail: seq<Lit>,
          store: seq<Clause>)
      requires forall m: Model :: Models(m, originals) ==> Agrees(m, root) && StoreHolds(m, store0)
      requires forall m: Model :: Models(m, originals) ==> SetSat(m, s)
      requires UnitOn(s, unit, root) && f == LiveSets(store0, ledger.freed) + Units(root + {unit})
      requires Derives(f, {}, trail) && SameSets(store0, store)
      ensures forall m: Model :: Models(m, originals) ==> Agrees(m, Lits(trail)) && StoreHolds(m, store)
      ensures Conflict(f, Lits(trail)) ==> Unsatisfiable(originals)
    {
      UnitSound(originals, store0, ledger.freed, root, unit, s, f, trail);
      SoundReordered(originals, store0, store);
    }

    method AssignUnit(unit: Lit, ghost root: set<Lit>, ghost f: Clauses, ghost universe: set<Lit>)
      requires Root() && root == vals && unit !in vals && Neg(unit) !in vals
      requires f == LiveSets(store, ledger.freed) + Units(vals + {unit}) && universe == Literals(f)
      modifies this`vals, this`trail
      ensures Engine(root, f, {}, universe) && Visited() && trail == old(trail) + [unit]
    {
      LitsSnoc(trail, unit);
      ConsistentSnoc(vals, unit);
      assert vals + {unit} <= universe by {
        assert forall u :: u in vals + {unit} ==> u in {u} && {u} in f;
      }
      vals, trail := vals + {unit}, trail + [unit];
      RootDerives(f, {}, trail);
      StableFor(Scan(store, watchers, [], []), ledger.freed, table.dead, root, LiveSets(store, ledger.freed), f);
      RootedSettled(store, watchers, table.dead, root, vals);
      assert trail[..next] == old(trail);
    }
  }

  // Deleting a clause first of all violates the assertion.
  method FreshDeletion(nonces: seq<nat>, c: Clause) returns (o: Deletion)
    requires nonces != [] && !TautologySet(Lits(c))
    ensures o == EmptyTable
  {
    var checker := new Checker(nonces);
    o := checker.DeleteClause(c);
  }

  lemma SoundInsert(originals: Formula, store: seq<Clause>, c: Clause, vals: set<Lit>)
    requires forall m: Model :: Models(m, originals) ==> Agrees(m, vals) && StoreHolds(m, store)
    requires forall m: Model :: Models(m, originals) ==> SetSat(m, Lits(c))
    ensures forall m: Model :: Models(m, originals) ==> Agrees(m, vals) && StoreHolds(m, store + [c])
  {
  }

  lemma SatisfiedSound(c: Clause, vals: set<Lit>, originals: Formula)
    requires TautologySet(Lits(c)) || exists l :: l in c && l in vals
    requires forall m: Model :: Models(m, originals) ==> Agrees(m, vals)
    ensures Entails(originals, c)
  {
    forall m: Model | Models(m, originals) ensures Sat(m, c) {
      if TautologySet(Lits(c)) {
        var l :| l in Lits(c) && Neg(l) in Lits(c);
        Negation(m, l);
        assert l in c && Neg(l) in c;
      } else {
        var l :| l in c && l in vals;
        assert True(m, l);
      }
    }
  }

  lemma RupEntailed(c: Clause, s: set<Lit>, store: seq<Clause>, freed: set<nat>, vals: set<Lit>, originals: Formula)
    requires forall m: Model :: Models(m, originals) ==> Agrees(m, vals) && StoreHolds(m, store)
    requires Rup(LiveSets(store, freed) + Units(vals), s) && s == Lits(c)
    ensures Entails(originals, c) && forall m: Model :: Models(m, originals) ==> SetSat(m, s)
  {
    forall m: Model | Models(m, originals) ensures Sat(m, c) && SetSat(m, s) {
      assert Agrees(m, vals) && StoreHolds(m, store);
      StoredModels(store, freed, vals, m);
      RupSound(LiveSets(store, freed) + Units(vals), s, m);
    }
  }

  lemma FalsifiedUnsat(s: set<Lit>, vals: set<Lit>, originals: Formula)
    requires forall m: Model :: Models(m, originals) ==> Agrees(m, vals) && SetSat(m, s)
    requires Falsified(s, vals)
    ensures Unsatisfiable(originals)
  {
    forall m: Model ensures !Models(m, originals) {
      if Models(m, originals) {
        assert Agrees(m, vals) && SetSat(m, s);
        var l :| l in s && True(m, l);
        Negation(m, l);
      }
    }
  }

  // Reordered clauses have the same table.
  lemma TableReordered(t: Table, g: Ledger, store: seq<Clause>, store': seq<Clause>, nonces: seq<nat>)
    requires nonces != [] && TableOk(t, g, store, nonces) && SameSets(store, store')
    ensures TableOk(t, g, store', nonces)
  {
  }

  lemma MoreOriginals(originals: Formula, c: Clause)
    ensures Unsatisfiable(originals) ==> Unsatisfiable(originals + {c})
    ensures forall m: Model :: Models(m, originals + {c}) ==> Models(m, originals) && Sat(m, c) && SetSat(m, Lits(c))
  {
    forall m: Model | Models(m, originals + {c}) ensures Models(m, originals) && Sat(m, c) && SetSat(m, Lits(c)) {
      assert c in originals + {c};
      assert forall d :: d in originals ==> d in originals + {c};
      var l :| l in c && True(m, l);
      assert l in Lits(c);
    }
  }

  lemma LitsMembers(a: Clause, c: Clause)
    requires Lits(a) == Lits(c)
    ensures forall l :: l in a <==> l in c
  {
    forall l ensures l in a <==> l in c {
      assert l in Lits(a) <==> l in Lits(c);
    }
  }

  // The capacity for variables is doubled until it suffices.
  method EnlargeVars(idx: nat, size: nat) returns (size': nat)
    ensures idx < size' && size < size'
  {
    size' := if size != 0 then 2 * size else 2;
    while idx >= size'
      invariant size' > size
      decreases idx - size'
    {
      size' := 2 * size';
    }
  }

  // ---------- Deletion ----------

  // The table and the garbage list account for all clauses that are not deleted.
  ghost predicate Accounts(t: Table, g: Ledger, store: seq<Clause>, nonces: seq<nat>) {
    && nonces != [] && TableOk(t, g, store, nonces) && Living(g.live, |store|, t.dead)
    && Garbage(t.garbage, t.dead, g.freed) && t.numGarbage == |t.garbage| && g.freed <= t.dead
  }

  // Move a clause from its chain to the garbage list.
  function Unlink(t: Table, h: nat, k: nat): Table
    requires h < |t.chains| && k < |t.chains[h]| && t.count > 0
  {
    var d := t.chains[h][k];
    Table(t.chains[h := Cut(t.chains[h], k)], t.hashes, t.count - 1,
          t.dead + {d}, PrependName(d, t.garbage), t.numGarbage + 1)
  }

  ghost function Strike(g: Ledger, d: nat): Ledger {
    g.(live := g.live - {d})
  }

  ghost function CrossOut(g: Ledger, d: nat, s: set<Lit>): Ledger {
    g.(live := g.live - {d}, book := g.book - multiset{s})
  }

  function PrependName(d: nat, garbage: seq<nat>): seq<nat> {
    [d] + garbage
  }

  // Deleting a garbage clause decrements the counter.
  method DeleteAll(t0: Table) returns (t: Table)
    requires t0.numGarbage == |t0.garbage|
    ensures t == t0.(garbage := [], numGarbage := 0)
  {
    t := t0;
    while t.garbage != []
      invariant t.numGarbage == |t.garbage|
      invariant t == t0.(garbage := t.garbage, numGarbage := t.numGarbage)
      decreases |t.garbage|
    {
      t := t.(garbage := t.garbage[1..], numGarbage := t.numGarbage - 1);
    }
  }

  lemma UnlinkAccounts(t: Table, g: Ledger, store: seq<Clause>, nonces: seq<nat>, h: nat, k: nat)
    requires Accounts(t, g, store, nonces) && h < |t.chains| && k < |t.chains[h]|
    ensures t.count > 0 && t.chains[h][k] in g.live && t.chains[h][k] < |store|
    ensures t.chains[h][k] !in t.dead
    ensures Accounts(Unlink(t, h, k), Strike(g, t.chains[h][k]), store, nonces)
    ensures Accounts(Unlink(t, h, k), CrossOut(g, t.chains[h][k], Lits(store[t.chains[h][k]])), store, nonces)
  {
    var d := t.chains[h][k];
    assert d in g.live;
    ChainRemove(t.chains, g.slots, g.live, h, k);
    GarbageMore(t.garbage, t.dead, g.freed, d);
    LivingStrike(g.live, |store|, t.dead, d);
  }

  lemma DeleteStep(t: Table, g: Ledger, store: seq<Clause>, nonces: seq<nat>, watchers: map<Lit, seq<Watch>>,
        vals: set<Lit>, h: nat, k: nat)
    requires Accounts(t, g, store, nonces) && h < |t.chains| && k < |t.chains[h]|
    requires Booked(g.book, store, t.dead, vals)
    requires Stable(Scan(store, watchers, [], []), 0, g.freed, t.dead, vals, LiveSets(store, g.freed))
    ensures t.count > 0 && t.chains[h][k] < |store|
    ensures var t', g' := Unlink(t, h, k), CrossOut(g, t.chains[h][k], Lits(store[t.chains[h][k]]));
      && Accounts(t', g', store, nonces) && Booked(g'.book, store, t'.dead, vals)
      && Stable(Scan(store, watchers, [], []), 0, g'.freed, t'.dead, vals, LiveSets(store, g'.freed))
  {
    UnlinkAccounts(t, g, store, nonces, h, k);
    StableDead(Scan(store, watchers, [], []), g.freed, t.dead, Unlink(t, h, k).dead, vals, LiveSets(store, g.freed));
    BookedDelete(g.book, store, t.dead, vals, t.chains[h][k]);
  }

  lemma LivingStrike(live: set<nat>, n: nat, dead: set<nat>, d: nat)
    requires Living(live, n, dead) && d in live
    ensures Living(live - {d}, n, dead + {d})
  {
  }

  lemma GarbageMore(garbage: seq<nat>, dead: set<nat>, freed: set<nat>, d: nat)
    requires Garbage(garbage, dead, freed) && d !in dead && freed <= dead
    ensures Garbage(PrependName(d, garbage), dead + {d}, freed)
  {
    var r := PrependName(d, garbage);
    assert forall i :: 1 <= i < |r| ==> r[i] == garbage[i - 1];
    forall i, j | 0 <= i < j < |r| ensures r[i] != r[j] {
      assert r[j] in garbage;
    }
  }

  // Marking more clauses as garbage keeps the watches.
  lemma StableDead(s: Scan, freed: set<nat>, dead: set<nat>, dead': set<nat>, root: set<Lit>, f: Clauses)
    requires Stable(s, 0, freed, dead, root, f) && dead <= dead'
    ensures Stable(s, 0, freed, dead', root, f)
  {
  }

  method Satisfied(c: Clause, vals: set<Lit>) returns (r: bool)
    ensures r == SatBy(c, vals)
  {
    for i := 0 to |c|
      invariant forall k :: 0 <= k < i ==> c[k] !in vals
    {
      if c[i] in vals { return true; }
    }
    return false;
  }

  // Move satisfied clauses to the garbage list.
  // Exactly the clauses satisfied at the root level join the garbage clauses.
  ghost predicate Collected(store: seq<Clause>, vals: set<Lit>, dead0: set<nat>, dead: set<nat>) {
    && dead0 <= dead
    && forall d: nat :: d < |store| ==> (d in dead <==> d in dead0 || SatBy(store[d], vals))
  }

  ghost predicate OnlySatisfied(store: seq<Clause>, vals: set<Lit>, dead0: set<nat>, dead: set<nat>) {
    dead0 <= dead && forall d: nat :: d in dead && d < |store| ==> d in dead0 || SatBy(store[d], vals)
  }

  // None of the first k clauses of the chain is satisfied.
  ghost predicate Swept(store: seq<Clause>, vals: set<Lit>, chain: seq<nat>, k: nat) {
    forall j :: 0 <= j < k && j < |chain| && chain[j] < |store| ==> !SatBy(store[chain[j]], vals)
  }

  ghost predicate AllSwept(store: seq<Clause>, vals: set<Lit>, chains: seq<seq<nat>>, i: nat) {
    forall h :: 0 <= h < i && h < |chains| ==> Swept(store, vals, chains[h], |chains[h]|)
  }

  lemma CollectedAll(t: Table, g: Ledger, store: seq<Clause>, nonces: seq<nat>, vals: set<Lit>, dead0: set<nat>)
    requires Accounts(t, g, store, nonces) && AllSwept(store, vals, t.chains, |t.chains|)
    requires OnlySatisfied(store, vals, dead0, t.dead)
    ensures Collected(store, vals, dead0, t.dead)
  {
    forall d: nat | d < |store| && d !in t.dead ensures !SatBy(store[d], vals) {
      assert d in g.live && d in t.chains[g.slots[d]];
      assert Swept(store, vals, t.chains[g.slots[d]], |t.chains[g.slots[d]]|);
    }
  }

  method RemoveSatisfied(t0: Table, store: seq<Clause>, vals: set<Lit>, ghost g0: Ledger, ghost nonces: seq<nat>)
    returns (t: Table, ghost g: Ledger)
    requires Accounts(t0, g0, store, nonces) && Booked(g0.book, store, t0.dead, vals)
    ensures Accounts(t, g, store, nonces) && Booked(g.book, store, t.dead, vals)
    ensures t0.dead <= t.dead && g.freed == g0.freed && g.book == g0.book
    ensures Collected(store, vals, t0.dead, t.dead)
  {
    t, g := t0, g0;
    for i := 0 to |t0.chains|
      invariant |t.chains| == |t0.chains| && OnlySatisfied(store, vals, t0.dead, t.dead)
      invariant g.freed == g0.freed && g.book == g0.book && AllSwept(store, vals, t.chains, i)
      invariant Accounts(t, g, store, nonces) && Booked(g.book, store, t.dead, vals)
    {
      t, g := SweepChain(t, i, store, vals, t0.dead, g, nonces);
    }
    CollectedAll(t, g, store, nonces, vals, t0.dead);
  }

  // Move the satisfied clauses of one chain to the garbage list.
  method SweepChain(t0: Table, i: nat, store: seq<Clause>, vals: set<Lit>, ghost dead0: set<nat>, ghost g0: Ledger,
        ghost nonces: seq<nat>)
    returns (t: Table, ghost g: Ledger)
    requires Accounts(t0, g0, store, nonces) && Booked(g0.book, store, t0.dead, vals) && i < |t0.chains|
    requires OnlySatisfied(store, vals, dead0, t0.dead) && AllSwept(store, vals, t0.chains, i)
    ensures Accounts(t, g, store, nonces) && Booked(g.book, store, t.dead, vals)
    ensures g.freed == g0.freed && g.book == g0.book && |t.chains| == |t0.chains|
    ensures OnlySatisfied(store, vals, dead0, t.dead) && AllSwept(store, vals, t.chains, i + 1)
  {
    t, g := t0, g0;
    var k := 0;
    while k < |t.chains[i]|
      invariant |t.chains| == |t0.chains| && 0 <= k <= |t.chains[i]| && t.chains[..i] == t0.chains[..i]
      invariant OnlySatisfied(store, vals, dead0, t.dead) && g.freed == g0.freed && g.book == g0.book
      invariant Accounts(t, g, store, nonces) && Booked(g.book, store, t.dead, vals)
      invariant Swept(store, vals, t.chains[i], k)
      decreases |t.chains[i]| - k
    {
      UnlinkAccounts(t, g, store, nonces, i, k);
      var d := t.chains[i][k];
      var sat := Satisfied(store[d], vals);
      if sat {
        BookedSatisfied(g.book, store, t.dead, vals, d);
        t, g := Unlink(t, i, k), Strike(g, d);
      } else {
        k := k + 1;
      }
    }
    SweptNext(store, vals, t0.chains, t.chains, i);
  }

  lemma SweptNext(store: seq<Clause>, vals: set<Lit>, chains0: seq<seq<nat>>, chains: seq<seq<nat>>, i: nat)
    requires AllSwept(store, vals, chains0, i) && i < |chains| == |chains0| && chains[..i] == chains0[..i]
    requires Swept(store, vals, chains[i], |chains[i]|)
    ensures AllSwept(store, vals, chains, i + 1)
  {
    forall h | 0 <= h < i ensures Swept(store, vals, chains[h], |chains[h]|) {
      assert chains[h] == chains[..i][h] == chains0[h];
    }
  }

  // Drop the watches of garbage clauses.
  method FlushList(ws: seq<Watch>, dead: set<nat>, ghost store: seq<Clause>, ghost y: Lit) returns (r: seq<Watch>)
    requires ListOk(store, y, ws)
    ensures ListOk(store, y, r) && Safe(r, dead) && Ids(r) == Ids(ws) - dead
  {
    r := [];
    for i := 0 to |ws|
      invariant ListOk(store, y, r) && Safe(r, dead) && Ids(r) == Ids(ws[..i]) - dead
      invariant forall j, k :: 0 <= j < |r| && i <= k < |ws| ==> r[j].id != ws[k].id
    {
      assert ws[..i + 1] == ws[..i] + [ws[i]];
      IdsAppend(ws[..i], [ws[i]]);
      IdsFirst([ws[i]]);
      assert Ids([ws[i]][1..]) == {};
      if ws[i].id !in dead {
        IdsAppend(r, [ws[i]]);
        r := r + [ws[i]];
      }
    }
    assert ws[..|ws|] == ws;
  }

  method FlushWatchers(w0: map<Lit, seq<Watch>>, dead: set<nat>, ghost store: seq<Clause>, ghost freed: set<nat>)
    returns (w: map<Lit, seq<Watch>>)
    requires ListsOk(Scan(store, w0, [], []), 0, freed) && Listed(Scan(store, w0, [], []), 0, dead)
    ensures ListsOk(Scan(store, w, [], []), 0, dead) && Listed(Scan(store, w, [], []), 0, dead)
  {
    w := w0;
    ghost var s0 := Scan(store, w0, [], []);
    var todo := w0.Keys;
    while todo != {}
      invariant w.Keys == w0.Keys && todo <= w0.Keys
      invariant forall y :: y in todo ==> w[y] == w0[y]
      invariant forall y :: y in w && y !in todo ==>
        ListOk(store, y, w[y]) && Safe(w[y], dead) && Ids(w[y]) == Ids(w0[y]) - dead
    {
      var y :| y in todo;
      assert ListOk(store, y, List(s0, 0, y));
      var r := FlushList(w[y], dead, store, y);
      w, todo := w[y := r], todo - {y};
    }
    Flushed(w0, w, dead, store);
  }

  lemma Flushed(w0: map<Lit, seq<Watch>>, w: map<Lit, seq<Watch>>, dead: set<nat>, store: seq<Clause>)
    requires Shape(store) && Listed(Scan(store, w0, [], []), 0, dead) && w.Keys == w0.Keys
    requires forall y :: y in w ==> ListOk(store, y, w[y]) && Safe(w[y], dead) && Ids(w[y]) == Ids(w0[y]) - dead
    ensures ListsOk(Scan(store, w, [], []), 0, dead) && Listed(Scan(store, w, [], []), 0, dead)
  {
    var s0, s := Scan(store, w0, [], []), Scan(store, w, [], []);
    forall y: Lit ensures ListOk(store, y, List(s, 0, y)) && Safe(List(s, 0, y), dead) {
      assert List(s, 0, y) == if y in w then w[y] else [];
    }
    forall d, i | 0 <= d < |store| && d !in dead && 0 <= i < 2 ensures d in Ids(List(s, 0, store[d][i])) {
      assert d in Ids(List(s0, 0, store[d][i]));
      assert store[d][i] in w0 by { assert Ids([]) == {}; }
    }
  }

  lemma FlushedStable(store: seq<Clause>, w0: map<Lit, seq<Watch>>, w: map<Lit, seq<Watch>>, freed: set<nat>,
        dead: set<nat>, vals: set<Lit>)
    requires Stable(Scan(store, w0, [], []), 0, freed, dead, vals, LiveSets(store, freed))
    requires ListsOk(Scan(store, w, [], []), 0, dead) && Listed(Scan(store, w, [], []), 0, dead)
    ensures Stable(Scan(store, w, [], []), 0, dead, dead, vals, LiveSets(store, dead))
  {
  }

  lemma CountHolders(book: multiset<set<Lit>>, store: seq<Clause>, dead: set<nat>, vals: set<Lit>, s: set<Lit>,
        live: set<nat>, found: bool)
    requires Booked(book, store, dead, vals) && !TautologySet(s) && s !! vals
    requires Living(live, |store|, dead)
    requires if found then exists d :: d in live && Lits(store[d]) == s else forall d :: d in live ==>
      Lits(store[d]) != s
    ensures found <==> book[s] > 0
  {
    assert book[s] == |Holders(store, dead, s)|;
    if found {
      var d :| d in live && Lits(store[d]) == s;
      assert d in Holders(store, dead, s);
    } else {
      assert Holders(store, dead, s) == {};
    }
  }

  lemma StableRoot(s: Scan, freed: set<nat>, dead: set<nat>, root: set<Lit>, vals: set<Lit>, f: Clauses)
    requires Stable(s, 0, freed, dead, root, f) && Settled(s, 0, dead, vals, vals)
    requires s.kept == s.rest == []
    ensures Stable(s, 0, freed, dead, vals, LiveSets(s.store, freed))
  {
    StableFor(s, freed, dead, root, f, LiveSets(s.store, freed));
    forall d, i | 0 <= d < |s.store| && d !in dead && 0 <= i < 2 && Neg(s.store[d][i]) in vals
      ensures SatBy(s.store[d], vals)
    {
    }
  }

  ghost predicate StoreHolds(m: Model, store: seq<Clause>) {
    forall d :: 0 <= d < |store| ==> SetSat(m, Lits(store[d]))
  }

  ghost predicate Garbage(garbage: seq<nat>, dead: set<nat>, freed: set<nat>) {
    && (forall i, j :: 0 <= i < j < |garbage| ==> garbage[i] != garbage[j])
    && (forall d :: d in garbage <==> d in dead && d !in freed)
  }

  lemma SoundReordered(originals: Formula, store: seq<Clause>, store': seq<Clause>)
    requires SameSets(store, store')
    ensures forall m: Model :: StoreHolds(m, store) <==> StoreHolds(m, store')
  {
  }

  lemma StoredModels(store: seq<Clause>, freed: set<nat>, vals: set<Lit>, m: Model)
    requires StoreHolds(m, store) && Agrees(m, vals)
    ensures ModelsSets(m, LiveSets(store, freed) + Units(vals))
  {
    forall c | c in LiveSets(store, freed) + Units(vals) ensures SetSat(m, c) {
      if c in Units(vals) {
        var u :| u in vals && c == {u};
        assert u in c && True(m, u);
      }
    }
  }

  lemma UnitSound(originals: Formula, store: seq<Clause>, freed: set<nat>, root: set<Lit>, unit: Lit, s: set<Lit>,
        f: Clauses, trail: seq<Lit>)
    requires forall m: Model :: Models(m, originals) ==> Agrees(m, root) && StoreHolds(m, store) && SetSat(m, s)
    requires UnitOn(s, unit, root) && f == LiveSets(store, freed) + Units(root + {unit})
    requires Derives(f, {}, trail)
    ensures forall m: Model :: Models(m, originals) ==> Agrees(m, Lits(trail)) && StoreHolds(m, store)
    ensures Conflict(f, Lits(trail)) ==> Unsatisfiable(originals)
  {
    forall m: Model | Models(m, originals) ensures Agrees(m, Lits(trail)) && !Conflict(f, Lits(trail)) {
      assert Agrees(m, root) && SetSat(m, s);
      var l :| l in s && True(m, l);
      Negation(m, l);
      assert l == unit;
      StoredModels(store, freed, root + {unit}, m);
      DerivesSound(f, {}, trail, m);
      NoConflictInModel(f, Lits(trail), m);
    }
  }
}
