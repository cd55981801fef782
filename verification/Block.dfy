// Blocked clause elimination (src/block.cpp): candidates are filtered and
// searched with move-to-front of clauses and literals.
module Block {
  import opened Cnf
  import opened Extension
  import opened Resolution
  import opened Watching

  // ---------- Move to front ----------

  // The first n elements have been moved one place up; the first place is empty (written as gap).
  ghost predicate Shifted(w: seq<int>, d: seq<int>, n: nat, prev: int, gap: int) {
    && |w| == |d| && n <= |d| && prev == (if n == 0 then gap else d[n - 1])
    && (n > 0 ==> w[0] == gap)
    && (forall k :: 1 <= k < n ==> w[k] == d[k - 1])
    && (forall k :: n <= k < |d| ==> w[k] == d[k])
  }

  function ToFront(d: seq<int>, i: nat): seq<int>
    requires i < |d|
  {
    [d[i]] + d[..i] + d[i + 1..]
  }

  // Undo the shift from the end.
  method Restore(w0: seq<int>, prev0: int, n: nat, gap: int, ghost d: seq<int>) returns (w: seq<int>)
    requires Shifted(w0, d, n, prev0, gap)
    ensures w == d
  {
    w := w0;
    var prev, l := prev0, n;
    while l > 0
      invariant 0 <= l <= n && Shifted(w, d, l, prev, gap)
    {
      l := l - 1;
      var other := w[l];
      w := w[l := prev];
      prev := other;
    }
  }

  // The element at position n goes to the first place.
  lemma Front(w: seq<int>, d: seq<int>, n: nat, prev: int, gap: int)
    requires Shifted(w, d, n, prev, gap) && n < |d|
    ensures Shifted(w[n := prev], d, n + 1, d[n], gap) && w[n := prev][0 := d[n]] == ToFront(d, n)
  {
    var r, e := w[n := prev][0 := d[n]], ToFront(d, n);
    forall k | 0 <= k < |d| ensures r[k] == e[k] {
      assert 1 <= k <= n ==> e[k] == d[k - 1];
      assert k > n ==> e[k] == d[k];
    }
  }

  // A literal other than skip whose negation is marked.
  predicate Clashes(l: Lit, skip: Lit, marks: set<Lit>) {
    l != skip && Neg(l) in marks
  }

  // The first clashing literal of d is moved to the front; without one the order is restored.
  method SearchClause(d: Clause, skip: Lit, marks: set<Lit>) returns (found: bool, r: seq<int>)
    ensures found <==> exists l :: l in d && Clashes(l, skip, marks)
    ensures !found ==> r == d
    ensures found ==> exists i :: 0 <= i < |d| && Clashes(d[i], skip, marks) && r == ToFront(d, i)
  {
    var w: seq<int>, prev: int, l := d, 0, 0;
    while l < |d|
      invariant 0 <= l <= |d| && Shifted(w, d, l, prev, 0)
      invariant forall k :: 0 <= k < l ==> !Clashes(d[k], skip, marks)
    {
      var other := d[l];
      Front(w, d, l, prev, 0);
      w := w[l := prev];
      prev := other;
      if Clashes(other, skip, marks) {
        return true, w[0 := other];
      }
      l := l + 1;
    }
    found := false;
    r := Restore(w, prev, l, 0, d);
  }

  lemma ToFrontReorders(d: Clause, i: nat)
    requires i < |d| && NoDup(d)
    ensures (forall k :: 0 <= k < |d| ==> ToFront(d, i)[k] != 0) && Reordered(ToFront(d, i), d)
  {
    var r := ToFront(d, i);
    forall k | 0 <= k < |r| ensures r[k] == d[if k == 0 then i else if k <= i then k - 1 else k] {}
    assert d == d[..i] + [d[i]] + d[i + 1..];
    forall l | l in d ensures l in r {
      var k :| 0 <= k < |d| && d[k] == l;
      assert r[if k == i then 0 else if k < i then k + 1 else k] == l;
    }
  }

  // ---------- Blocked clauses ----------

  // The resolvent of c and d on lit is a tautology.
  ghost predicate Clashing(c: Clause, d: Clause, lit: Lit) {
    exists l :: l in d && Clashes(l, Neg(lit), Lits(c))
  }

  ghost predicate AllClash(cs: seq<Clause>, c: Clause, nos: seq<nat>, lit: Lit) {
    forall k :: 0 <= k < |nos| && nos[k] < |cs| ==> Clashing(c, cs[nos[k]], lit)
  }

  ghost predicate Ids(nos: seq<nat>, n: nat) {
    forall k :: 0 <= k < |nos| ==> nos[k] < n
  }

  // Reordering the literals of the clauses does not matter.
  lemma SameClashes(cs: seq<Clause>, order: seq<Clause>, c: nat, d: nat, lit: Lit)
    requires AllReordered(order, cs) && c < |cs| && d < |cs|
    ensures Clashing(order[c], order[d], lit) <==> Clashing(cs[c], cs[d], lit)
  {
    assert Reordered(order[c], cs[c]) && Reordered(order[d], cs[d]);
    assert Lits(order[c]) == Lits(cs[c]);
  }

  // Is clause c blocked on lit?  A clause without clash is moved to the front of the list.
  method IsBlockedClause(order0: seq<Clause>, c: nat, lit: Lit, nos: seq<nat>, ghost cs: seq<Clause>)
    returns (blocked: bool, order: seq<Clause>, nos': seq<int>)
    requires AllReordered(order0, cs) && c < |cs| && Ids(nos, |cs|)
    requires forall k :: 0 <= k < |nos| ==> nos[k] != c
    ensures AllReordered(order, cs) && order[c] == order0[c]
    ensures blocked <==> AllClash(cs, cs[c], nos, lit)
    ensures blocked ==> nos' == nos
    ensures !blocked ==> exists i ::
      0 <= i < |nos| && nos' == ToFront(nos, i) && order[nos[i]] == order0[nos[i]] &&
      !Clashing(cs[c], cs[nos[i]], lit)
  {
    order := order0;
    var w: seq<int>, prev: int, i := nos, -1, 0;
    var marks := Lits(order[c]);
    assert marks == Lits(cs[c]) by { assert Reordered(order[c], cs[c]); }
    while i < |nos|
      invariant 0 <= i <= |nos| && Shifted(w, nos, i, prev, -1) && AllReordered(order, cs)
      invariant order[c] == order0[c]
      invariant forall k :: 0 <= k < i ==> Clashing(cs[c], cs[nos[k]], lit)
      invariant forall k :: i <= k < |nos| && nos[k] !in nos[..i] ==> order[nos[k]] == order0[nos[k]]
    {
      var d := nos[i];
      Front(w, nos, i, prev, -1);
      w := w[i := prev];
      prev := d;
      var found;
      found, order := SearchIn(order, d, Neg(lit), marks, cs, c, lit);
      if !found {
        nos' := w[0 := d];
        return false, order, nos';
      }
      assert nos[..i + 1] == nos[..i] + [d];
      i := i + 1;
    }
    blocked := true;
    nos' := Restore(w, prev, i, -1, nos);
  }

  method SearchIn(order: seq<Clause>, d: nat, skip: Lit, marks: set<Lit>, ghost cs: seq<Clause>, ghost c: nat,
        ghost lit: Lit)
    returns (found: bool, order': seq<Clause>)
    requires AllReordered(order, cs) && d < |cs| && c < |cs| && c != d && marks == Lits(cs[c])
    requires skip == Neg(lit)
    ensures AllReordered(order', cs) && (found <==> Clashing(cs[c], cs[d], lit))
    ensures !found ==> order' == order
    ensures forall k :: 0 <= k < |cs| && k != d ==> order'[k] == order[k]
  {
    var r;
    assert Reordered(order[d], cs[d]);
    found, r := SearchClause(order[d], skip, marks);
    order' := order;
    if found {
      ghost var i :| 0 <= i < |order[d]| && Clashes(order[d][i], skip, marks) && r == ToFront(order[d], i);
      ToFrontReorders(order[d], i);
      order' := order[d := r];
    }
  }

  // ---------- Candidates ----------

  function AllLits(cs: seq<Clause>, ids: seq<nat>): set<Lit> {
    set k, l | 0 <= k < |ids| && ids[k] < |cs| && l in cs[ids[k]] :: l
  }

  method MarkAll(order: seq<Clause>, ids: seq<nat>) returns (marks: set<Lit>)
    requires Ids(ids, |order|)
    ensures marks == AllLits(order, ids)
  {
    marks := {};
    for k := 0 to |ids|
      invariant marks == AllLits(order, ids[..k])
    {
      assert ids[..k + 1] == ids[..k] + [ids[k]];
      marks := marks + Lits(order[ids[k]]);
      forall l ensures l in marks <==> l in AllLits(order, ids[..k + 1]) {
        if l in order[ids[k]] { assert ids[..k + 1][k] == ids[k]; }
        if l in AllLits(order, ids[..k]) {
          var j :| 0 <= j < k && ids[..k][j] < |order| && l in order[ids[..k][j]];
          assert ids[..k + 1][j] == ids[j];
        }
      }
    }
    assert ids[..|ids|] == ids;
  }

  method AnyClash(d: Clause, skip: Lit, marks: set<Lit>) returns (found: bool)
    ensures found <==> exists l :: l in d && Clashes(l, skip, marks)
  {
    for k := 0 to |d|
      invariant forall j :: 0 <= j < k ==> !Clashes(d[j], skip, marks)
    {
      if Clashes(d[k], skip, marks) { return true; }
    }
    return false;
  }

  // A literal of d clashes with some literal of the given clauses.
  ghost predicate ClashesSome(cs: seq<Clause>, d: Clause, skip: Lit, ids: seq<nat>) {
    exists l :: l in d && Clashes(l, skip, AllLits(cs, ids))
  }

  ghost predicate InLimits(c: Clause, lo: nat, hi: nat) {
    lo <= |c| <= hi
  }

  // Flush garbage and collect clauses within the limits that clash with some negative clause.
  method Candidates(order: seq<Clause>, garbage: set<nat>, pos: seq<nat>, nos: seq<nat>, lit: Lit, lo: nat, hi: nat)
    returns (cands: seq<nat>, pos': seq<nat>)
    requires Ids(pos, |order|) && Ids(nos, |order|) && Distinct(pos)
    ensures Distinct(cands) && Distinct(pos')
    ensures forall c :: c in cands <==>
      c in pos && c !in garbage && c < |order| && InLimits(order[c], lo, hi) && ClashesSome(order, order[c], lit, nos)
    ensures forall c :: c in pos' <==> c in pos && c !in garbage
  {
    var marks := MarkAll(order, nos);
    cands, pos' := [], [];
    for i := 0 to |pos|
      invariant Distinct(cands) && Distinct(pos')
      invariant forall k :: i <= k < |pos| ==> pos[k] !in cands && pos[k] !in pos'
      invariant forall c :: c in cands <==>
        c in pos[..i] && c !in garbage && c < |order| && InLimits(order[c], lo, hi) &&
        ClashesSome(order, order[c], lit, nos)
      invariant forall c :: c in pos' <==> c in pos[..i] && c !in garbage
    {
      var c := pos[i];
      assert pos[..i + 1] == pos[..i] + [c];
      if c !in garbage {
        pos' := pos' + [c];
        if lo <= |order[c]| <= hi {
          var clash := AnyClash(order[c], lit, marks);
          if clash { cands := cands + [c]; }
        }
      }
    }
    assert pos[..|pos|] == pos;
  }

  // A negative clause that clashes with no candidate, if any.
  method Impossible(order: seq<Clause>, cands: seq<nat>, nos: seq<nat>, lit: Lit) returns (impossible: bool)
    requires Ids(cands, |order|) && Ids(nos, |order|)
    ensures impossible <==> exists k :: 0 <= k < |nos| && !ClashesSome(order, order[nos[k]], Neg(lit), cands)
  {
    var marks := MarkAll(order, cands);
    impossible := false;
    for k := 0 to |nos|
      invariant impossible <==> exists j :: 0 <= j < k && !ClashesSome(order, order[nos[j]], Neg(lit), cands)
    {
      var clash := AnyClash(order[nos[k]], Neg(lit), marks);
      if !clash { impossible := true; }
    }
  }

  // ---------- The filters lose nothing ----------

  lemma BlockedIsCandidate(cs: seq<Clause>, c: Clause, nos: seq<nat>, lit: Lit)
    requires AllClash(cs, c, nos, lit) && nos != [] && Ids(nos, |cs|)
    ensures ClashesSome(cs, c, lit, nos)
  {
    assert Clashing(c, cs[nos[0]], lit);
    var l :| l in cs[nos[0]] && Clashes(l, Neg(lit), Lits(c));
    assert Neg(Neg(l)) == l && Neg(l) in c && l in AllLits(cs, nos);
    assert Neg(l) != lit;
    assert Clashes(Neg(l), lit, AllLits(cs, nos));
  }

  lemma ImpossibleMeansNone(cs: seq<Clause>, cands: seq<nat>, nos: seq<nat>, lit: Lit, c: nat, k: nat)
    requires Ids(cands, |cs|) && Ids(nos, |cs|) && k < |nos|
    requires !ClashesSome(cs, cs[nos[k]], Neg(lit), cands) && c in cands
    ensures !AllClash(cs, cs[c], nos, lit)
  {
    forall l | l in cs[nos[k]] ensures !Clashes(l, Neg(lit), Lits(cs[c])) {
      var j :| 0 <= j < |cands| && cands[j] == c;
      assert Neg(l) in cs[c] ==> Neg(l) in AllLits(cs, cands);
    }
    assert !Clashing(cs[c], cs[nos[k]], lit);
  }

  // ---------- Removal ----------

  // Removing a clause blocked on lit is repaired by making lit true.
  lemma BlockedRemoval(b: Base, c: nat, lit: Lit, k: Clause)
    requires c < |b.clauses| && c !in b.garbage && lit in b.clauses[c]
    requires lit !in b.units && Neg(lit) !in b.units
    requires forall d :: 0 <= d < |b.clauses| && d !in b.garbage && Neg(lit) in b.clauses[d] ==>
      Clashing(b.clauses[c], b.clauses[d], lit)
    requires forall l :: l in k <==> l in b.clauses[c]
    ensures Reconstructs(b.Formula(), [Entry([lit], k)], b.(garbage := b.garbage + {c}).Formula())
  {
    forall m: Model | b.(garbage := b.garbage + {c}).Live(m) && !Sat(m, b.clauses[c])
      ensures b.Live(ForceAll(m, [lit]))
    {
      ForceOne(m, lit);
      BlockedForced(b, c, lit, m);
    }
    ClauseRemoval(b, c, [lit], k);
  }

  lemma BlockedForced(b: Base, c: nat, lit: Lit, m: Model)
    requires c < |b.clauses| && lit in b.clauses[c] && lit !in b.units && Neg(lit) !in b.units
    requires b.(garbage := b.garbage + {c}).Live(m) && !Sat(m, b.clauses[c])
    requires forall d :: 0 <= d < |b.clauses| && d !in b.garbage && Neg(lit) in b.clauses[d] ==>
      Clashing(b.clauses[c], b.clauses[d], lit)
    ensures b.Live(Force(m, lit))
  {
    var m' := Force(m, lit);
    forall d | 0 <= d < |b.clauses| && d !in b.garbage ensures Sat(m', b.clauses[d]) {
      if Neg(lit) in b.clauses[d] {
        var l :| l in b.clauses[d] && Clashes(l, Neg(lit), Lits(b.clauses[c]));
        assert Neg(l) in b.clauses[c] && !True(m, Neg(l));
        Negation(m, l);
        assert l == lit || True(m', l);
      } else if d == c {
        assert True(m', lit);
      } else {
        var l :| l in b.clauses[d] && True(m, l);
        assert True(m', l);
      }
    }
  }

  // ---------- Blocking on one literal ----------

  // All resolvents of c with live clauses on lit are tautologies: the naive test.
  ghost predicate BlockedOn(b: Base, c: Clause, lit: Lit) {
    forall d :: 0 <= d < |b.clauses| && d !in b.garbage && Neg(lit) in b.clauses[d] ==> Clashing(c, b.clauses[d], lit)
  }

  // The list holds exactly the live clauses with l.
  ghost predicate Exactly(b: Base, l: Lit, os: seq<nat>) {
    forall d :: d in os <==> 0 <= d < |b.clauses| && d !in b.garbage && l in b.clauses[d]
  }

  lemma ListClash(b: Base, c: Clause, lit: Lit, nos: seq<nat>)
    requires Exactly(b, Neg(lit), nos)
    ensures Ids(nos, |b.clauses|) && (AllClash(b.clauses, c, nos, lit) <==> BlockedOn(b, c, lit))
  {
    forall k | 0 <= k < |nos| ensures nos[k] < |b.clauses| { assert nos[k] in nos; }
    if AllClash(b.clauses, c, nos, lit) {
      forall d | 0 <= d < |b.clauses| && d !in b.garbage && Neg(lit) in b.clauses[d]
        ensures Clashing(c, b.clauses[d], lit)
      {
        var k :| 0 <= k < |nos| && nos[k] == d;
      }
    }
    if BlockedOn(b, c, lit) {
      forall k | 0 <= k < |nos| ensures Clashing(c, b.clauses[nos[k]], lit) { assert nos[k] in nos; }
    }
  }

  // Permuting the list.
  method AsIds(w: seq<int>, ghost nos: seq<nat>, ghost i: nat) returns (r: seq<nat>)
    requires w == nos || (i < |nos| && w == ToFront(nos, i))
    ensures r == w && (forall d :: d in r <==> d in nos) && (Distinct(nos) ==> Distinct(r))
  {
    if w != nos {
      assert nos == nos[..i] + [nos[i]] + nos[i + 1..];
      assert forall k :: 0 <= k < |w| ==> w[k] == nos[if k == 0 then i else if k <= i then k - 1 else k];
      forall k | 0 <= k < |w| ensures w[k] >= 0 { assert w[k] in nos; }
    }
    r := w;
  }

  // The state while candidates are tried: those tried so far are removed if and only if they are blocked.
  ghost predicate Trying(b0: Base, b: Base, lit: Lit, order: seq<Clause>, nos: seq<nat>, tried: set<nat>,
        pushed: seq<Entry>)
  {
    && b.clauses == b0.clauses && b.units == b0.units && AllReordered(order, b0.clauses) && Exactly(b0, Neg(lit), nos)
    && (forall c :: c in b.garbage <==>
         c in b0.garbage || (c in tried && c < |b0.clauses| && BlockedOn(b0, b0.clauses[c], lit)))
    && Reconstructs(b0.Formula(), pushed, b.Formula())
  }

  // A clause that can be removed: live, with lit but without its negation.
  ghost predicate Positive(b: Base, lit: Lit, c: nat) {
    c < |b.clauses| && c !in b.garbage && lit in b.clauses[c] && Neg(lit) !in b.clauses[c]
  }

  lemma SameBlocked(b0: Base, b: Base, lit: Lit, order: seq<Clause>, nos: seq<nat>, tried: set<nat>,
        pushed: seq<Entry>, c: Clause)
    requires Trying(b0, b, lit, order, nos, tried, pushed)
    requires forall c :: c in tried ==> Positive(b0, lit, c)
    ensures BlockedOn(b, c, lit) <==> BlockedOn(b0, c, lit)
  {
    forall d | 0 <= d < |b0.clauses| && Neg(lit) in b0.clauses[d] ensures d in b.garbage <==> d in b0.garbage {
      assert d !in tried;
    }
  }

  method TryCandidate(ghost b0: Base, b: Base, lit: Lit, order: seq<Clause>, nos: seq<nat>, ghost tried: set<nat>,
        pushed: seq<Entry>, c: nat)
    returns (b': Base, order': seq<Clause>, nos': seq<nat>, pushed': seq<Entry>)
    requires Trying(b0, b, lit, order, nos, tried, pushed)
    requires forall c :: c in tried ==> Positive(b0, lit, c)
    requires Positive(b0, lit, c) && c !in tried && lit !in b0.units && Neg(lit) !in b0.units
    ensures Trying(b0, b', lit, order', nos', tried + {c}, pushed')
    ensures Distinct(nos) ==> Distinct(nos')
  {
    ListClash(b0, b0.clauses[c], lit, nos);
    forall k | 0 <= k < |nos| ensures nos[k] != c { assert nos[k] in nos; }
    var blocked, w;
    blocked, order', w := IsBlockedClause(order, c, lit, nos, b0.clauses);
    ghost var i := 0;
    if !blocked {
      i :| 0 <= i < |nos| && w == ToFront(nos, i);
    }
    nos' := AsIds(w, nos, i);
    b', pushed' := b, pushed;
    if blocked {
      SameBlocked(b0, b, lit, order, nos, tried, pushed, b0.clauses[c]);
      assert Reordered(order'[c], b0.clauses[c]);
      BlockedRemoval(b, c, lit, order'[c]);
      ReconstructsCompose(b0.Formula(), pushed, b.Formula(), [Entry([lit], order'[c])], Remove(b, c).Formula());
      b', pushed' := Remove(b, c), pushed + [Entry([lit], order'[c])];
    }
  }

  // Every live clause with l is listed, and only clauses with l are.
  ghost predicate ListsAll(b: Base, l: Lit, os: seq<nat>) {
    && (forall d :: d in os ==> d < |b.clauses| && l in b.clauses[d])
    && (forall d :: 0 <= d < |b.clauses| && d !in b.garbage && l in b.clauses[d] ==> d in os)
  }

  // What blocking on lit removes: clauses with lit all of whose resolvents are
  // tautologies, within the size limits unless lit is pure.
  ghost predicate Removable(b: Base, lit: Lit, lo: nat, hi: nat, c: nat) {
    && Positive(b, lit, c) && BlockedOn(b, b.clauses[c], lit)
    && (Pure(b, lit) || (InLimits(b.clauses[c], lo, hi) && NegativesSmall(b, lit, hi)))
  }

  ghost predicate Pure(b: Base, lit: Lit) {
    forall d :: 0 <= d < |b.clauses| && d !in b.garbage ==> Neg(lit) !in b.clauses[d]
  }

  ghost predicate NegativesSmall(b: Base, lit: Lit, hi: nat) {
    forall d :: 0 <= d < |b.clauses| && d !in b.garbage && Neg(lit) in b.clauses[d] ==> |b.clauses[d]| <= hi
  }

  // The result of blocking on lit.
  ghost predicate BlockResult(b0: Base, b: Base, lit: Lit, lo: nat, hi: nat, order: seq<Clause>, pushed: seq<Entry>) {
    && b.clauses == b0.clauses && b.units == b0.units && AllReordered(order, b0.clauses)
    && (forall c :: c in b.garbage <==> c in b0.garbage || (0 <= c < |b0.clauses| && Removable(b0, lit, lo, hi, c)))
    && Reconstructs(b0.Formula(), pushed, b.Formula())
  }

  method FlushList(b: Base, os: seq<nat>, ghost l: Lit) returns (r: seq<nat>, max: nat)
    requires ListsAll(b, l, os)
    ensures Exactly(b, l, r) && (Distinct(os) ==> Distinct(r))
    ensures r == [] <==> forall d :: 0 <= d < |b.clauses| && d !in b.garbage ==> l !in b.clauses[d]
    ensures forall d :: d in r ==> |b.clauses[d]| <= max
    ensures r != [] ==> exists d :: d in r && |b.clauses[d]| == max
  {
    r, max := [], 0;
    for i := 0 to |os|
      invariant Distinct(os) ==> Distinct(r) && forall k :: i <= k < |os| ==> os[k] !in r
      invariant forall d :: d in r <==> d in os[..i] && d !in b.garbage
      invariant forall d :: d in r ==> d < |b.clauses| && |b.clauses[d]| <= max
      invariant if r == [] then max == 0 else exists d :: d in r && |b.clauses[d]| == max
    {
      assert os[..i + 1] == os[..i] + [os[i]];
      var d := os[i];
      assert d in os;
      if d !in b.garbage {
        r := r + [d];
        if |b.clauses[d]| > max {
          max := |b.clauses[d]|;
          assert d in r;
        }
      }
    }
    assert os[..|os|] == os;
    if r != [] { assert r[0] in r; }
  }

  // At least two negative clauses: filter candidates, then try each of them.
  method BlockMany(b0: Base, order0: seq<Clause>, pos: seq<nat>, nos0: seq<nat>, max: nat, lit: Lit, lo: nat, hi: nat)
    returns (b: Base, order: seq<Clause>, pos': seq<nat>, nos: seq<nat>, pushed: seq<Entry>)
    requires b0.Valid() && AllReordered(order0, b0.clauses) && ListsAll(b0, lit, pos)
    requires Distinct(pos) && lit !in b0.units && Neg(lit) !in b0.units
    requires Exactly(b0, Neg(lit), nos0) && |nos0| > 1
    requires forall d :: d in nos0 ==> |b0.clauses[d]| <= max
    requires exists d :: d in nos0 && |b0.clauses[d]| == max
    ensures BlockResult(b0, b, lit, lo, hi, order, pushed) && ListsAll(b0, lit, pos')
    ensures Distinct(pos') && Exactly(b0, Neg(lit), nos) && (Distinct(nos0) ==> Distinct(nos))
  {
    b, order, pos', nos, pushed := b0, order0, pos, nos0, [];
    ReconstructsSelf(b0.Formula());
    ListClash(b0, [], lit, nos0);
    if max > hi { return; }
    ListedIds(b0, lit, pos);
    var cands;
    cands, pos' := Candidates(order0, b0.garbage, pos, nos0, lit, lo, hi);
    CandidatesPositive(b0, order0, lit, pos, nos0, lo, hi, cands);
    if |cands| > 1 {
      var impossible := Impossible(order0, cands, nos0, lit);
      if impossible {
        NoneRemovable(b0, order0, lit, nos0, lo, hi, cands);
        return;
      }
    }
    ghost var tried;
    b, order, nos, pushed, tried := TryAll(b0, order0, cands, nos0, lit);
    ExactlyRemoved(b0, b, lit, lo, hi, order, nos, tried, pushed, cands);
  }

  lemma ListedIds(b: Base, l: Lit, os: seq<nat>)
    requires ListsAll(b, l, os)
    ensures Ids(os, |b.clauses|)
  {
    forall k | 0 <= k < |os| ensures os[k] < |b.clauses| { assert os[k] in os; }
  }

  // Candidates are live clauses with lit; every removable clause is a candidate.
  ghost predicate CandidatesOk(b: Base, lit: Lit, lo: nat, hi: nat, cands: seq<nat>) {
    && (forall c :: c in cands ==> Positive(b, lit, c) && InLimits(b.clauses[c], lo, hi))
    && (forall c ::
          0 <= c < |b.clauses| && Positive(b, lit, c) && InLimits(b.clauses[c], lo, hi) &&
          BlockedOn(b, b.clauses[c], lit) ==>
          c in cands)
  }

  lemma CandidatesPositive(b: Base, order: seq<Clause>, lit: Lit, pos: seq<nat>, nos: seq<nat>, lo: nat, hi: nat,
        cands: seq<nat>)
    requires b.Valid() && AllReordered(order, b.clauses) && ListsAll(b, lit, pos)
    requires Exactly(b, Neg(lit), nos) && nos != []
    requires forall c :: c in cands <==>
      c in pos && c !in b.garbage && c < |order| && InLimits(order[c], lo, hi) &&
      ClashesSome(order, order[c], lit, nos)
    ensures CandidatesOk(b, lit, lo, hi, cands) && Ids(cands, |b.clauses|)
  {
    forall c | c in cands ensures Positive(b, lit, c) && InLimits(b.clauses[c], lo, hi) {
      assert Reordered(order[c], b.clauses[c]) && !Tautology(b.clauses[c]);
    }
    forall c | 0 <= c < |b.clauses| && Positive(b, lit, c) && InLimits(b.clauses[c], lo, hi) &&
        BlockedOn(b, b.clauses[c], lit)
      ensures c in cands
    {
      ListClash(b, b.clauses[c], lit, nos);
      assert Reordered(order[c], b.clauses[c]);
      forall k | 0 <= k < |nos| && nos[k] < |order| ensures Clashing(order[c], order[nos[k]], lit) {
        SameClashes(b.clauses, order, c, nos[k], lit);
      }
      BlockedIsCandidate(order, order[c], nos, lit);
    }
    forall k | 0 <= k < |cands| ensures cands[k] < |b.clauses| { assert cands[k] in cands; }
  }

  lemma NoneRemovable(b: Base, order: seq<Clause>, lit: Lit, nos: seq<nat>, lo: nat, hi: nat, cands: seq<nat>)
    requires AllReordered(order, b.clauses) && Exactly(b, Neg(lit), nos) && nos != []
    requires CandidatesOk(b, lit, lo, hi, cands)
    requires Ids(cands, |order|) && Ids(nos, |order|)
    requires exists k :: 0 <= k < |nos| && !ClashesSome(order, order[nos[k]], Neg(lit), cands)
    ensures forall c :: 0 <= c < |b.clauses| ==> !Removable(b, lit, lo, hi, c)
  {
    var k :| 0 <= k < |nos| && !ClashesSome(order, order[nos[k]], Neg(lit), cands);
    assert nos[k] in nos && !Pure(b, lit);
    forall c | 0 <= c < |b.clauses| ensures !Removable(b, lit, lo, hi, c) {
      if c in cands {
        ImpossibleMeansNone(order, cands, nos, lit, c, k);
        ListClash(b, b.clauses[c], lit, nos);
        if AllClash(b.clauses, b.clauses[c], nos, lit) {
          forall j | 0 <= j < |nos| && nos[j] < |order| ensures Clashing(order[c], order[nos[j]], lit) {
            SameClashes(b.clauses, order, c, nos[j], lit);
          }
        }
      }
    }
  }

  method TryAll(b0: Base, order0: seq<Clause>, cands: seq<nat>, nos0: seq<nat>, lit: Lit)
    returns (b: Base, order: seq<Clause>, nos: seq<nat>, pushed: seq<Entry>, ghost tried: set<nat>)
    requires AllReordered(order0, b0.clauses) && Exactly(b0, Neg(lit), nos0)
    requires lit !in b0.units && Neg(lit) !in b0.units
    requires Distinct(cands) && forall c :: c in cands ==> Positive(b0, lit, c)
    ensures Trying(b0, b, lit, order, nos, tried, pushed) && (Distinct(nos0) ==> Distinct(nos))
    ensures forall c :: c in tried <==> c in cands
  {
    b, order, nos, pushed, tried := b0, order0, nos0, [], {};
    ReconstructsSelf(b0.Formula());
    for i := 0 to |cands|
      invariant Trying(b0, b, lit, order, nos, tried, pushed) && (Distinct(nos0) ==> Distinct(nos))
      invariant forall c :: c in tried <==> c in cands[..i]
    {
      assert cands[..i + 1] == cands[..i] + [cands[i]] && cands[i] in cands;
      b, order, nos, pushed := TryCandidate(b0, b, lit, order, nos, tried, pushed, cands[i]);
      tried := tried + {cands[i]};
    }
    assert cands[..|cands|] == cands;
  }

  lemma ExactlyRemoved(b0: Base, b: Base, lit: Lit, lo: nat, hi: nat, order: seq<Clause>, nos: seq<nat>,
        tried: set<nat>, pushed: seq<Entry>, cands: seq<nat>)
    requires Trying(b0, b, lit, order, nos, tried, pushed)
    requires forall c :: c in tried <==> c in cands
    requires CandidatesOk(b0, lit, lo, hi, cands)
    requires NegativesSmall(b0, lit, hi) && !Pure(b0, lit)
    ensures BlockResult(b0, b, lit, lo, hi, order, pushed)
  {
    forall c ensures c in b.garbage <==> c in b0.garbage || (0 <= c < |b0.clauses| && Removable(b0, lit, lo, hi, c)) {
    }
  }

  // ---------- One negative clause, or none ----------

  lemma ClashSymmetric(c: Clause, d: Clause, lit: Lit)
    ensures Clashing(c, d, lit) <==> exists l :: l in c && Clashes(l, lit, Lits(d))
  {
    if Clashing(c, d, lit) {
      var l :| l in d && Clashes(l, Neg(lit), Lits(c));
      assert Neg(Neg(l)) == l && Neg(l) in c && Clashes(Neg(l), lit, Lits(d));
    }
    if l :| l in c && Clashes(l, lit, Lits(d)) {
      assert Neg(Neg(l)) == l && Neg(l) in d && Clashes(Neg(l), Neg(lit), Lits(c));
    }
  }

  // Remove the clause c, which is blocked.
  lemma RemoveBlocked(b0: Base, b: Base, lit: Lit, order: seq<Clause>, order': seq<Clause>, nos: seq<nat>,
        tried: set<nat>, pushed: seq<Entry>, c: nat)
    requires Trying(b0, b, lit, order, nos, tried, pushed)
    requires forall c :: c in tried ==> Positive(b0, lit, c)
    requires AllReordered(order', b0.clauses)
    requires Positive(b0, lit, c) && c !in tried && lit !in b0.units && Neg(lit) !in b0.units
    requires BlockedOn(b0, b0.clauses[c], lit)
    ensures Trying(b0, Remove(b, c), lit, order', nos, tried + {c}, pushed + [Entry([lit], order'[c])])
  {
    SameBlocked(b0, b, lit, order, nos, tried, pushed, b0.clauses[c]);
    assert Reordered(order'[c], b0.clauses[c]);
    BlockedRemoval(b, c, lit, order'[c]);
    ReconstructsCompose(b0.Formula(), pushed, b.Formula(), [Entry([lit], order'[c])], Remove(b, c).Formula());
  }

  // With a single negative clause d it is d that is marked.
  method TryAgainst(ghost b0: Base, b: Base, lit: Lit, order: seq<Clause>, d: nat, ghost tried: set<nat>,
        pushed: seq<Entry>, c: nat)
    returns (blocked: bool, b': Base, order': seq<Clause>, pushed': seq<Entry>)
    requires Trying(b0, b, lit, order, [d], tried, pushed)
    requires forall c :: c in tried ==> Positive(b0, lit, c)
    requires d < |b0.clauses|
    requires Positive(b0, lit, c) && c !in tried && lit !in b0.units && Neg(lit) !in b0.units
    ensures Trying(b0, b', lit, order', [d], tried + {c}, pushed')
    ensures blocked <==> BlockedOn(b0, b0.clauses[c], lit)
  {
    ListClash(b0, b0.clauses[c], lit, [d]);
    assert Reordered(order[c], b0.clauses[c]) && Reordered(order[d], b0.clauses[d]);
    ClashSymmetric(order[c], order[d], lit);
    SameClashes(b0.clauses, order, c, d, lit);
    var r;
    blocked, r := SearchClause(order[c], lit, Lits(order[d]));
    assert AllClash(b0.clauses, b0.clauses[c], [d], lit) <==>
      Clashing(b0.clauses[c], b0.clauses[d], lit) by { assert [d][0] == d; }
    b', order', pushed' := b, order, pushed;
    if blocked {
      ghost var i :| 0 <= i < |order[c]| && Clashes(order[c][i], lit, Lits(order[d])) && r == ToFront(order[c], i);
      ToFrontReorders(order[c], i);
      order' := order[c := r];
      RemoveBlocked(b0, b, lit, order, order', [d], tried, pushed, c);
      b', pushed' := Remove(b, c), pushed + [Entry([lit], order'[c])];
    }
  }

  method BlockOne(b0: Base, order0: seq<Clause>, pos: seq<nat>, d: nat, lit: Lit, lo: nat, hi: nat)
    returns (b: Base, order: seq<Clause>, pos': seq<nat>, pushed: seq<Entry>)
    requires b0.Valid() && AllReordered(order0, b0.clauses) && ListsAll(b0, lit, pos)
    requires Distinct(pos) && lit !in b0.units && Neg(lit) !in b0.units
    requires Exactly(b0, Neg(lit), [d])
    ensures BlockResult(b0, b, lit, lo, hi, order, pushed) && ListsAll(b, lit, pos')
    ensures Distinct(pos')
  {
    b, order, pos', pushed := b0, order0, pos, [];
    ReconstructsSelf(b0.Formula());
    assert d in [d];
    OnlyNegative(b0, lit, d, hi);
    if |order[d]| > hi {
      assert Reordered(order[d], b0.clauses[d]);
      return;
    }
    assert Reordered(order[d], b0.clauses[d]);
    ListedIds(b0, lit, pos);
    ghost var tried: set<nat> := {};
    pos' := [];
    for i := 0 to |pos|
      invariant Trying(b0, b, lit, order, [d], tried, pushed)
      invariant forall c :: c in tried <==> c in pos[..i] && Positive(b0, lit, c) && InLimits(b0.clauses[c], lo, hi)
      invariant Distinct(pos') && forall c :: c in pos' <==> c in pos[..i] && c !in b.garbage
    {
      assert pos[..i + 1] == pos[..i] + [pos[i]] && pos[i] in pos && pos[i] !in pos[..i];
      var c := pos[i];
      assert Reordered(order[c], b0.clauses[c]) && !Tautology(b0.clauses[c]);
      assert c in b.garbage <==> c in b0.garbage;
      if c !in b.garbage {
        if lo <= |order[c]| <= hi {
          var blocked;
          blocked, b, order, pushed := TryAgainst(b0, b, lit, order, d, tried, pushed, c);
          tried := tried + {c};
          if !blocked { pos' := pos' + [c]; }
        } else {
          pos' := pos' + [c];
        }
      }
    }
    assert pos[..|pos|] == pos;
    OneRemoved(b0, b, lit, lo, hi, order, d, tried, pushed, pos);
  }

  lemma OnlyNegative(b: Base, lit: Lit, d: nat, hi: nat)
    requires Exactly(b, Neg(lit), [d])
    ensures d < |b.clauses| && !Pure(b, lit)
    ensures NegativesSmall(b, lit, hi) <==> |b.clauses[d]| <= hi
  {
    assert d in [d];
  }

  lemma OneRemoved(b0: Base, b: Base, lit: Lit, lo: nat, hi: nat, order: seq<Clause>, d: nat, tried: set<nat>,
        pushed: seq<Entry>, pos: seq<nat>)
    requires Trying(b0, b, lit, order, [d], tried, pushed) && ListsAll(b0, lit, pos)
    requires forall c :: c in tried <==> c in pos && Positive(b0, lit, c) && InLimits(b0.clauses[c], lo, hi)
    requires !Pure(b0, lit) && NegativesSmall(b0, lit, hi)
    ensures BlockResult(b0, b, lit, lo, hi, order, pushed)
  {
    forall c ensures c in b.garbage <==> c in b0.garbage || (0 <= c < |b0.clauses| && Removable(b0, lit, lo, hi, c)) {
    }
  }

  // A pure literal: all its clauses are blocked.
  method BlockPure(b0: Base, order: seq<Clause>, pos: seq<nat>, lit: Lit, ghost lo: nat, ghost hi: nat)
    returns (b: Base, pushed: seq<Entry>)
    requires b0.Valid() && AllReordered(order, b0.clauses) && ListsAll(b0, lit, pos)
    requires lit !in b0.units && Neg(lit) !in b0.units && Pure(b0, lit)
    ensures BlockResult(b0, b, lit, lo, hi, order, pushed)
  {
    b, pushed := b0, [];
    ReconstructsSelf(b0.Formula());
    ListedIds(b0, lit, pos);
    ghost var tried: set<nat> := {};
    for i := 0 to |pos|
      invariant Trying(b0, b, lit, order, [], tried, pushed)
      invariant forall c :: c in tried <==> c in pos[..i] && Positive(b0, lit, c)
    {
      assert pos[..i + 1] == pos[..i] + [pos[i]] && pos[i] in pos;
      var c := pos[i];
      assert Positive(b0, lit, c) <==> c !in b0.garbage;
      if c !in b.garbage {
        RemoveBlocked(b0, b, lit, order, order, [], tried, pushed, c);
        b, pushed := Remove(b, c), pushed + [Entry([lit], order[c])];
        tried := tried + {c};
      }
    }
    assert pos[..|pos|] == pos;
    forall c ensures c in b.garbage <==> c in b0.garbage || (0 <= c < |b0.clauses| && Removable(b0, lit, lo, hi, c)) {
    }
  }

  ghost predicate AllListed(b: Base, occs: map<Lit, seq<nat>>) {
    forall l: Lit :: ListsAll(b, l, Occs(occs, l)) && Distinct(Occs(occs, l))
  }

  // After clauses have been removed the old lists still cover the live clauses.
  lemma StillListed(b0: Base, b: Base, occs: map<Lit, seq<nat>>, lit: Lit, pos: seq<nat>, nos: seq<nat>)
    requires AllListed(b0, occs) && b.clauses == b0.clauses && b0.garbage <= b.garbage
    requires ListsAll(b, lit, pos) && ListsAll(b, Neg(lit), nos) && Distinct(pos)
    requires Distinct(nos)
    ensures AllListed(b, occs[lit := pos][Neg(lit) := nos])
  {
    var occs' := occs[lit := pos][Neg(lit) := nos];
    forall l: Lit ensures ListsAll(b, l, Occs(occs', l)) && Distinct(Occs(occs', l)) {
      assert ListsAll(b0, l, Occs(occs, l)) && Distinct(Occs(occs, l));
    }
  }

  // The live clauses with the negation of lit.
  function Negatives(b: Base, lit: Lit): set<nat> {
    set d: nat | d < |b.clauses| && d !in b.garbage && Neg(lit) in b.clauses[d]
  }

  lemma NegativesListed(b: Base, lit: Lit, nos: seq<nat>)
    requires Exactly(b, Neg(lit), nos) && Distinct(nos)
    ensures |nos| == |Negatives(b, lit)|
  {
    assert Elements(nos) == Negatives(b, lit);
    DistinctSize(nos);
  }

  class Blocker {
    var db: Base
    var order: seq<Clause>            // literals of the clauses in their current order
    var occs: map<Lit, seq<nat>>
    var pushed: seq<Entry>

    ghost predicate Valid()
      reads this
    {
      db.Valid() && AllReordered(order, db.clauses) && AllListed(db, occs)
    }

    // Try all clauses with lit.
    method BlockLiteral(lit: Lit, lo: nat, hi: nat, occLimit: nat)
      requires Valid() && lit !in db.units && Neg(lit) !in db.units
      modifies this
      ensures Valid() && |pushed| >= |old(pushed)| && pushed[..|old(pushed)|] == old(pushed)
      ensures |Negatives(old(db), lit)| <= occLimit ==>
        BlockResult(old(db), db, lit, lo, hi, order, pushed[|old(pushed)|..])
      ensures |Negatives(old(db), lit)| > occLimit ==> db == old(db) && order == old(order) && pushed == old(pushed)
      ensures Reconstructs(old(db).Formula(), pushed[|old(pushed)|..], db.Formula())
    {
      ReconstructsSelf(db.Formula());
      assert pushed[|pushed|..] == [];
      assert ListsAll(db, lit, Occs(occs, lit)) && Distinct(Occs(occs, lit));
      assert ListsAll(db, Neg(lit), Occs(occs, Neg(lit))) && Distinct(Occs(occs, Neg(lit)));
      var nos, max := FlushList(db, Occs(occs, Neg(lit)), Neg(lit));
      NegativesListed(db, lit, nos);
      if |nos| > occLimit { return; }
      var b, o, lists, es := Dispatch(db, order, Occs(occs, lit), nos, max, lit, lo, hi);
      StillListed(db, b, occs, lit, lists.0, lists.1);
      db, order, occs := b, o, occs[lit := lists.0][Neg(lit) := lists.1];
      pushed := pushed + es;
      assert pushed[|old(pushed)|..] == es;
    }
  }

  // By the number of negative clauses.
  method Dispatch(b0: Base, order0: seq<Clause>, pos: seq<nat>, nos: seq<nat>, max: nat, lit: Lit, lo: nat, hi: nat)
    returns (b: Base, order: seq<Clause>, lists: (seq<nat>, seq<nat>), pushed: seq<Entry>)
    requires b0.Valid() && AllReordered(order0, b0.clauses) && ListsAll(b0, lit, pos)
    requires Distinct(pos) && lit !in b0.units && Neg(lit) !in b0.units
    requires Exactly(b0, Neg(lit), nos) && Distinct(nos)
    requires forall d :: d in nos ==> |b0.clauses[d]| <= max
    requires nos != [] ==> exists d :: d in nos && |b0.clauses[d]| == max
    ensures BlockResult(b0, b, lit, lo, hi, order, pushed) && b.Valid()
    ensures ListsAll(b, lit, lists.0) && ListsAll(b, Neg(lit), lists.1) && Distinct(lists.0)
    ensures Distinct(lists.1)
  {
    if |nos| == 0 {
      assert Pure(b0, lit) by {
        forall d | 0 <= d < |b0.clauses| && d !in b0.garbage ensures Neg(lit) !in b0.clauses[d] { assert d !in nos; }
      }
      b, pushed := BlockPure(b0, order0, pos, lit, lo, hi);
      order, lists := order0, (pos, nos);
    } else if |nos| == 1 {
      assert nos == [nos[0]];
      var pos';
      b, order, pos', pushed := BlockOne(b0, order0, pos, nos[0], lit, lo, hi);
      lists := (pos', nos);
    } else {
      var pos', nos';
      b, order, pos', nos', pushed := BlockMany(b0, order0, pos, nos, max, lit, lo, hi);
      lists := (pos', nos');
    }
  }
}
