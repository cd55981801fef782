// Resolving all pairs of clauses on a pivot (src/elim.cpp): counting the
// resolvents while simplifying, and adding and connecting them.
module Resolvents {
  import opened Cnf
  import opened Resolution
  import opened Propagation
  import opened Gates

  // ---------- Occurrence lists of added clauses ----------

  // The lists after adding clause x with literals c.
  function ListClause(occs: map<Lit, seq<nat>>, c: Clause, x: nat): map<Lit, seq<nat>> {
    if c == [] then occs else
      var lists, l := ListClause(occs, c[..|c| - 1], x), c[|c| - 1];
      lists[l := Occs(lists, l) + [x]]
  }

  // The lists after adding the clauses from n on.
  function ListFrom(occs: map<Lit, seq<nat>>, clauses: seq<Clause>, n: nat): map<Lit, seq<nat>> {
    if |clauses| <= n then occs else
      var last := |clauses| - 1;
      ListClause(ListFrom(occs, clauses[..last], n), clauses[last], last)
  }

  lemma {:induction false} ListClauseMeaning(occs: map<Lit, seq<nat>>, c: Clause, x: nat, l: Lit)
    requires NoDup(c)
    ensures Occs(ListClause(occs, c, x), l) == if l in c then Occs(occs, l) + [x] else Occs(occs, l)
  {
    if c != [] {
      var init, last := c[..|c| - 1], c[|c| - 1];
      assert c == init + [last];
      ListClauseMeaning(occs, init, x, l);
    }
  }

  // Connect a clause to the lists of all its literals.
  method Connect(occs: map<Lit, seq<nat>>, c: Clause, x: nat) returns (occs': map<Lit, seq<nat>>)
    ensures occs' == ListClause(occs, c, x)
  {
    occs' := occs;
    for i := 0 to |c|
      invariant occs' == ListClause(occs, c[..i], x)
    {
      assert c[..i + 1][..i] == c[..i];
      occs' := occs'[c[i] := Occs(occs', c[i]) + [x]];
    }
    assert c[..|c|] == c;
  }

  // Connect the clause that was added, if any.
  method ConnectNew(cs: seq<Clause>, cs': seq<Clause>, occs: map<Lit, seq<nat>>) returns (occs': map<Lit, seq<nat>>)
    requires cs <= cs' && |cs'| <= |cs| + 1
    ensures occs' == ListFrom(occs, cs', |cs|)
  {
    occs' := occs;
    if |cs'| > |cs| {
      occs' := Connect(occs, cs'[|cs|], |cs|);
      assert cs'[..|cs|] == cs && ListFrom(occs, cs, |cs|) == occs;
    }
  }

  ghost predicate ListsBelow(b: Base, occs: map<Lit, seq<nat>>, n: nat) {
    && n <= |b.clauses| && CompleteBelow(b, occs, n)
    && forall l: Lit :: ListBelow(b, Occs(occs, l), l, n)
  }

  ghost predicate ListBelow(b: Base, os: seq<nat>, l: Lit, n: nat) {
    Distinct(os) && forall i :: 0 <= i < |os| ==> os[i] < n && os[i] < |b.clauses| && l in b.clauses[os[i]]
  }

  lemma {:induction false} ListFromBelow(b: Base, occs: map<Lit, seq<nat>>, n: nat, k: nat)
    requires b.Valid() && n <= k <= |b.clauses| && ListsBelow(b, occs, n)
    ensures ListsBelow(b, ListFrom(occs, b.clauses[..k], n), k)
  {
    if n < k {
      ListFromBelow(b, occs, n, k - 1);
      var lists, c := ListFrom(occs, b.clauses[..k - 1], n), b.clauses[k - 1];
      assert b.clauses[..k][..k - 1] == b.clauses[..k - 1];
      assert NoDup(c);
      forall l: Lit
        ensures Occs(ListClause(lists, c, k - 1), l) == if l in c then Occs(lists, l) + [k - 1] else Occs(lists, l)
      {
        ListClauseMeaning(lists, c, k - 1, l);
      }
      OneMore(b, lists, ListClause(lists, c, k - 1), c, k - 1);
    }
  }

  // Clause x is added to the lists of the literals in c.
  lemma OneMore(b: Base, lists: map<Lit, seq<nat>>, lists': map<Lit, seq<nat>>, c: Clause, x: nat)
    requires x < |b.clauses| && ListsBelow(b, lists, x)
    requires forall l :: l in c ==> l in b.clauses[x]
    requires forall l :: l in b.clauses[x] && x !in b.garbage ==> l in c || Neg(l) in b.units
    requires forall l: Lit :: Occs(lists', l) == if l in c then Occs(lists, l) + [x] else Occs(lists, l)
    ensures ListsBelow(b, lists', x + 1)
  {
    forall l: Lit ensures ListBelow(b, Occs(lists', l), l, x + 1) {
      assert ListBelow(b, Occs(lists, l), l, x);
      ListGrows(b, Occs(lists, l), Occs(lists', l), l, x);
    }
    forall y, l | 0 <= y < x + 1 && y !in b.garbage && l in b.clauses[y]
      ensures y in Occs(lists', l) || Neg(l) in b.units
    {
      StillIn(b, lists, lists', c, x, y, l);
    }
  }

  lemma ListGrows(b: Base, os: seq<nat>, os': seq<nat>, l: Lit, x: nat)
    requires x < |b.clauses| && ListBelow(b, os, l, x) && (os' == os || (os' == os + [x] && l in b.clauses[x]))
    ensures ListBelow(b, os', l, x + 1)
  {
  }

  lemma StillIn(b: Base, lists: map<Lit, seq<nat>>, lists': map<Lit, seq<nat>>, c: Clause, x: nat, y: nat, l: Lit)
    requires x < |b.clauses| && CompleteBelow(b, lists, x) && y <= x && y !in b.garbage
    requires l in b.clauses[y]
    requires y == x ==> l in c || Neg(l) in b.units
    requires Occs(lists', l) == if l in c then Occs(lists, l) + [x] else Occs(lists, l)
    ensures y in Occs(lists', l) || Neg(l) in b.units
  {
    if y < x {
      assert y in Occs(lists, l) || Neg(l) in b.units;
    } else if l in c {
      assert Occs(lists', l)[|Occs(lists, l)|] == x;
    }
  }

  lemma BelowConnected(b: Base, lists: map<Lit, seq<nat>>)
    requires ListsBelow(b, lists, |b.clauses|)
    ensures Connected(b, lists)
  {
    forall l | l in lists ensures Occurrences(b, l, lists[l]) && Distinct(lists[l]) {
      assert ListBelow(b, Occs(lists, l), l, |b.clauses|);
    }
  }

  ghost predicate Grows(b: Base, b': Base) {
    b.clauses <= b'.clauses && b.garbage <= b'.garbage && b.units <= b'.units
  }

  lemma {:induction false} ListFromTwice(occs: map<Lit, seq<nat>>, cs: seq<Clause>, cs': seq<Clause>, n: nat)
    requires n <= |cs| && cs <= cs'
    ensures ListFrom(ListFrom(occs, cs, n), cs', |cs|) == ListFrom(occs, cs', n)
    decreases |cs'|
  {
    if |cs| < |cs'| {
      ListFromTwice(occs, cs, cs'[..|cs'| - 1], n);
    } else {
      assert cs == cs';
    }
  }

  // Connecting every new clause keeps the lists correct and complete.
  lemma ListsFollow(b: Base, b': Base, occs: map<Lit, seq<nat>>)
    requires Connected(b, occs) && Grows(b, b') && b'.Valid()
    ensures Connected(b', ListFrom(occs, b'.clauses, |b.clauses|))
  {
    var n, lists := |b.clauses|, ListFrom(occs, b'.clauses, |b.clauses|);
    forall l: Lit ensures ListBelow(b', Occs(occs, l), l, n) {
      if l in occs { assert Occurrences(b, l, occs[l]) && Distinct(occs[l]); }
    }
    forall x, l | 0 <= x < n && x !in b'.garbage && l in b'.clauses[x]
      ensures x in Occs(occs, l) || Neg(l) in b'.units
    {
      assert b'.clauses[x] == b.clauses[x];
    }
    ListFromBelow(b', occs, n, |b'.clauses|);
    assert b'.clauses[..|b'.clauses|] == b'.clauses;
    BelowConnected(b', lists);
  }

  // ---------- Resolving one pair ----------

  // Contradiction, an effect on the data base with a unit (or zero) that was
  // assigned, or a resolvent that still has to be added.
  datatype Effect = Skipped | Contradiction | Changed(base: Base, unit: int) | NewResolvent(clause: Clause)

  // ----- What resolving does exactly, apart from the order of literals -----

  // One satisfied antecedent is removed, or nothing happens for complementary literals.
  ghost predicate Drops(b: Base, b': Base, p: Lit, ci: nat, di: nat)
    requires ci < |b.clauses| && di < |b.clauses|
  {
    || (b' == b && Clash(b.clauses[ci], p, b.clauses[di]))
    || (b' == b.(garbage := b.garbage + {ci}) && RestSatisfied(b.clauses[ci], p, b.units))
    || (b' == b.(garbage := b.garbage + {di}) && RestSatisfied(b.clauses[di], Neg(p), b.units))
  }

  // A shorter clause replaces the antecedents in gone, whose other literals it has.
  ghost predicate Shortens(b: Base, b': Base, p: Lit, ci: nat, di: nat, s: Clause, gone: set<nat>)
    requires ci < |b.clauses| && di < |b.clauses|
  {
    && b' == Base(b.clauses + [s], b.garbage + gone, b.units)
    && NoDup(s) && |s| > 1 && Lits(s) == Merge(b, p, ci, di) && gone != {} && gone <= {ci, di}
    && (ci in gone <==> Merge(b, p, ci, di) == Open(b.clauses[ci], p, b.units))
    && (di in gone <==> Merge(b, p, ci, di) == Open(b.clauses[di], Neg(p), b.units))
  }

  ghost predicate Resolves(b: Base, e: Effect, p: Lit, ci: nat, di: nat)
    requires ci < |b.clauses| && di < |b.clauses|
  {
    match e
    case Skipped => ci in b.garbage || di in b.garbage
    case Contradiction => !Stuck(b, p, ci, di) && Merge(b, p, ci, di) == {}
    case Changed(b', unit) =>
      if unit != 0 then
        !Stuck(b, p, ci, di) && Merge(b, p, ci, di) == {unit} && b' == b.(units := b.units + {unit})
      else if |b'.clauses| == |b.clauses| then Drops(b, b', p, ci, di)
      else !Stuck(b, p, ci, di) && exists s, gone :: Shortens(b, b', p, ci, di, s, gone)
    case NewResolvent(r) =>
      && !Stuck(b, p, ci, di) && NoDup(r) && |r| > 1 && Lits(r) == Merge(b, p, ci, di)
      && Merge(b, p, ci, di) != Open(b.clauses[ci], p, b.units)
      && Merge(b, p, ci, di) != Open(b.clauses[di], Neg(p), b.units)
  }

  lemma ResolvesNegated(b: Base, e: Effect, p: Lit, ci: nat, di: nat)
    requires ci < |b.clauses| && di < |b.clauses| && Resolves(b, e, p, ci, di)
    ensures Resolves(b, e, Neg(p), di, ci)
  {
    assert Neg(Neg(p)) == p;
    StuckNegated(b, p, ci, di);
    ClashNegated(b.clauses[ci], p, b.clauses[di]);
    if e.Changed? && e.unit == 0 && |e.base.clauses| != |b.clauses| {
      var s, gone :| Shortens(b, e.base, p, ci, di, s, gone);
      assert Shortens(b, e.base, Neg(p), di, ci, s, gone);
    }
  }

  // Propagating a unit just assigned.
  ghost predicate Settles(b: Base, unit: Lit, b': Base) {
    && Propagated(b, b') && UnitsSupported(b, b')
    && (CleanBut(b, LiveSet(b), {unit}) ==> CleanIn(b', LiveSet(b)))
  }

  // What counting makes of an effect: resolvents are only counted, units are propagated.
  ghost predicate CountEffect(b: Base, e: Effect, b': Base, counted: bool) {
    match e
    case NewResolvent(_) => counted && b' == b
    case Changed(b1, unit) => !counted && if unit == 0 then b' == b1 else Settles(b1, unit, b')
    case _ => false
  }

  ghost predicate CountsAs(b: Base, b': Base, p: Lit, ci: nat, di: nat, counted: bool)
    requires ci < |b.clauses| && di < |b.clauses|
  {
    exists e :: Resolves(b, e, p, ci, di) && CountEffect(b, e, b', counted)
  }

  // What adding makes of it: resolvents are added, units are not propagated.
  ghost predicate AddEffect(b: Base, e: Effect, b': Base) {
    match e
    case NewResolvent(c) => b' == b.(clauses := b.clauses + [c])
    case Changed(b1, _) => b' == b1
    case _ => false
  }

  ghost predicate AddsAs(b: Base, b': Base, p: Lit, ci: nat, di: nat)
    requires ci < |b.clauses| && di < |b.clauses|
  {
    exists e :: Resolves(b, e, p, ci, di) && AddEffect(b, e, b')
  }

  // Resolving without adding a resolvent: models kept, and the pair will not yield one later.
  ghost predicate Simplifies(b: Base, now: Base, p: Lit, ci: nat, di: nat)
    requires ci < |b.clauses| && di < |b.clauses|
  {
    Adds(b, now, p, ci, di) && Stuck(now, p, ci, di)
  }

  ghost predicate Adds(b: Base, now: Base, p: Lit, ci: nat, di: nat)
    requires ci < |b.clauses| && di < |b.clauses|
  {
    ResolutionStep(b, now, p, ci, di) && AtMostOne(b, now, p, ci, di)
  }

  // What it means for the models.
  ghost predicate EffectMeaning(b: Base, e: Effect, p: Lit, ci: nat, di: nat)
    requires ci < |b.clauses| && di < |b.clauses|
  {
    match e
    case Skipped => true
    case Contradiction => forall m: Model :: !b.Live(m)
    case Changed(b', _) => Simplifies(b, b', p, ci, di)
    case NewResolvent(r) => Adds(b, b.(clauses := b.clauses + [r]), p, ci, di)
  }

  lemma ResolventAdds(b: Base, p: Lit, ci: nat, di: nat, r: Clause)
    requires Resolvable(b, p, ci, di)
    requires OutcomeMeaning(Resolvent, r, b.clauses[ci], p, b.clauses[di], b.units)
    ensures Adds(b, b.(clauses := b.clauses + [r]), p, ci, di)
  {
    ResolventStep(b, p, ci, di, r);
    NotStuck(b, p, ci, di, Resolvent, r);
  }

  lemma EffectNegated(b: Base, e: Effect, p: Lit, ci: nat, di: nat)
    requires b.Valid() && ci < |b.clauses| && di < |b.clauses| && EffectMeaning(b, e, p, ci, di)
    ensures EffectMeaning(b, e, Neg(p), di, ci)
  {
    match e
    case Skipped =>
    case Contradiction =>
    case Changed(b', unit) =>
      StepNegated(b, b', p, ci, di);
      StuckNegated(b, p, ci, di);
      StuckNegated(b', p, ci, di);
    case NewResolvent(r) =>
      StepNegated(b, b.(clauses := b.clauses + [r]), p, ci, di);
      StuckNegated(b, p, ci, di);
  }

  lemma NoModel(b: Base, p: Lit, ci: nat, di: nat, r: Clause)
    requires Resolvable(b, p, ci, di)
    requires OutcomeMeaning(EmptyResolvent, r, b.clauses[ci], p, b.clauses[di], b.units)
    ensures forall m: Model :: !b.Live(m)
  {
    forall m: Model ensures !b.Live(m) {
      if b.Live(m) {
        LiveResolvent(b, p, ci, di, m);
        assert !Tautology(b.clauses[ci]) && !Tautology(b.clauses[di]);
        OutcomeImplies(EmptyResolvent, r, b.clauses[ci], p, b.clauses[di], b.units, m);
      }
    }
  }

  // Resolve two live clauses on p.
  method ResolveOrdered(b: Base, ci: nat, p: Lit, di: nat) returns (e: Effect)
    requires Resolvable(b, p, ci, di)
    ensures EffectMeaning(b, e, p, ci, di) && Resolves(b, e, p, ci, di)
  {
    var c, d := b.clauses[ci], b.clauses[di];
    var o, r := Classify(c, p, d, b.units);
    assert PivotIn(c, p) == p && PivotIn(d, p) == Neg(p) by { assert !Tautology(d); }
    match o {
      case FirstSatisfied =>
        SatisfiedStep(b, p, ci, di, ci);
        e := Changed(b.(garbage := b.garbage + {ci}), 0);
      case SecondSatisfied =>
        SatisfiedStep(b, p, ci, di, di);
        e := Changed(b.(garbage := b.garbage + {di}), 0);
      case Tautological =>
        TautologicalStep(b, p, ci, di);
        e := Changed(b, 0);
      case EmptyResolvent =>
        NoModel(b, p, ci, di, r);
        NotStuck(b, p, ci, di, o, r);
        e := Contradiction;
      case UnitResolvent =>
        UnitStep(b, p, ci, di, r);
        UnitStuck(b, p, ci, di, r);
        NotStuck(b, p, ci, di, o, r);
        SingleLiteral(r);
        e := Changed(b.(units := b.units + {r[0]}), r[0]);
      case SubsumesBoth =>
        var s := Strengthened(c, p, b.units);
        e := Shortened(b, ci, p, di, o, r, {ci, di}, s);
      case SubsumesFirst =>
        var s := Strengthened(c, p, b.units);
        e := Shortened(b, ci, p, di, o, r, {ci}, s);
      case SubsumesSecond =>
        var s := Strengthened(d, Neg(p), b.units);
        e := Shortened(b, ci, p, di, o, r, {di}, s);
      case Resolvent =>
        ResolventAdds(b, p, ci, di, r);
        NotStuck(b, p, ci, di, o, r);
        e := NewResolvent(r);
    }
  }

  lemma SingleLiteral(r: Clause)
    requires |r| == 1
    ensures Lits(r) == {r[0]}
  {
  }

  // On-the-fly self-subsumption: clause s replaces those in gone.
  method Shortened(b: Base, ci: nat, p: Lit, di: nat, o: Outcome, r: Clause, gone: set<nat>, s: Clause)
    returns (e: Effect)
    requires Resolvable(b, p, ci, di)
    requires OutcomeMeaning(o, r, b.clauses[ci], p, b.clauses[di], b.units)
    requires (o == SubsumesFirst && gone == {ci}) || (o == SubsumesSecond && gone == {di}) ||
      (o == SubsumesBoth && gone == {ci, di})
    requires Lits(s) == Lits(r) && NoDup(s)
    ensures EffectMeaning(b, e, p, ci, di) && Resolves(b, e, p, ci, di)
  {
    StrengthenStep(b, p, ci, di, o, r, gone, s);
    NotStuck(b, p, ci, di, o, r);
    var b' := Base(b.clauses + [s], b.garbage + gone, b.units);
    NoDupSize(s);
    NoDupSize(r);
    e := Changed(b', 0);
    assert ci != di by { assert !Tautology(b.clauses[ci]); }
    assert Shortens(b, b', p, ci, di, s, gone);
  }

  // Resolve the pair unless one of the two is garbage, larger clause second.
  method ResolveClauses(b: Base, ci: nat, p: Lit, di: nat) returns (e: Effect)
    requires Resolvable(b.(garbage := {}), p, ci, di) && b.Valid()
    ensures e.Skipped? <==> ci in b.garbage || di in b.garbage
    ensures EffectMeaning(b, e, p, ci, di) && Resolves(b, e, p, ci, di)
  {
    if ci in b.garbage || di in b.garbage { return Skipped; }
    if |b.clauses[ci]| > |b.clauses[di]| {
      assert Neg(Neg(p)) == p;
      e := ResolveOrdered(b, di, Neg(p), ci);
      EffectNegated(b, e, Neg(p), di, ci);
      ResolvesNegated(b, e, Neg(p), di, ci);
    } else {
      e := ResolveOrdered(b, ci, p, di);
    }
  }

  // ---------- All pairs of a pivot ----------

  predicate Before(k: nat, l: nat, i: nat, j: nat) {
    k < i || (k == i && l < j)
  }

  // At most n clauses were added, none longer than the limit.
  ghost predicate Added(b: Base, now: Base, n: nat, limit: nat) {
    && b.clauses <= now.clauses && |now.clauses| <= |b.clauses| + n
    && forall i :: |b.clauses| <= i < |now.clauses| ==> |now.clauses[i]| <= limit
  }

  lemma AddedMore(b: Base, before: Base, now: Base, n: nat, k: nat, limit: nat)
    requires Added(b, before, n, limit) && Added(before, now, k, limit)
    ensures Added(b, now, n + k, limit)
  {
    forall i | |b.clauses| <= i < |now.clauses| ensures |now.clauses[i]| <= limit {
      if i < |before.clauses| { assert now.clauses[i] == before.clauses[i]; }
    }
  }

  // A data base with its occurrence lists, a pivot with the clauses of both
  // phases, and the clauses of the gate found for it.
  datatype Pivot = Pivot(b: Base, occs: map<Lit, seq<nat>>, p: Lit, ps: seq<nat>, ns: seq<nat>, gate: set<nat>) {
    ghost predicate Valid() {
      && b.Valid() && Connected(b, occs) && p !in b.units && Neg(p) !in b.units
      && Occurrences(b, p, ps) && Occurrences(b, Neg(p), ns)
    }

    // With a gate only pairs of one gate and one other clause are resolved.
    predicate Wanted(now: Base, ci: nat, di: nat) {
      ci !in now.garbage && di !in now.garbage && (gate != {} ==> (ci in gate) != (di in gate))
    }

    ghost predicate In(k: nat, l: nat) { k < |ps| && l < |ns| && ps[k] < |b.clauses| && ns[l] < |b.clauses| }

    // ----- The runs of both loops, pair by pair -----

    ghost predicate CountStep(now: Base, now': Base, i: nat, j: nat, counted: bool)
      requires In(i, j) && b.clauses <= now.clauses
    {
      if !Wanted(now, ps[i], ns[j]) then now' == now && !counted
      else CountsAs(now, now', p, ps[i], ns[j], counted)
    }

    // Counting the pairs before (i, j) in order can end with this data base and these resolvents.
    ghost predicate CountRun(i: nat, j: nat, now: Base, r: set<(nat, nat)>)
      decreases i, j, 0
    {
      if j > 0 then CountAfter(i, j - 1, now, r)
      else if i > 0 then CountRun(i - 1, |ns|, now, r)
      else now == b && r == {}
    }

    ghost predicate CountAfter(i: nat, j: nat, now: Base, r: set<(nat, nat)>)
      decreases i, j, 2
    {
      exists b0, r0, counted :: CountLast(b0, r0, i, j, now, r, counted)
    }

    ghost predicate CountLast(b0: Base, r0: set<(nat, nat)>, i: nat, j: nat, now: Base, r: set<(nat, nat)>,
          counted: bool)
      decreases i, j, 1
    {
      && In(i, j) && b.clauses <= b0.clauses && CountRun(i, j, b0, r0) && CountStep(b0, now, i, j, counted)
      && r == r0 + if counted then {(i, j)} else {}
    }

    ghost predicate AddStep(now: Base, now': Base, i: nat, j: nat)
      requires In(i, j) && b.clauses <= now.clauses
    {
      if !Wanted(now, ps[i], ns[j]) then now' == now
      else AddsAs(now, now', p, ps[i], ns[j])
    }

    // Adding the resolvents of the pairs before (i, j) in order can end with this data base.
    ghost predicate AddRun(i: nat, j: nat, now: Base)
      decreases i, j, 0
    {
      if j > 0 then AddAfter(i, j - 1, now)
      else if i > 0 then AddRun(i - 1, |ns|, now)
      else now == b
    }

    ghost predicate AddAfter(i: nat, j: nat, now: Base)
      decreases i, j, 2
    {
      exists b0 :: AddLast(b0, i, j, now)
    }

    ghost predicate AddLast(b0: Base, i: nat, j: nat, now: Base)
      decreases i, j, 1
    {
      In(i, j) && b.clauses <= b0.clauses && AddRun(i, j, b0) && AddStep(b0, now, i, j)
    }

    lemma CountNext(b0: Base, r0: set<(nat, nat)>, i: nat, j: nat, now: Base, counted: bool)
      requires In(i, j) && b.clauses <= b0.clauses && CountRun(i, j, b0, r0) && CountStep(b0, now, i, j, counted)
      ensures CountRun(i, j + 1, now, r0 + if counted then {(i, j)} else {})
    {
      assert CountLast(b0, r0, i, j, now, r0 + if counted then {(i, j)} else {}, counted);
    }

    lemma AddNext(b0: Base, i: nat, j: nat, now: Base)
      requires In(i, j) && b.clauses <= b0.clauses && AddRun(i, j, b0) && AddStep(b0, now, i, j)
      ensures AddRun(i, j + 1, now)
    {
      assert AddLast(b0, i, j, now);
    }

    // Why counting stops at pair (i, j): the pivot is assigned, there are too many resolvents, or one is too long.
    ghost predicate TooMuch(i: nat, j: nat, now: Base, r: set<(nat, nat)>, bound: int, limit: nat) {
      && In(i, j) && b.clauses <= now.clauses && CountRun(i, j + 1, now, r)
      && (|| p in now.units || Neg(p) in now.units || |r| > bound
          || ((i, j) in r && |Merge(now, p, ps[i], ns[j])| > limit))
    }

    ghost predicate Stopped(now: Base, r: set<(nat, nat)>, bound: int, limit: nat) {
      exists i, j :: TooMuch(i, j, now, r, bound, limit)
    }

    // A pure pivot with a negative bound, or some pair at which counting stopped.
    ghost predicate NotBounded(now: Base, r: set<(nat, nat)>, extra: int, limit: nat) {
      if |ps| == 0 || |ns| == 0 then extra < 0 && now == b
      else Stopped(now, r, |ps| + |ns| + extra, limit)
    }

    // Without negative clauses there is nothing to count or to add.
    lemma {:induction false} NoPairs(i: nat)
      requires i == 0 || |ns| == 0
      ensures CountRun(i, 0, b, {}) && AddRun(i, 0, b)
    {
      if i > 0 { NoPairs(i - 1); }
    }

    // A row whose clause is garbage changes nothing.
    lemma CountSkipped(i: nat, j: nat, now: Base, r: set<(nat, nat)>)
      requires Valid() && i < |ps| && j <= |ns| && b.clauses <= now.clauses && CountRun(i, 0, now, r)
      requires ps[i] in now.garbage
      ensures CountRun(i, j, now, r)
    {
      if j > 0 {
        CountSkipped(i, j - 1, now, r);
        CountNext(now, r, i, j - 1, now, false);
        assert r + {} == r;
      }
    }

    lemma AddSkipped(i: nat, j: nat, now: Base)
      requires Valid() && i < |ps| && j <= |ns| && b.clauses <= now.clauses && AddRun(i, 0, now)
      requires ps[i] in now.garbage
      ensures AddRun(i, j, now)
    {
      if j > 0 {
        AddSkipped(i, j - 1, now);
        AddNext(now, i, j - 1, now);
      }
    }

    lemma RowSkipped(i: nat, now: Base, r: set<(nat, nat)>)
      requires Valid() && i < |ps| && b.clauses <= now.clauses && CountRun(i, 0, now, r) && ps[i] in now.garbage
      ensures CountRun(i + 1, 0, now, r)
    {
      CountSkipped(i, |ns|, now, r);
    }

    lemma AddRowSkipped(i: nat, now: Base)
      requires Valid() && i < |ps| && b.clauses <= now.clauses && AddRun(i, 0, now) && ps[i] in now.garbage
      ensures AddRun(i + 1, 0, now)
    {
      AddSkipped(i, |ns|, now);
    }

    // ----- Counting -----

    // What counting has established for the pairs up to (i, j): a wanted pair is
    // stuck or in r, and the resolvents of r are not longer than the limit.
    ghost predicate Budget(now: Base, i: nat, j: nat, r: set<(nat, nat)>, limit: nat) {
      && (forall k: nat, l: nat :: (k, l) in r ==> Short(now, k, l, limit) && Before(k, l, i, j))
      && (forall k: nat, l: nat :: In(k, l) && Before(k, l, i, j) ==> (k, l) in r || Settled(now, k, l))
    }

    ghost predicate Short(now: Base, k: nat, l: nat, limit: nat) {
      In(k, l) && b.clauses <= now.clauses && |Merge(now, p, ps[k], ns[l])| <= limit
    }

    ghost predicate Settled(now: Base, k: nat, l: nat)
      requires In(k, l)
    {
      b.clauses <= now.clauses && (Wanted(now, ps[k], ns[l]) ==> Stuck(now, p, ps[k], ns[l]))
    }

    lemma BudgetKept(now: Base, now': Base, i: nat, j: nat, r: set<(nat, nat)>, limit: nat)
      requires Budget(now, i, j, r, limit) && Grows(now, now') && b.clauses <= now.clauses
      ensures Budget(now', i, j, r, limit)
    {
      forall k: nat, l: nat | (k, l) in r ensures Short(now', k, l, limit) && Before(k, l, i, j) {
        assert Short(now, k, l, limit);
        StuckKept(now, now', p, ps[k], ns[l]);
      }
      forall k: nat, l: nat | In(k, l) && Before(k, l, i, j) && (k, l) !in r ensures Settled(now', k, l) {
        assert Settled(now, k, l);
        StuckKept(now, now', p, ps[k], ns[l]);
      }
    }

    lemma BudgetNext(now: Base, i: nat, j: nat, r: set<(nat, nat)>, r': set<(nat, nat)>, limit: nat)
      requires Budget(now, i, j, r, limit) && In(i, j)
      requires (r' == r && Settled(now, i, j)) || (r' == r + {(i, j)} && Short(now, i, j, limit))
      ensures Budget(now, i, j + 1, r', limit)
    {
      forall k: nat, l: nat | (k, l) in r' ensures Short(now, k, l, limit) && Before(k, l, i, j + 1) {
        assert (k, l) in r ==> Before(k, l, i, j);
      }
      forall k: nat, l: nat | In(k, l) && Before(k, l, i, j + 1) ensures (k, l) in r' || Settled(now, k, l) {
        assert Before(k, l, i, j) || (k == i && l == j);
      }
    }

    // The pair (i, j) is not counted yet.
    lemma BudgetGrows(i: nat, j: nat, now: Base, r: set<(nat, nat)>, limit: nat)
      requires Budget(now, i, j, r, limit)
      ensures |r + {(i, j)}| == |r| + 1
    {
      assert (i, j) in r ==> Before(i, j, i, j);
    }

    lemma BudgetRow(now: Base, i: nat, r: set<(nat, nat)>, limit: nat)
      requires Budget(now, i, |ns|, r, limit)
      ensures Budget(now, i + 1, 0, r, limit)
    {
      forall k: nat, l: nat | (k, l) in r ensures Short(now, k, l, limit) && Before(k, l, i + 1, 0) {
        assert Before(k, l, i, |ns|);
      }
      forall k: nat, l: nat | In(k, l) && Before(k, l, i + 1, 0) ensures (k, l) in r || Settled(now, k, l) {
        assert Before(k, l, i, |ns|);
      }
    }

    lemma RowStuck(now: Base, i: nat, r: set<(nat, nat)>, limit: nat)
      requires Budget(now, i, 0, r, limit) && i < |ps| && ps[i] in now.garbage
      requires b.clauses <= now.clauses
      ensures Budget(now, i + 1, 0, r, limit)
    {
      forall k: nat, l: nat | (k, l) in r ensures Short(now, k, l, limit) && Before(k, l, i + 1, 0) {
        assert Before(k, l, i, 0);
      }
      forall k: nat, l: nat | In(k, l) && Before(k, l, i + 1, 0) ensures (k, l) in r || Settled(now, k, l) {
        if k < i { assert Before(k, l, i, 0); }
      }
    }

    // Counting keeps the models; the lists follow the clauses, and the number
    // of resolvents is within the bound.
    ghost predicate CountedTo(now: Base, lists: map<Lit, seq<nat>>, i: nat, j: nat, r: set<(nat, nat)>, limit: nat) {
      && Counted(b, now, p) && p !in now.units && Neg(p) !in now.units
      && lists == ListFrom(occs, now.clauses, |b.clauses|)
      && Budget(now, i, j, r, limit)
    }

    // ----- Adding -----

    // The resolvents of the wanted pairs up to (i, j) follow from the clauses without the pivot.
    ghost predicate ResolvedTo(now: Base, i: nat, j: nat) {
      forall k: nat, l: nat :: In(k, l) && Before(k, l, i, j) ==> PairResolved(now, k, l)
    }

    ghost predicate PairResolved(now: Base, k: nat, l: nat)
      requires In(k, l)
    {
      Wanted(b, ps[k], ns[l]) ==> now.Resolved(b.clauses[ps[k]], p, b.clauses[ns[l]])
    }

    // Adding keeps the models; at most one clause was added for each pair in used.
    ghost predicate AddedTo(now: Base, lists: map<Lit, seq<nat>>, i: nat, j: nat, used: set<(nat, nat)>, limit: nat) {
      && SameModels(b, now, p) && lists == ListFrom(occs, now.clauses, |b.clauses|)
      && Added(b, now, |used|, limit) && (forall k: nat, l: nat :: (k, l) in used ==> Before(k, l, i, j))
      && ResolvedTo(now, i, j)
    }

    lemma Skip(now: Base, k: nat, l: nat)
      requires Valid() && Extends(b, now, p) && In(k, l) && !Wanted(now, ps[k], ns[l])
      ensures PairResolved(now, k, l)
    {
      var ci, di := ps[k], ns[l];
      assert !Tautology(b.clauses[ci]) && !Tautology(b.clauses[di]);
      if Wanted(b, ci, di) && ci in now.garbage {
        assert now.RestImplied(b.clauses[ci], p);
      } else if Wanted(b, ci, di) {
        assert now.RestImplied(b.clauses[di], p);
      }
    }

    lemma ResolvedKept(now: Base, now': Base, i: nat, j: nat)
      requires Extends(now, now', p) && ResolvedTo(now, i, j)
      ensures ResolvedTo(now', i, j)
    {
      forall k: nat, l: nat | In(k, l) && Before(k, l, i, j) ensures PairResolved(now', k, l) {
        assert PairResolved(now, k, l);
        forall m: Model | now'.Other(m, p) ensures now.Other(m, p) { ExtendsOther(now, now', p, m); }
      }
    }

    lemma ResolvedNext(now: Base, i: nat, j: nat)
      requires ResolvedTo(now, i, j) && In(i, j) && PairResolved(now, i, j)
      ensures ResolvedTo(now, i, j + 1)
    {
      forall k: nat, l: nat | In(k, l) && Before(k, l, i, j + 1) ensures PairResolved(now, k, l) {
        assert Before(k, l, i, j) || (k == i && l == j);
      }
    }

    // The end of a row, or a row whose clause is garbage.
    lemma ResolvedRow(now: Base, i: nat, j: nat)
      requires Valid() && Extends(b, now, p) && ResolvedTo(now, i, j) && i < |ps|
      requires j == |ns| || (j == 0 && ps[i] in now.garbage)
      ensures ResolvedTo(now, i + 1, 0)
    {
      forall k: nat, l: nat | In(k, l) && Before(k, l, i + 1, 0) ensures PairResolved(now, k, l) {
        if j == |ns| || k < i {
          assert Before(k, l, i, j);
        } else {
          Skip(now, k, l);
        }
      }
    }

    // A clause added for the pair (i, j) is accounted for by the budget.
    lemma Charge(now: Base, now': Base, i: nat, j: nat, used: set<(nat, nat)>, r: set<(nat, nat)>, limit: nat)
      returns (used': set<(nat, nat)>)
      requires In(i, j) && i < |ps| && Budget(b, |ps|, 0, r, limit) && used <= r && Grows(b, now)
      requires Wanted(now, ps[i], ns[j])
      requires Added(b, now, |used|, limit) && now.clauses <= now'.clauses
      requires AtMostOne(now, now', p, ps[i], ns[j])
      requires forall k: nat, l: nat :: (k, l) in used ==> Before(k, l, i, j)
      ensures used' <= r && Added(b, now', |used'|, limit)
      ensures forall k: nat, l: nat :: (k, l) in used' ==> Before(k, l, i, j + 1)
    {
      used' := used;
      StuckKept(b, now, p, ps[i], ns[j]);
      if |now'.clauses| > |now.clauses| {
        assert Before(i, j, |ps|, 0);
        assert (i, j) in r by { assert !Settled(b, i, j); }
        assert Short(b, i, j, limit);
        NoDupSize(now'.clauses[|now.clauses|]);
        used' := used + {(i, j)};
        assert (i, j) in used ==> Before(i, j, i, j);
        AddedMore(b, now, now', |used|, 1, limit);
      } else {
        assert now'.clauses == now.clauses;
      }
    }

    // The budget for a data base is one for the pivot at that data base.
    lemma Rebased(now: Base, lists: map<Lit, seq<nat>>, i: nat, j: nat, r: set<(nat, nat)>, limit: nat)
      requires Valid() && Budget(now, i, j, r, limit) && b.clauses <= now.clauses
      ensures this.(b := now, occs := lists).Budget(now, i, j, r, limit)
    {
      var t := this.(b := now, occs := lists);
      forall k: nat, l: nat | (k, l) in r ensures t.Short(now, k, l, limit) && Before(k, l, i, j) {
        assert Short(now, k, l, limit);
      }
      forall k: nat, l: nat | t.In(k, l) && Before(k, l, i, j) ensures (k, l) in r || t.Settled(now, k, l) {
        assert In(k, l);
        assert (k, l) in r || Settled(now, k, l);
      }
    }
  }

  // Simplification while counting keeps the models and, as long as p is
  // unassigned, the clauses without p imply what was removed.
  ghost predicate Counted(b: Base, b': Base, p: Lit) {
    && b'.Valid() && Grows(b, b')
    && (forall m: Model :: b.Live(m) <==> b'.Live(m))
    && (p !in b'.units && Neg(p) !in b'.units ==> Extends(b, b', p))
  }

  lemma CountedTransitive(b: Base, b1: Base, b2: Base, p: Lit)
    requires Counted(b, b1, p) && Counted(b1, b2, p) && p !in b1.units && Neg(p) !in b1.units
    ensures Counted(b, b2, p)
  {
    if p !in b2.units && Neg(p) !in b2.units {
      ExtendsTransitive(b, b1, b2, p);
    }
  }

  lemma PropagatedExtends(b: Base, b': Base, p: Lit)
    requires Propagated(b, b') && p !in b'.units && Neg(p) !in b'.units
    ensures Extends(b, b', p)
  {
    forall i | i in b'.garbage && i !in b.garbage ensures b'.Gone(b'.clauses[i], p) {
      var l :| l in b.clauses[i] && l in b'.units;
      forall m: Model | b'.Other(m, p) ensures True(m, l) {
      }
    }
  }

  // The number of resolvents is the size of r and, once there is one, at most the bound.
  ghost predicate Within(resolvents: nat, bound: int, r: set<(nat, nat)>) {
    resolvents == |r| && (resolvents == 0 || resolvents <= bound)
  }

  // Counting stops at the bound, when the pivot gets assigned, or without a model.
  datatype Verdict = Bounded | Unbounded | Refuted

  // What counting one pair does; the size is zero unless there is a resolvent.
  ghost predicate PairCounted(b: Base, occs: map<Lit, seq<nat>>, b': Base, occs': map<Lit, seq<nat>>, p: Lit, ci: nat,
        di: nat, size: nat)
    requires ci < |b.clauses| && di < |b.clauses|
  {
    && Counted(b, b', p) && occs' == ListFrom(occs, b'.clauses, |b.clauses|)
    && CountsAs(b, b', p, ci, di, size > 0)
    && if size == 0 then Stuck(b', p, ci, di) else b' == b && size == |Merge(b, p, ci, di)|
  }

  // Resolve one pair while counting.
  method ResolveEagerly(b: Base, occs: map<Lit, seq<nat>>, ci: nat, p: Lit, di: nat)
    returns (b': Base, occs': map<Lit, seq<nat>>, unsat: bool, size: nat)
    requires Resolvable(b, p, ci, di) && Connected(b, occs)
    ensures unsat ==> forall m: Model :: !b.Live(m)
    ensures unsat || PairCounted(b, occs, b', occs', p, ci, di, size)
  {
    b', occs', unsat, size := b, occs, false, 0;
    var e := ResolveClauses(b, ci, p, di);
    match e {
      case Contradiction => unsat := true;
      case NewResolvent(r) =>
        ResolventSize(b, occs, r, p, ci, di);
        size := |r|;
      case Changed(b1, unit) =>
        b', occs', unsat := PropagateEagerly(b, b1, occs, unit, ci, p, di);
    }
  }

  lemma ResolventSize(b: Base, occs: map<Lit, seq<nat>>, r: Clause, p: Lit, ci: nat, di: nat)
    requires Resolvable(b, p, ci, di) && Resolves(b, NewResolvent(r), p, ci, di)
    ensures PairCounted(b, occs, b, occs, p, ci, di, |r|)
  {
    assert CountEffect(b, NewResolvent(r), b, true);
    assert b.(clauses := b.clauses + [r]).clauses[|b.clauses|] == r;
    NoDupSize(r);
    ExtendsSelf(b, p);
  }

  // Connect a strengthened clause and propagate a unit.
  method PropagateEagerly(b: Base, b1: Base, occs: map<Lit, seq<nat>>, unit: int, ghost ci: nat, ghost p: Lit,
        ghost di: nat)
    returns (b': Base, occs': map<Lit, seq<nat>>, unsat: bool)
    requires Resolvable(b, p, ci, di) && Connected(b, occs)
    requires Simplifies(b, b1, p, ci, di) && Resolves(b, Changed(b1, unit), p, ci, di)
    ensures unsat ==> forall m: Model :: !b.Live(m)
    ensures unsat || PairCounted(b, occs, b', occs', p, ci, di, 0)
  {
    b', unsat := b1, false;
    occs' := ConnectNew(b.clauses, b1.clauses, occs);
    if unit != 0 {
      ListsFollow(b, b1, occs);
      b', unsat := ElimPropagate(b1, occs', unit, LiveSet(b1));
      StuckKept(b1, b', p, ci, di);
      PropagatedCounted(b, b1, b', p);
    }
    if !unsat {
      assert CountEffect(b, Changed(b1, unit), b', false);
    }
  }

  lemma PropagatedCounted(b: Base, b1: Base, b': Base, p: Lit)
    requires Extends(b, b1, p) && Propagated(b1, b') && forall m: Model :: b.Live(m) <==> b1.Live(m)
    ensures Counted(b, b', p)
  {
    if p !in b'.units && Neg(p) !in b'.units {
      PropagatedExtends(b1, b', p);
      ExtendsTransitive(b, b1, b', p);
    }
  }

  // Resolve the pair (i, j) if wanted and count its resolvent.
  method CountPair(t: Pivot, now: Base, lists: map<Lit, seq<nat>>, i: nat, j: nat, resolvents: nat, bound: int,
        limit: nat, ghost r: set<(nat, nat)>)
    returns (v: Verdict, now': Base, lists': map<Lit, seq<nat>>, resolvents': nat, ghost r': set<(nat, nat)>)
    requires t.Valid() && t.CountedTo(now, lists, i, j, r, limit) && Within(resolvents, bound, r)
    requires i < |t.ps| && j < |t.ns| && t.CountRun(i, j, now, r)
    ensures v.Refuted? ==> forall m: Model :: !t.b.Live(m)
    ensures v.Refuted? || (Counted(t.b, now', t.p) && lists' == ListFrom(t.occs, now'.clauses, |t.b.clauses|))
    ensures v.Bounded? ==> t.CountedTo(now', lists', i, j + 1, r', limit) && Within(resolvents', bound, r')
    ensures v.Bounded? ==> t.CountRun(i, j + 1, now', r')
    ensures v.Unbounded? ==> t.TooMuch(i, j, now', r', bound, limit)
  {
    v, now', lists', resolvents', r' := Bounded, now, lists, resolvents, r;
    var ci, p, di := t.ps[i], t.p, t.ns[j];
    if !t.Wanted(now, ci, di) {
      t.BudgetNext(now, i, j, r, r, limit);
      t.CountNext(now, r, i, j, now, false);
      assert r + {} == r;
      return;
    }
    ListsFollow(t.b, now, t.occs);
    SameOccurrences(t.b, now, p, ci, di);
    var unsat, size;
    now', lists', unsat, size := ResolveEagerly(now, lists, ci, p, di);
    if unsat { return Refuted, now, lists, 0, {}; }
    r' := CountedPair(t, now, lists, now', lists', i, j, r, limit, size);
    if size > 0 {
      resolvents' := resolvents + 1;
      if size > limit || resolvents' > bound { return Unbounded, now', lists', resolvents', r'; }
    } else if p in now'.units || Neg(p) in now'.units {
      return Unbounded, now', lists', resolvents', r';
    }
  }

  lemma CountedPair(t: Pivot, now: Base, lists: map<Lit, seq<nat>>, now': Base, lists': map<Lit, seq<nat>>, i: nat,
        j: nat, r: set<(nat, nat)>, limit: nat, size: nat)
    returns (r': set<(nat, nat)>)
    requires t.Valid() && t.In(i, j) && t.CountedTo(now, lists, i, j, r, limit) && t.CountRun(i, j, now, r)
    requires t.Wanted(now, t.ps[i], t.ns[j]) && PairCounted(now, lists, now', lists', t.p, t.ps[i], t.ns[j], size)
    ensures Counted(t.b, now', t.p) && lists' == ListFrom(t.occs, now'.clauses, |t.b.clauses|)
    ensures t.CountRun(i, j + 1, now', r')
    ensures size <= limit ==> t.Budget(now', i, j + 1, r', limit)
    ensures size > 0 ==> now' == now && |Merge(now, t.p, t.ps[i], t.ns[j])| == size
    ensures (size == 0 && r' == r) || (size > 0 && r' == r + {(i, j)} && |r'| == |r| + 1)
  {
    r' := if size > 0 then r + {(i, j)} else r;
    t.CountNext(now, r, i, j, now', size > 0);
    assert r + {} == r;
    BudgetPair(t, now, lists, now', lists', i, j, r, r', limit, size);
  }

  lemma BudgetPair(t: Pivot, now: Base, lists: map<Lit, seq<nat>>, now': Base, lists': map<Lit, seq<nat>>, i: nat,
        j: nat, r: set<(nat, nat)>, r': set<(nat, nat)>, limit: nat, size: nat)
    requires t.Valid() && t.In(i, j) && t.CountedTo(now, lists, i, j, r, limit)
    requires PairCounted(now, lists, now', lists', t.p, t.ps[i], t.ns[j], size)
    requires r' == if size > 0 then r + {(i, j)} else r
    ensures Counted(t.b, now', t.p) && lists' == ListFrom(t.occs, now'.clauses, |t.b.clauses|)
    ensures size <= limit ==> t.Budget(now', i, j + 1, r', limit)
    ensures size > 0 ==> |r'| == |r| + 1
  {
    CountedTransitive(t.b, now, now', t.p);
    ListFromTwice(t.occs, now.clauses, now'.clauses, |t.b.clauses|);
    t.BudgetKept(now, now', i, j, r, limit);
    t.BudgetGrows(i, j, now, r, limit);
    if size <= limit { t.BudgetNext(now', i, j, r, r', limit); }
  }

  method CountRow(t: Pivot, now: Base, lists: map<Lit, seq<nat>>, i: nat, resolvents: nat, bound: int, limit: nat,
        ghost r: set<(nat, nat)>)
    returns (v: Verdict, now': Base, lists': map<Lit, seq<nat>>, resolvents': nat, ghost r': set<(nat, nat)>)
    requires t.Valid() && t.CountedTo(now, lists, i, 0, r, limit) && Within(resolvents, bound, r)
    requires i < |t.ps| && t.CountRun(i, 0, now, r)
    ensures v.Refuted? ==> forall m: Model :: !t.b.Live(m)
    ensures v.Refuted? || (Counted(t.b, now', t.p) && lists' == ListFrom(t.occs, now'.clauses, |t.b.clauses|))
    ensures v.Bounded? ==> t.CountedTo(now', lists', i + 1, 0, r', limit) && Within(resolvents', bound, r')
    ensures v.Bounded? ==> t.CountRun(i + 1, 0, now', r')
    ensures v.Unbounded? ==> t.Stopped(now', r', bound, limit)
  {
    v, now', lists', resolvents', r' := Bounded, now, lists, resolvents, r;
    for j := 0 to |t.ns|
      invariant v.Bounded? && t.CountedTo(now', lists', i, j, r', limit) && t.CountRun(i, j, now', r')
      invariant Within(resolvents', bound, r')
    {
      v, now', lists', resolvents', r' := CountPair(t, now', lists', i, j, resolvents', bound, limit, r');
      if !v.Bounded? { return; }
    }
    t.BudgetRow(now', i, r', limit);
  }

  // Count the resolvents of all pairs.
  method CountRows(t: Pivot, bound: int, limit: nat)
    returns (v: Verdict, now: Base, lists: map<Lit, seq<nat>>, ghost r: set<(nat, nat)>)
    requires t.Valid()
    ensures v.Refuted? ==> forall m: Model :: !t.b.Live(m)
    ensures v.Refuted? || (Counted(t.b, now, t.p) && lists == ListFrom(t.occs, now.clauses, |t.b.clauses|))
    ensures !v.Bounded? || (t.CountedTo(now, lists, |t.ps|, 0, r, limit) && (r == {} || |r| <= bound))
    ensures !v.Bounded? || t.CountRun(|t.ps|, 0, now, r)
    ensures !v.Unbounded? || t.Stopped(now, r, bound, limit)
  {
    now, lists, r := t.b, t.occs, {};
    ExtendsSelf(t.b, t.p);
    t.NoPairs(0);
    var resolvents := 0;
    for i := 0 to |t.ps|
      invariant t.CountedTo(now, lists, i, 0, r, limit) && Within(resolvents, bound, r)
      invariant t.CountRun(i, 0, now, r)
    {
      if t.ps[i] in now.garbage {
        t.RowStuck(now, i, r, limit);
        t.RowSkipped(i, now, r);
      } else {
        v, now, lists, resolvents, r := CountRow(t, now, lists, i, resolvents, bound, limit, r);
        if !v.Bounded? { return; }
      }
    }
    v := Bounded;
  }

  // Count the resolvents, simplifying on the fly; r are the pairs that have one.
  method ResolventsAreBounded(t: Pivot, extra: int, limit: nat)
    returns (v: Verdict, now: Base, lists: map<Lit, seq<nat>>, ghost r: set<(nat, nat)>)
    requires t.Valid()
    ensures v.Refuted? ==> forall m: Model :: !t.b.Live(m)
    ensures v.Refuted? || (Counted(t.b, now, t.p) && lists == ListFrom(t.occs, now.clauses, |t.b.clauses|))
    ensures !v.Bounded? || (t.CountedTo(now, lists, |t.ps|, 0, r, limit) && t.CountRun(|t.ps|, 0, now, r))
    ensures v.Bounded? && extra >= -1 ==> |r| <= |t.ps| + |t.ns| + extra
    ensures !v.Unbounded? || t.NotBounded(now, r, extra, limit)
  {
    if |t.ps| == 0 || |t.ns| == 0 {
      ExtendsSelf(t.b, t.p);
      t.NoPairs(|t.ps|);
      return if extra >= 0 then Bounded else Unbounded, t.b, t.occs, {};
    }
    v, now, lists, r := CountRows(t, |t.ps| + |t.ns| + extra, limit);
  }

  // Resolve the pair (i, j) if wanted, add its resolvent and connect it.
  method AddPair(t: Pivot, now: Base, lists: map<Lit, seq<nat>>, i: nat, j: nat, ghost used: set<(nat, nat)>,
        ghost r: set<(nat, nat)>, ghost limit: nat)
    returns (unsat: bool, now': Base, lists': map<Lit, seq<nat>>, ghost used': set<(nat, nat)>)
    requires t.Valid() && t.Budget(t.b, |t.ps|, 0, r, limit) && i < |t.ps| && j < |t.ns|
    requires t.AddedTo(now, lists, i, j, used, limit) && used <= r && t.AddRun(i, j, now)
    ensures unsat ==> forall m: Model :: !t.b.Live(m)
    ensures unsat || (t.AddedTo(now', lists', i, j + 1, used', limit) && used' <= r)
    ensures unsat || t.AddRun(i, j + 1, now')
  {
    unsat, now', lists', used' := false, now, lists, used;
    var ci, p, di := t.ps[i], t.p, t.ns[j];
    if !t.Wanted(now, ci, di) {
      t.Skip(now, i, j);
      t.ResolvedNext(now, i, j);
      t.AddNext(now, i, j, now);
      assert forall k: nat, l: nat :: (k, l) in used ==> Before(k, l, i, j);
      return;
    }
    SameOccurrences(t.b, now, p, ci, di);
    var e := ResolveClauses(now, ci, p, di);
    match e {
      case Contradiction =>
        unsat := true;
        return;
      case Changed(b', _) => now' := b';
      case NewResolvent(c) => now' := now.(clauses := now.clauses + [c]);
    }
    assert AddEffect(now, e, now');
    t.AddNext(now, i, j, now');
    lists' := ConnectNew(now.clauses, now'.clauses, lists);
    used' := PairAdded(t, now, now', lists, lists', i, j, used, r, limit);
  }

  lemma PairAdded(t: Pivot, now: Base, now': Base, lists: map<Lit, seq<nat>>, lists': map<Lit, seq<nat>>, i: nat,
        j: nat, used: set<(nat, nat)>, r: set<(nat, nat)>, limit: nat)
    returns (used': set<(nat, nat)>)
    requires t.Valid() && t.Budget(t.b, |t.ps|, 0, r, limit) && t.In(i, j) && used <= r
    requires t.AddedTo(now, lists, i, j, used, limit) && t.Wanted(now, t.ps[i], t.ns[j])
    requires Adds(now, now', t.p, t.ps[i], t.ns[j])
    requires lists' == ListFrom(lists, now'.clauses, |now.clauses|)
    ensures used' <= r && t.AddedTo(now', lists', i, j + 1, used', limit)
  {
    ExtendsTransitive(t.b, now, now', t.p);
    ListFromTwice(t.occs, now.clauses, now'.clauses, |t.b.clauses|);
    t.ResolvedKept(now, now', i, j);
    assert now.clauses[t.ps[i]] == t.b.clauses[t.ps[i]] && now.clauses[t.ns[j]] == t.b.clauses[t.ns[j]];
    t.ResolvedNext(now', i, j);
    used' := t.Charge(now, now', i, j, used, r, limit);
  }

  // Add all resolvents on the pivot and connect them.
  method AddResolvents(t: Pivot, ghost r: set<(nat, nat)>, ghost limit: nat)
    returns (unsat: bool, now: Base, lists: map<Lit, seq<nat>>)
    requires t.Valid() && t.Budget(t.b, |t.ps|, 0, r, limit)
    ensures unsat ==> forall m: Model :: !t.b.Live(m)
    ensures unsat || (SameModels(t.b, now, t.p) && Connected(now, lists))
    ensures unsat || t.ResolvedTo(now, |t.ps|, 0)
    ensures unsat || (Added(t.b, now, |r|, limit) && t.AddRun(|t.ps|, 0, now))
  {
    unsat, now, lists := false, t.b, t.occs;
    ghost var used: set<(nat, nat)> := {};
    ExtendsSelf(t.b, t.p);
    t.NoPairs(0);
    for i := 0 to |t.ps|
      invariant !unsat && t.AddedTo(now, lists, i, 0, used, limit) && used <= r && t.AddRun(i, 0, now)
    {
      if t.ps[i] !in now.garbage {
        unsat, now, lists, used := AddRow(t, now, lists, i, used, r, limit);
        if unsat { return; }
      } else {
        t.ResolvedRow(now, i, 0);
        t.AddRowSkipped(i, now);
        assert forall k: nat, l: nat :: (k, l) in used ==> Before(k, l, i, 0);
      }
    }
    ListsFollow(t.b, now, t.occs);
    SubsetSize(used, r);
  }

  method AddRow(t: Pivot, now: Base, lists: map<Lit, seq<nat>>, i: nat, ghost used: set<(nat, nat)>,
        ghost r: set<(nat, nat)>, ghost limit: nat)
    returns (unsat: bool, now': Base, lists': map<Lit, seq<nat>>, ghost used': set<(nat, nat)>)
    requires t.Valid() && t.Budget(t.b, |t.ps|, 0, r, limit) && i < |t.ps|
    requires t.AddedTo(now, lists, i, 0, used, limit) && used <= r && t.AddRun(i, 0, now)
    ensures unsat ==> forall m: Model :: !t.b.Live(m)
    ensures unsat || (t.AddedTo(now', lists', i + 1, 0, used', limit) && used' <= r)
    ensures unsat || t.AddRun(i + 1, 0, now')
  {
    unsat, now', lists', used' := false, now, lists, used;
    for j := 0 to |t.ns|
      invariant !unsat && t.AddedTo(now', lists', i, j, used', limit) && used' <= r && t.AddRun(i, j, now')
    {
      unsat, now', lists', used' := AddPair(t, now', lists', i, j, used', r, limit);
      if unsat { return; }
    }
    t.ResolvedRow(now', i, |t.ns|);
    assert forall k: nat, l: nat :: (k, l) in used' ==> Before(k, l, i, |t.ns|);
  }
}
