// A round of elimination from a data base without satisfied clauses that loses
// models (src/elim.cpp).  The first pivot is 7.  Its resolvent (9, 10, 11) is
// counted, later pairs give the units -10 and -11, and adding the resolvent then
// assigns 9 without propagating it.  Clause (-1, 2, -3, 9) stays, is satisfied,
// and is taken for a gate clause of the second pivot.
module RoundFailure {
  import opened Cnf
  import opened Arithmetic
  import opened Extension
  import opened Resolution
  import opened Propagation
  import opened Gates
  import opened GatesTernaryXor
  import opened GateSearch
  import opened Resolvents
  import opened Removal
  import opened Attempts
  import opened Elim
  import opened ElimFailure

  function Twelve(): (cs: seq<Clause>)
    ensures |cs| == 12
  {
    SixClauses(4) +
    [[7, 9, 10], [7, -10, 12, 13], [7, -11, 12, 13, 14], [-7, 9, 11], [-7, -10, 12, 13], [-7, -11, 12, 13, 14]]
  }

  // The units and the clauses removed, at first, after the first and the second
  // unit found while counting, and after adding the resolvent.
  function Units(n: nat): set<Lit> {
    {-12, -13, -14} + (if n >= 1 then {-10} else {}) + (if n >= 2 then {-11} else {}) + if n >= 3 then {9} else {}
  }

  function Removed(n: nat): set<nat> {
    if n == 0 then {} else if n == 1 then {7, 10} else {7, 8, 10, 11}
  }

  function State(n: nat): Base { Base(Twelve(), Removed(n), Units(n)) }

  lemma TwelveValid()
    ensures forall i :: 0 <= i < 12 ==> NoDup(Twelve()[i]) && !Tautology(Twelve()[i])
  {
    SixValid(4);
    forall i, l | 6 <= i < 12 && l in Twelve()[i] ensures Neg(l) !in Twelve()[i] {
    }
    assert forall i :: 0 <= i < 6 ==> Twelve()[i] == SixClauses(4)[i];
  }

  lemma StateValid(n: nat)
    ensures State(n).Valid() && Unset(7, Units(n)) && Unset(1, Units(n))
  {
    TwelveValid();
  }

  // ---------- The pairs ----------

  function Rest(x: nat, n: nat): set<Lit> {
    if x == 6 then (if n == 0 then {9, 10} else {9})
    else if x == 9 then (if n < 2 then {9, 11} else {9})
    else if x == 7 || x == 10 then {-10}
    else {-11}
  }

  function Sign(x: nat): Lit { if x < 9 then 7 else -7 }

  lemma Opens(x: nat, n: nat)
    requires 6 <= x < 12 && n < 3 && x !in Removed(n)
    ensures Open(Twelve()[x], Sign(x), Units(n)) == Rest(x, n)
    ensures !RestSatisfied(Twelve()[x], Sign(x), Units(n)) && Sign(x) in Twelve()[x]
  {
    var c := Twelve()[x];
    assert c[0] in c && c[1] in c && c[2] in c;
  }

  // Complementary literals in two clauses of the pivot.
  predicate Opposed(ci: nat, di: nat) { (ci == 6 && di == 10) || (ci == 8 && di == 9) }

  lemma Clashes(ci: nat, di: nat)
    requires 6 <= ci < 9 <= di < 12
    ensures Clash(Twelve()[ci], 7, Twelve()[di]) <==> Opposed(ci, di)
  {
    var c, d := Twelve()[ci], Twelve()[di];
    if Opposed(ci, di) {
      var l: Lit := if ci == 6 then 10 else -11;
      assert l in c && Neg(l) in d by { assert if ci == 6 then c[2] == l && d[1] == -10 else c[1] == l && d[2] == 11; }
    }
  }

  ghost predicate LivePair(n: nat, ci: nat, di: nat) {
    n < 3 && 6 <= ci < 9 <= di < 12 && ci !in Removed(n) && di !in Removed(n)
  }

  lemma PairFacts(n: nat, ci: nat, di: nat)
    requires LivePair(n, ci, di)
    ensures Stuck(State(n), 7, ci, di) <==> Opposed(ci, di)
    ensures Open(Twelve()[ci], 7, Units(n)) == Rest(ci, n) && Open(Twelve()[di], Neg(7), Units(n)) == Rest(di, n)
    ensures !RestSatisfied(Twelve()[ci], 7, Units(n)) && !RestSatisfied(Twelve()[di], Neg(7), Units(n))
  {
    Opens(ci, n);
    Opens(di, n);
    Clashes(ci, di);
  }

  lemma ClashStep(n: nat, ci: nat, di: nat, e: Effect)
    requires LivePair(n, ci, di) && Opposed(ci, di) && Resolves(State(n), e, 7, ci, di)
    ensures e == Changed(State(n), 0)
  {
    PairFacts(n, ci, di);
  }

  lemma OnlyUnit(b: Base, p: Lit, ci: nat, di: nat, e: Effect, u: Lit)
    requires b.Valid() && ci < |b.clauses| && di < |b.clauses| && Resolves(b, e, p, ci, di) && !Stuck(b, p, ci, di)
    requires Merge(b, p, ci, di) == {u}
    ensures e == Changed(b.(units := b.units + {u}), u)
  {
    if e.NewResolvent? {
      NoDupSize(e.clause);
    } else if e.Changed? && e.unit == 0 && |e.base.clauses| != |b.clauses| {
      var s, gone :| Shortens(b, e.base, p, ci, di, s, gone);
      NoDupSize(s);
    } else if e.Changed? && e.unit != 0 {
      assert e.unit in {u};
    }
  }

  lemma UnitPair(n: nat, ci: nat, di: nat, e: Effect, u: Lit)
    requires LivePair(n, ci, di) && !Opposed(ci, di) && Resolves(State(n), e, 7, ci, di)
    requires Rest(ci, n) == Rest(di, n) == {u}
    ensures e == Changed(State(n).(units := Units(n) + {u}), u)
  {
    PairFacts(n, ci, di);
    StateValid(n);
    OnlyUnit(State(n), 7, ci, di, e, u);
  }

  predicate Resolving(ci: nat, di: nat) { (ci == 6 && di == 9) || (ci == 6 && di == 11) || (ci == 7 && di == 9) }

  lemma ResolvingPair(ci: nat, di: nat)
    requires Resolving(ci, di)
    ensures LivePair(0, ci, di) && !Stuck(State(0), 7, ci, di) && |Merge(State(0), 7, ci, di)| == 3
    ensures Merge(State(0), 7, ci, di) != Open(Twelve()[ci], 7, Units(0))
    ensures Merge(State(0), 7, ci, di) != Open(Twelve()[di], Neg(7), Units(0))
  {
    PairFacts(0, ci, di);
    assert 10 in Rest(6, 0) && -11 in Rest(11, 0) && -10 in Rest(7, 0) && 11 in Rest(9, 0);
    assert Rest(6, 0) + Rest(9, 0) == {9, 10, 11} && Rest(6, 0) + Rest(11, 0) == {9, 10, -11};
    assert Rest(7, 0) + Rest(9, 0) == {-10, 9, 11};
  }

  lemma CountedPair(ci: nat, di: nat, e: Effect)
    requires Resolving(ci, di) && Resolves(State(0), e, 7, ci, di)
    ensures e.NewResolvent?
  {
    ResolvingPair(ci, di);
    OnlyResolvent(State(0), 7, ci, di, e);
  }

  // ---------- Propagating the units found ----------

  function NextUnit(n: nat): Lit { if n == 0 then -10 else -11 }

  function Assigned(n: nat): Base { State(n).(units := Units(n) + {NextUnit(n)}) }

  // Two models that agree on 9 and above only.
  ghost function FirstModel(): Model { iset{1, 2, 6, 7, 9} }

  ghost function SecondModel(): Model { iset{3, 4, 5, 9} }

  // A literal of each clause that holds in both models, as far as there is one.
  function FirstTrue(i: nat): Lit {
    if i < 2 || i == 4 then 1 else if i == 2 then 2 else if i == 3 then -4 else if i == 5 then 6 else if i < 9 then 7
    else if i == 9 then 9 else if i == 10 then -10 else -11
  }

  function SecondTrue(i: nat): Lit {
    if i == 0 then 3 else if i == 1 then -2 else if i == 4 then 5 else if i < 6 then -1
    else if i == 6 then 9 else if i == 7 then -10 else if i == 8 then -11 else -7
  }

  lemma TwelveHold(i: nat)
    requires i < 12
    ensures FirstTrue(i) in Twelve()[i] && SecondTrue(i) in Twelve()[i]
    ensures True(FirstModel(), FirstTrue(i)) && True(SecondModel(), SecondTrue(i))
  {
    var c := Twelve()[i];
    assert c[0] in c && c[1] in c && (|c| > 2 ==> c[2] in c);
  }

  lemma BothModels(n: nat)
    requires n < 3
    ensures Assigned(n).Live(FirstModel()) && Assigned(n).Live(SecondModel())
    ensures State(n).Live(FirstModel())
  {
    forall i | 0 <= i < 12 ensures Sat(FirstModel(), Twelve()[i]) && Sat(SecondModel(), Twelve()[i]) {
      TwelveHold(i);
    }
  }

  // Literals that hold in both models.
  lemma HoldInBoth(l: Lit)
    requires True(FirstModel(), l) && True(SecondModel(), l)
    ensures !(-7 <= l <= 7) && l != 10 && l != 11 && l != 12 && l != 13 && l != 14
  {
  }

  // A new unit holds in both models and occurs in some clause.
  lemma NewUnits(n: nat, b: Base, u: Lit)
    requires n < 2 && Propagated(Assigned(n), b) && u in b.units && u !in Assigned(n).units
    ensures u == 9 || (u == -11 && n == 0)
  {
    UnitsHold(n, b, u);
    HoldInBoth(u);
    assert OccursLive(Assigned(n), u);
    var i :| 0 <= i < 12 && u in Twelve()[i];
    TwelveVariables(i, u);
  }

  lemma UnitsHold(n: nat, b: Base, u: Lit)
    requires n < 2 && Propagated(Assigned(n), b) && u in b.units
    ensures True(FirstModel(), u) && True(SecondModel(), u)
  {
    BothModels(n);
    assert b.Live(FirstModel()) && b.Live(SecondModel());
  }

  // No clause implies 9 or -11 yet.
  lemma NotSupported(n: nat, b: Base, u: Lit)
    requires n < 2 && Propagated(Assigned(n), b) && (u == 9 || u == -11)
    ensures !Supported(Assigned(n), b.units, u)
  {
    forall i | 0 <= i < 12 && u in Twelve()[i] ensures !SupportedBy(Twelve()[i], b.units, u) {
      var c := Twelve()[i];
      assert c[0] != u && Var(c[0]) <= 7;
      if Neg(c[0]) in b.units {
        UnitsHold(n, b, Neg(c[0]));
        HoldInBoth(Neg(c[0]));
      }
    }
  }

  lemma SettledUnits(n: nat, b: Base)
    requires n < 2 && Settles(Assigned(n), NextUnit(n), b)
    ensures b.units == Units(n + 1)
  {
    forall u | u in b.units ensures u in Units(n + 1) {
      if u !in Assigned(n).units {
        NewUnits(n, b, u);
        NotSupported(n, b, u);
      }
    }
  }

  predicate Has(x: nat, l: Lit)
    requires x < 12
  {
    l in Twelve()[x]
  }

  // The clauses satisfied are those with -10 or -11.
  lemma TwelveSatisfied(x: nat, l: Lit)
    requires x < 12 && Has(x, l)
    ensures l != -12 && l != -13 && l != -14 && (l == -10 ==> x == 7 || x == 10) && (l == -11 ==> x == 8 || x == 11)
  {
  }

  lemma HasUnits()
    ensures Has(7, -10) && Has(10, -10) && Has(8, -11) && Has(11, -11)
  {
    assert Twelve()[7][1] == -10 && Twelve()[10][1] == -10 && Twelve()[8][1] == -11 && Twelve()[11][1] == -11;
  }

  lemma OnlySatisfied(n: nat, b: Base, x: nat)
    requires n < 2 && Propagated(Assigned(n), b) && b.units == Units(n + 1) && x in b.garbage && x !in Removed(n)
    ensures x in Removed(n + 1)
  {
    assert Satisfied(Twelve()[x], b.units);
    var l :| l in Twelve()[x] && l in b.units;
    SatisfiedBy(n, x, l);
  }

  lemma SatisfiedBy(n: nat, x: nat, l: Lit)
    requires n < 2 && x < 12 && Has(x, l) && l in Units(n + 1)
    ensures x in Removed(n + 1)
  {
    TwelveSatisfied(x, l);
  }

  lemma AllSatisfied(n: nat, b: Base, x: nat)
    requires n < 2 && Settles(Assigned(n), NextUnit(n), b) && x in Removed(n + 1)
    ensures x in b.garbage
  {
    NearlyClean(n);
    HasUnits();
    assert NextUnit(n) in Assigned(n).units;
    assert x in Removed(n) || (x in LiveSet(Assigned(n)) && Has(x, NextUnit(n)));
  }

  lemma NearlyClean(n: nat)
    requires n < 2
    ensures CleanBut(Assigned(n), LiveSet(Assigned(n)), {NextUnit(n)})
  {
    forall x, l | x in LiveSet(Assigned(n)) && Has(x, l) && l in Assigned(n).units ensures l == NextUnit(n) {
      TwelveSatisfied(x, l);
    }
  }

  lemma SettledState(n: nat, b: Base)
    requires n < 2 && Settles(Assigned(n), NextUnit(n), b)
    ensures b == State(n + 1)
  {
    SettledUnits(n, b);
    forall x | x in b.garbage && x !in Removed(n) ensures x in Removed(n + 1) { OnlySatisfied(n, b, x); }
    forall x | x in Removed(n + 1) ensures x in b.garbage { AllSatisfied(n, b, x); }
    assert Removed(n) <= Removed(n + 1);
  }

  lemma TwelveVariables(i: nat, u: Lit)
    requires i < 12 && u in Twelve()[i]
    ensures -7 <= u <= 7 || u == 9 || u == 10 || u == -10 || u == 11 || u == -11 || u == 12 || u == 13 || u == 14
  {
  }

  // ---------- The two loops ----------

  // The lists are sorted by size.
  ghost predicate PivotSeven(t: Pivot) {
    t.p == 7 && t.ps == [6, 7, 8] && t.ns == [9, 10, 11] && t.gate == {} && t.b.clauses == Twelve()
  }

  // The state before the pair (i, j) is counted.
  function Stage(i: nat, j: nat): nat {
    if i < 1 || (i == 1 && j <= 1) then 0 else if i == 1 || (i == 2 && j <= 2) then 1 else 2
  }

  lemma CountPairStep(ci: nat, di: nat, n: nat, e: Effect, now: Base, counted: bool)
    requires LivePair(n, ci, di) && n < 2 && Resolves(State(n), e, 7, ci, di) && CountEffect(State(n), e, now, counted)
    requires Resolving(ci, di) || (n == 1 && ci == 8) || (n == 0 && ci < 8 && di == 10)
    requires Resolving(ci, di) ==> n == 0
    ensures now == State(if !Opposed(ci, di) && !Resolving(ci, di) then n + 1 else n)
    ensures counted ==> Resolving(ci, di)
  {
    if Resolving(ci, di) {
      CountedPair(ci, di, e);
    } else if Opposed(ci, di) {
      ClashStep(n, ci, di, e);
    } else {
      UnitPair(n, ci, di, e, NextUnit(n));
      SettledState(n, now);
    }
  }

  lemma CountStepState(t: Pivot, i: nat, j: nat, now: Base, counted: bool)
    requires PivotSeven(t) && i < 3 && j < 3 && t.CountStep(State(Stage(i, j)), now, i, j, counted)
    ensures now == State(Stage(i, j + 1)) && (counted ==> Resolving(6 + i, 9 + j))
  {
    var ci, di, n := 6 + i, 9 + j, Stage(i, j);
    assert t.ps[i] == ci && t.ns[j] == di;
    if t.Wanted(State(n), ci, di) {
      var e :| Resolves(State(n), e, 7, ci, di) && CountEffect(State(n), e, now, counted);
      CountPairStep(ci, di, n, e, now, counted);
    }
  }

  ghost predicate OnlyResolving(r: set<(nat, nat)>) {
    forall k: nat, l: nat :: (k, l) in r ==> Resolving(6 + k, 9 + l)
  }

  lemma CountNextState(t: Pivot, i: nat, j: nat, b0: Base, r0: set<(nat, nat)>, now: Base, r: set<(nat, nat)>,
        counted: bool)
    requires PivotSeven(t) && t.CountLast(b0, r0, i, j, now, r, counted)
    requires b0 == State(Stage(i, j)) && OnlyResolving(r0)
    ensures now == State(Stage(i, j + 1)) && OnlyResolving(r)
  {
    CountStepState(t, i, j, now, counted);
  }

  lemma {:induction false} CountState(t: Pivot, i: nat, j: nat, now: Base, r: set<(nat, nat)>)
    requires PivotSeven(t) && t.b == State(0) && j <= 3 && t.CountRun(i, j, now, r)
    ensures now == State(Stage(i, j)) && OnlyResolving(r)
    decreases i, j
  {
    if j > 0 {
      assert t.CountAfter(i, j - 1, now, r);
      var b0, r0, counted :| t.CountLast(b0, r0, i, j - 1, now, r, counted);
      CountState(t, i, j - 1, b0, r0);
      CountNextState(t, i, j - 1, b0, r0, now, r, counted);
    } else if i > 0 {
      CountState(t, i - 1, 3, now, r);
    }
  }

  lemma AddStepState(t: Pivot, i: nat, j: nat, now: Base)
    requires PivotSeven(t) && i < 3 && j < 3 && t.AddStep(State(if i == j == 0 then 2 else 3), now, i, j)
    ensures now == State(3)
  {
    assert t.ps[i] == 6 + i && t.ns[j] == 9 + j;
    if i == j == 0 {
      var e :| Resolves(State(2), e, 7, 6, 9) && AddEffect(State(2), e, now);
      UnitPair(2, 6, 9, e, 9);
      assert Units(2) + {9} == Units(3);
    }
  }

  lemma {:induction false} AddState(t: Pivot, i: nat, j: nat, now: Base)
    requires PivotSeven(t) && t.b == State(2) && i <= 3 && j <= 3 && t.AddRun(i, j, now)
    ensures now == State(if i == j == 0 then 2 else 3)
    decreases i, j
  {
    if j > 0 {
      assert t.AddAfter(i, j - 1, now);
      var b0 :| t.AddLast(b0, i, j - 1, now);
      AddState(t, i, j - 1, b0);
      AddStepState(t, i, j - 1, now);
    } else if i > 0 {
      AddState(t, i - 1, 3, now);
    }
  }

  // ---------- The first attempt ----------

  lemma SevenHave()
    ensures Having(State(0), 7, {6, 7, 8}) && Having(State(0), Neg(7), {9, 10, 11})
    ensures |{6, 7, 8}| == |{9, 10, 11}| == 3
  {
    forall x | 0 <= x < 12 ensures (7 in Twelve()[x] <==> 6 <= x < 9) && (-7 in Twelve()[x] <==> 9 <= x) { SevenIn(x); }
  }

  lemma SevenIn(x: nat)
    requires x < 12
    ensures (7 in Twelve()[x] <==> 6 <= x < 9) && (-7 in Twelve()[x] <==> 9 <= x)
  {
    assert Twelve()[x][0] in Twelve()[x];
  }

  lemma InOrder(b: Base, os: seq<nat>, x: nat, y: nat, z: nat)
    requires |os| == 3 && Elements(os) == {x, y, z} && BySize(b, os) && SizeOf(b, x) < SizeOf(b, y) < SizeOf(b, z)
    ensures os == [x, y, z]
  {
    assert os[0] in Elements(os) && os[1] in Elements(os) && os[2] in Elements(os);
    assert x in os && y in os && z in os;
  }

  lemma SevenStarts(a: Attempt)
    requires a.before == State(0) && a.pivot == 7 && a.Starts() && a.Ordered()
    ensures a.p == 7 && a.Positive() == [6, 7, 8] && a.Negative() == [9, 10, 11]
  {
    SevenHave();
    StartLists(a, {6, 7, 8}, {9, 10, 11});
    SevenSizes();
    InOrder(a.before, a.Positive(), 6, 7, 8);
    InOrder(a.before, a.Negative(), 9, 10, 11);
  }

  lemma SevenSizes()
    ensures forall x :: 6 <= x < 12 ==> SizeOf(State(0), x) == 3 + (x - 6) % 3
  {
  }

  lemma SevenReads(e: nat, lits: set<Lit>)
    requires Reads(State(0), e, lits) && 7 in lits && |lits| >= 3
    ensures e == 6 && lits == {7, 9, 10}
  {
    assert 7 in Unassigned(Twelve()[e], Units(0));
    SevenHave();
    SevenUnassigned();
  }

  lemma SevenUnassigned()
    ensures Unassigned(Twelve()[6], Units(0)) == {7, 9, 10}
    ensures Unassigned(Twelve()[7], Units(0)) == {7, -10} && Unassigned(Twelve()[8], Units(0)) == {7, -11}
  {
    var c, d, e := Twelve()[6], Twelve()[7], Twelve()[8];
    assert c[0] == 7 && c[1] == 9 && c[2] == 10 && d[0] == 7 && d[1] == -10 && e[0] == 7 && e[1] == -11;
  }

  // There is only one clause of three unassigned literals with 7.
  lemma SevenNoIte(os: seq<nat>)
    requires Distinct(os)
    requires forall x :: x in os ==> x < 12 && 7 in Twelve()[x]
    ensures !IteListed(State(0), os, 7)
  {
    forall i, j | 0 <= i < j < |os| ensures !IteAt(State(0), os[i], os[j], 7) {
      if Ternary(State(0), os[i]) { SevenTernary(os[i]); }
      if Ternary(State(0), os[j]) { SevenTernary(os[j]); }
    }
  }

  lemma SevenTernary(x: nat)
    requires x < 12 && 7 in Twelve()[x] && Ternary(State(0), x)
    ensures x == 6
  {
    TwelveValid();
    var c := Extract(Twelve()[x], Units(0));
    ExtractMeaning(Twelve()[x], Units(0));
    NoDupSize(c);
    assert 7 in Unassigned(Twelve()[x], Units(0));
    SevenReads(x, Lits(c));
  }

  // The clause (-7, -9, 10) of an exclusive-or is missing.
  lemma SevenNoXor(limit: nat)
    ensures !HasXor(State(0), 7, limit)
  {
    forall g, lits, q ensures !IsXor(State(0), g, lits, q, 7, limit) {
      if IsXor(State(0), g, lits, q, 7, limit) {
        var x := SevenXor(g, lits, q, limit);
        NoMinusNine(x);
      }
    }
  }

  lemma SevenXor(g: seq<nat>, lits: Clause, q: nat, limit: nat) returns (x: nat)
    requires IsXor(State(0), g, lits, q, 7, limit)
    ensures x < 12 && -9 in Twelve()[x]
  {
    SignedZero(lits);
    NoDupSize(lits);
    assert lits[q] in Lits(lits) && Reads(State(0), g[0], Lits(lits));
    SevenReads(g[0], Lits(lits));
    var k := FlippedCode(lits);
    x := g[k];
    assert -9 in Unassigned(Twelve()[x], Units(0));
  }

  lemma FlippedCode(lits: Clause) returns (k: nat)
    requires NoDup(lits) && Lits(lits) == {7, 9, 10}
    ensures |lits| == 3 && k < Pow2(2) && -9 in Lits(Signed(lits, EvenCode(k)))
  {
    var c := [7, 9, 10];
    EvenSigns(c);
    assert Lits(c) == {c[0], c[1], c[2]} && Pow2(2) == 4;
    k := Reordered(c, lits, 1);
    var s := Signed(c, EvenCode(1));
    assert s[1] == -9 && s[1] in Lits(s);
  }

  lemma NoMinusNine(x: nat)
    requires x < 12
    ensures -9 !in Twelve()[x]
  {
  }

  // Neither equivalences nor AND gates are looked for.
  predicate OnlyLater(opts: Options) { !opts.equivs && !opts.ands && Looking(opts, 4) && Ample(opts) }

  lemma SevenTried(a: Attempt, opts: Options)
    requires a.before == State(0) && a.pivot == 7 && a.Ok({}, opts) && OnlyLater(opts)
    ensures a.end != PassedOver && a.end != TooFrequent && a.Starts() && a.Searches(opts)
  {
    StateValid(0);
    SevenHave();
    if a.end == TooFrequent { StartLists(a, {6, 7, 8}, {9, 10, 11}); }
  }

  lemma SevenSearched(a: Attempt, opts: Options)
    requires a.before == State(0) && a.pivot == 7 && a.Starts() && a.Searches(opts) && OnlyLater(opts)
    ensures a.searched == State(0) && a.gates == [] && a.p == 7 && PivotSeven(a.Counting())
  {
    SevenStarts(a);
    StateValid(0);
    forall x | x in a.Positive() ensures x < 12 && 7 in Twelve()[x] { SevenIn(x); }
    SevenNoIte(a.Positive());
    SevenNoXor(opts.xorLimit);
    assert SearchedGate(State(0), a.occs, 7, opts) == NoGate;
  }

  lemma FewResolving(r: set<(nat, nat)>)
    requires OnlyResolving(r)
    ensures |r| <= 3
  {
    var all: set<(nat, nat)> := {(0, 0), (0, 2), (1, 0)};
    forall x | x in r ensures x in all {
      assert (x.0, x.1) in r;
    }
    assert |all - r| == |all| - |r|;
  }

  lemma SevenNotTooMuch(t: Pivot, i: nat, j: nat, now: Base, r: set<(nat, nat)>, bound: int, limit: nat)
    requires PivotSeven(t) && t.b == State(0) && bound >= 3 && limit >= 3
    ensures !t.TooMuch(i, j, now, r, bound, limit)
  {
    if t.In(i, j) && t.CountRun(i, j + 1, now, r) {
      CountState(t, i, j + 1, now, r);
      StateValid(Stage(i, j + 1));
      FewResolving(r);
      if (i, j) in r { ResolvingPair(6 + i, 9 + j); }
    }
  }

  lemma SevenBounded(t: Pivot, now: Base, r: set<(nat, nat)>, extra: int, limit: nat)
    requires PivotSeven(t) && t.b == State(0) && extra >= -1 && limit >= 3
    ensures !t.NotBounded(now, r, extra, limit)
  {
    SevenStops(t, now, r, |t.ps| + |t.ns| + extra, limit);
  }

  lemma SevenStops(t: Pivot, now: Base, r: set<(nat, nat)>, bound: int, limit: nat)
    requires PivotSeven(t) && t.b == State(0) && bound >= 3 && limit >= 3
    ensures !t.Stopped(now, r, bound, limit)
  {
    forall i: nat, j: nat ensures !t.TooMuch(i, j, now, r, bound, limit) {
      SevenNotTooMuch(t, i, j, now, r, bound, limit);
    }
  }

  lemma SevenEnd(a: Attempt, opts: Options)
    requires a.before == State(0) && a.pivot == 7 && a.Ok({}, opts) && OnlyLater(opts)
    ensures a.end == Eliminated && PivotSeven(a.Counting()) && a.searched == State(0)
  {
    SevenTried(a, opts);
    SevenSearched(a, opts);
    StateValid(0);
    SevenBounded(a.Counting(), a.counted, a.r, opts.bound, opts.clauseLimit);
    GoesOn(a, opts);
  }

  lemma SevenEliminated(a: Attempt, opts: Options)
    requires a.before == State(0) && a.pivot == 7 && a.Ok({}, opts) && OnlyLater(opts)
    ensures a.end == Eliminated && PivotSeven(a.Adding()) && a.counted == State(2) && a.added == State(3)
  {
    SevenEnd(a, opts);
    CountState(a.Counting(), 3, 0, a.counted, a.r);
    AddState(a.Adding(), 3, 0, a.added);
  }

  // What the first attempt leaves, with the second pivot spoiled.
  function Left(): Base { Base(Twelve(), {6, 7, 8, 9, 10, 11}, Units(3)) }

  lemma LeftSpoiled()
    ensures Spoiled(Left(), 4) && !Clean(Left())
  {
    TwelveValid();
    forall i | 6 <= i < 12 ensures Harmless(Left(), i) {
      NotOneOrFive(i);
    }
    assert Twelve()[2] == SixClauses(4)[2] && SixClauses(4)[2][3] == 9;
    assert 2 in LiveSet(Left()) && 9 in Twelve()[2];
    assert SixClauses(4) <= Twelve();
  }

  lemma NotOneOrFive(i: nat)
    requires 6 <= i < 12
    ensures !Occurs(1, Twelve()[i]) && !Occurs(5, Twelve()[i])
  {
  }

  lemma FirstAttempt(a: Attempt, opts: Options)
    requires a.before == State(0) && a.pivot == 7 && a.Ok({}, opts) && OnlyLater(opts)
    ensures a.end == Eliminated && a.after == Left() && a.counted.units != a.added.units
    ensures Replay(a.Entries(), Broken()) == Broken()
  {
    SevenEliminated(a, opts);
    FirstLeft(a);
    NineAssigned();
  }

  lemma NineAssigned()
    ensures Units(2) != Units(3)
  {
    assert 9 in Units(3) && 9 !in Units(2);
  }

  lemma FirstLeft(a: Attempt)
    requires PivotSeven(a.Adding()) && a.added == State(3) && a.Removes()
    ensures a.after == Left() && Replay(a.Entries(), Broken()) == Broken()
  {
    SevenLeft(a.Adding());
    SevenEntries(a.Adding(), a.ep, a.en);
    ReplaySatisfied(a.Entries(), Broken());
  }

  lemma SevenLeft(t: Pivot)
    requires PivotSeven(t)
    ensures WithoutPivot(State(3), t) == Left()
  {
    assert (set x | x in t.ps) == {6, 7, 8} && (set x | x in t.ns) == {9, 10, 11};
  }

  lemma SevenEntries(t: Pivot, ep: seq<Entry>, en: seq<Entry>)
    requires PivotSeven(t) && EntriesOf(State(3), t, ep, en)
    ensures forall i :: 0 <= i < |ep + en| ==> Sat(Broken(), (ep + en)[i].clause)
  {
    forall i | 0 <= i < |ep + en| ensures Sat(Broken(), (ep + en)[i].clause) {
      if i < |ep| {
        assert ep[i].clause in EntryClauses(ep);
        SevenSaved(t, t.ps, ep[i].clause);
      } else {
        assert en[i - |ep|].clause in EntryClauses(en);
        SevenSaved(t, t.ns, en[i - |ep|].clause);
      }
    }
  }

  lemma SevenSaved(t: Pivot, os: seq<nat>, c: Clause)
    requires PivotSeven(t) && (os == t.ps || os == t.ns) && c in ClausesOf(State(3), Saved(State(3), t.gate, os))
    ensures Sat(Broken(), c)
  {
    var x :| x in Saved(State(3), t.gate, os) && x < 12 && Twelve()[x] == c;
    assert x == 6 || x == 9;
    assert c[1] == 9 && c[1] in c && True(Broken(), 9);
  }

  // ---------- The round ----------

  lemma StartState(b: Base)
    requires SatisfiedMarked(State(0), b)
    ensures b == State(0)
  {
    forall i | i in b.garbage ensures i in Removed(0) {
      NotYetSatisfied(i);
    }
  }

  lemma NotYetSatisfied(i: nat)
    requires i < 12
    ensures !Satisfied(Twelve()[i], Units(0))
  {
    forall l | Has(i, l) ensures l !in Units(0) { TwelveSatisfied(i, l); }
  }

  lemma LastAttempt(b: Base, rest: seq<Attempt>, a: Attempt, opts: Options)
    requires Chain(b, rest + [a], opts)
    ensures Chain(b, rest, opts) && a.before == Last(b, rest) && a.Ok(Gone(rest), opts)
    ensures AllEntries(rest + [a]) == AllEntries(rest) + a.Entries() && Last(b, rest + [a]) == a.after
  {
    assert (rest + [a])[..|rest|] == rest;
  }

  lemma StillOk(a: Attempt, gone: set<Lit>, opts: Options)
    requires a.Ok(gone, opts) && a.pivot !in gone && Neg(a.pivot) !in gone
    ensures a.Ok({}, opts)
  {
  }

  lemma SecondAttempt(a: Attempt, opts: Options)
    requires a.before == Left() && a.pivot == 1 && a.Ok({7}, opts) && OnlyLater(opts)
    ensures a.end == Eliminated && Models(Broken(), a.after.Formula()) && Replay(a.Entries(), Broken()) == Broken()
  {
    LeftSpoiled();
    StillOk(a, {7}, opts);
    SpoiledAttempt(a, 4, opts);
  }

  lemma FirstOfTwo(a: Attempt, opts: Options)
    requires Chain(State(0), [a], opts) && a.pivot == 7 && OnlyLater(opts)
    ensures a.end == Eliminated && a.before == State(0) && a.after == Left()
    ensures Replay(AllEntries([a]), Broken()) == Broken() && Gone([a]) == {7}
  {
    OnlyAttempt(State(0), a, opts);
    OneAttempt(a);
    FirstAttempt(a, opts);
  }

  lemma OnlyAttempt(b: Base, a: Attempt, opts: Options)
    requires Chain(b, [a], opts)
    ensures a.before == b && a.Ok({}, opts)
  {
    assert [a] == [] + [a] && Gone([]) == {};
    LastAttempt(b, [], a, opts);
  }

  lemma OneAttempt(a: Attempt)
    ensures AllEntries([a]) == a.Entries() && (a.end == Eliminated ==> Gone([a]) == {a.pivot})
  {
    assert [a][..0] == [] && AllEntries([]) == [];
    OneMoreGone([], a);
    assert [] + [a] == [a];
  }

  lemma SecondOfTwo(a: Attempt, c: Attempt, opts: Options)
    requires Chain(State(0), [a] + [c], opts) && OnlyLater(opts)
    requires a.after == Left() && Gone([a]) == {7} && c.pivot == 1
    ensures c.end == Eliminated && c.before == Left() && Models(Broken(), c.after.Formula())
    ensures Replay(AllEntries([a] + [c]), Broken()) == Replay(AllEntries([a]), Broken())
  {
    LastAttempt(State(0), [a], c, opts);
    SecondAttempt(c, opts);
    ReplayConcat(AllEntries([a]), c.Entries(), Broken());
  }

  lemma RoundFails(a: Attempt, c: Attempt, opts: Options)
    requires Chain(State(0), [a] + [c], opts) && a.pivot == 7 && c.pivot == 1 && OnlyLater(opts)
    ensures a.end == c.end == Eliminated && a.before == State(0) && a.after == c.before == Left()
    ensures Models(Broken(), c.after.Formula()) && Replay(AllEntries([a] + [c]), Broken()) == Broken()
  {
    LastAttempt(State(0), [a], c, opts);
    FirstOfTwo(a, opts);
    SecondOfTwo(a, c, opts);
  }

  lemma StartBroken()
    ensures !Models(Broken(), State(0).Formula()) && !Unsatisfiable(State(0).Formula())
  {
    FormulaModels(State(0), Broken());
    assert Twelve()[4] == [1, 5] && !Sat(Broken(), Twelve()[4]);
    BothModels(0);
    FormulaModels(State(0), FirstModel());
  }

  // What a run over the two pivots leaves.
  ghost predicate LosesModels(run: seq<Attempt>, now: Base) {
    && |run| == 2 && run[0].before == State(0) && run[0].after == run[1].before == Left() && run[1].after == now
    && !Reconstructs(State(0).Formula(), AllEntries(run), now.Formula())
  }

  lemma RunLosesModels(run: seq<Attempt>, opts: Options)
    requires Chain(State(0), run, opts) && Follows(run, [7, 1]) && OnlyLater(opts)
    ensures LosesModels(run, Last(State(0), run)) && 7 in Gone(run) && 1 in Gone(run)
  {
    assert run == [run[0]] + [run[1]];
    RoundFails(run[0], run[1], opts);
    StartBroken();
  }

  // From a data base without satisfied clauses the round eliminates both
  // variables, the first one leaves a satisfied clause, and what is pushed does
  // not repair every model of what is left.
  method RoundLosesModels(e: Eliminator, opts: Options) returns (ghost run: seq<Attempt>)
    requires e.db == State(0) && !e.unsat && OnlyLater(opts)
    modifies e
    ensures Clean(State(0)) && !Clean(Left())
    ensures !e.unsat && e.pushed == old(e.pushed) + AllEntries(run) && Without(e.db, 7) && Without(e.db, 1)
    ensures LosesModels(run, e.db)
  {
    StateValid(0);
    StartBroken();
    LeftSpoiled();
    var eliminated;
    ghost var start;
    eliminated, start, run := e.ElimRound([7, 1], opts);
    StartState(start);
    RunLosesModels(run, opts);
  }
}
