// Substituting representatives in all clauses and saving the equivalences for
// model reconstruction (src/decompose.cpp).
module Equivalences {
  import opened Cnf
  import opened Extension
  import opened Resolution
  import opened ImplicationGraph
  import opened Decompose

  // ---------- Substitution in one clause ----------

  // In every model that agrees with the root-level units, all literals have the value of their representative.
  ghost predicate Faithful(m: Model, reprs: map<Lit, Lit>, units: set<Lit>) {
    Agrees(m, units) && forall l :: l in reprs ==> True(m, reprs[l]) == True(m, l)
  }

  // Replace literals by their representatives without duplicates and false literals.
  method Substitute(c: Clause, reprs: map<Lit, Lit>, units: set<Lit>) returns (satisfied: bool, r: Clause)
    requires Consistent(units)
    requires forall l :: l in c && l !in units && Neg(l) !in units ==> l in reprs
    ensures forall m: Model :: Faithful(m, reprs, units) ==>
      (satisfied ==> Sat(m, c)) && (!satisfied ==> (Sat(m, c) <==> Sat(m, r)))
    ensures !satisfied ==> NoDup(r) && !Tautology(r) && forall k :: k in r ==>
      k !in units && Neg(k) !in units && exists l :: l in c && l in reprs && reprs[l] == k
  {
    r, satisfied := [], false;
    var marks: set<Lit> := {};
    for k := 0 to |c|
      invariant NoDup(r) && !Tautology(r) && marks == Lits(r)
      invariant forall n :: 0 <= n < |r| ==> r[n] !in units && Neg(r[n]) !in units && exists l ::
        l in c && l in reprs && reprs[l] == r[n]
      invariant forall m: Model :: Faithful(m, reprs, units) ==> (Sat(m, c[..k]) <==> Sat(m, r))
    {
      var lit := c[k];
      assert lit in c;
      var other := if lit in units || Neg(lit) in units then lit else reprs[lit];
      if other in units || Neg(other) in marks {
        SatisfiedBy(c, reprs, units, k, r);
        return true, [];
      }
      StepSubstitute(c, reprs, units, k, r);
      if Neg(other) !in units && other !in marks {
        LitsSnoc(r, other);
        NoNewPair(r, other);
        r, marks := r + [other], marks + {other};
      }
    }
    assert c[..|c|] == c;
  }

  lemma NoNewPair(r: Clause, l: Lit)
    requires !Tautology(r) && Neg(l) !in r
    ensures !Tautology(r + [l])
  {
    forall k | k in r + [l] ensures Neg(k) !in r + [l] {
      assert Neg(k) == l ==> k == Neg(l);
    }
  }

  // The literal at position k that stands for c[k].
  ghost function Standing(c: Clause, reprs: map<Lit, Lit>, units: set<Lit>, k: nat): Lit
    requires k < |c| && (c[k] !in units && Neg(c[k]) !in units ==> c[k] in reprs)
  {
    if c[k] in units || Neg(c[k]) in units then c[k] else reprs[c[k]]
  }

  lemma SatisfiedBy(c: Clause, reprs: map<Lit, Lit>, units: set<Lit>, k: nat, r: Clause)
    requires k < |c| && (c[k] !in units && Neg(c[k]) !in units ==> c[k] in reprs)
    requires forall m: Model :: Faithful(m, reprs, units) ==> (Sat(m, c[..k]) <==> Sat(m, r))
    requires Standing(c, reprs, units, k) in units || Neg(Standing(c, reprs, units, k)) in Lits(r)
    ensures forall m: Model :: Faithful(m, reprs, units) ==> Sat(m, c)
  {
    var other := Standing(c, reprs, units, k);
    forall m: Model | Faithful(m, reprs, units) ensures Sat(m, c) {
      Negation(m, other);
      if True(m, other) {
        assert True(m, c[k]) && c[k] in c;
      } else {
        assert Neg(other) in r && Sat(m, r);
        var l :| l in c[..k] && True(m, l);
        assert l in c;
      }
    }
  }

  lemma StepSubstitute(c: Clause, reprs: map<Lit, Lit>, units: set<Lit>, k: nat, r: Clause)
    requires k < |c| && (c[k] !in units && Neg(c[k]) !in units ==> c[k] in reprs)
    requires forall m: Model :: Faithful(m, reprs, units) ==> (Sat(m, c[..k]) <==> Sat(m, r))
    ensures forall m: Model :: Faithful(m, reprs, units) ==>
      (Sat(m, c[..k + 1]) <==> Sat(m, r + [Standing(c, reprs, units, k)]))
    ensures var other := Standing(c, reprs, units, k);
      other in r || Neg(other) in units ==> forall m: Model :: Faithful(m, reprs, units) ==>
        (Sat(m, c[..k + 1]) <==> Sat(m, r))
  {
    var other := Standing(c, reprs, units, k);
    var r' := r + [other];
    assert c[..k + 1] == c[..k] + [c[k]];
    forall m: Model | Faithful(m, reprs, units)
      ensures Sat(m, c[..k + 1]) <==> Sat(m, r')
      ensures other in r || Neg(other) in units ==> (Sat(m, c[..k + 1]) <==> Sat(m, r))
    {
      SatSnoc(m, c[..k], c[k]);
      SatSnoc(m, r, other);
      assert True(m, other) == True(m, c[k]);
      Negation(m, other);
    }
  }

  lemma SatSnoc(m: Model, c: Clause, l: Lit)
    ensures Sat(m, c + [l]) <==> Sat(m, c) || True(m, l)
  {
    if Sat(m, c) {
      var k :| k in c && True(m, k);
      assert k in c + [l];
    }
    if True(m, l) { assert l in c + [l]; }
  }

  // ---------- Substitution in all clauses ----------

  // Representatives represent themselves and commute with negation.
  ghost predicate ReprMap(reprs: map<Lit, Lit>) {
    forall l {:trigger ReprAt(reprs, l)} :: l in reprs ==> ReprAt(reprs, l)
  }

  ghost predicate ReprAt(reprs: map<Lit, Lit>, l: Lit)
    requires l in reprs
  {
    reprs[l] in reprs && reprs[reprs[l]] == reprs[l] && Neg(l) in reprs && reprs[Neg(l)] == Neg(reprs[l])
  }

  // What the search for components establishes.
  lemma SearchGivesMap(g: Graph, f: Formula, reprs: map<Lit, Lit>, active: set<nat>, frozen: set<nat>)
    requires WellFormed(g, f)
    requires forall a, b :: Edge(g, a, b) ==> Var(a) in active && Var(b) in active
    requires forall l: Lit :: l in reprs <==> Var(l) in active
    requires forall l :: l in reprs ==> ReprOk(g, l, reprs[l], frozen)
    ensures ReprMap(reprs)
  {
    forall l | l in reprs ensures ReprAt(reprs, l) {
      var r := reprs[l];
      assert Var(Neg(l)) == Var(l);
      ReprNegation(g, f, l, r, reprs[Neg(l)], frozen);
      if r != l {
        EquivActive(g, active, l, r);
        if Var(r) !in frozen { SelfRepresented(g, l, r, reprs[r]); }
      }
    }
  }

  lemma EquivActive(g: Graph, active: set<nat>, a: Lit, b: Lit)
    requires Equiv(g, a, b) && a != b
    requires forall a, b :: Edge(g, a, b) ==> Var(a) in active && Var(b) in active
    ensures Var(b) in active
  {
    var p: seq<Lit> :| |p| > 0 && p[0] == a && p[|p| - 1] == b && Path(g, p);
    assert Edge(g, p[|p| - 2], p[|p| - 1]);
  }

  lemma SelfRepresented(g: Graph, l: Lit, r: Lit, r': Lit)
    requires Representative(g, l, r) && Representative(g, r, r') && !Equiv(g, r, Neg(r))
    ensures r' == r
  {
    EquivOther(g, l, r, r');
    ReachSelf(g, r);
    assert Var(r') <= Var(r) && Var(r) <= Var(r');
  }

  ghost predicate FaithfulTo(m: Model, reprs: map<Lit, Lit>) {
    forall l :: l in reprs ==> True(m, reprs[l]) == True(m, l)
  }

  // The data bases agree in all models that respect the equivalences.
  ghost predicate SameFaithful(b: Base, b': Base, reprs: map<Lit, Lit>) {
    forall m: Model :: FaithfulTo(m, reprs) ==> (b.Live(m) <==> b'.Live(m))
  }

  // No literal of the clause is substituted, and none is assigned.
  predicate AllStay(c: Clause, reprs: map<Lit, Lit>) {
    forall l :: l in c ==> l in reprs && reprs[l] == l
  }

  // The root-level units are of inactive variables or representatives, and the
  // literals of live clauses that are not assigned are active.
  ghost predicate Fits(b: Base, reprs: map<Lit, Lit>) {
    && b.Valid() && ReprMap(reprs)
    && (forall l :: l in b.units && l in reprs ==> reprs[l] == l)
    && (forall i, l ::
         0 <= i < |b.clauses| && i !in b.garbage && l in b.clauses[i] && l !in b.units && Neg(l) !in b.units ==>
         l in reprs)
  }

  // Clauses below i, except those postponed, have representatives only.
  ghost predicate SubstitutedTo(b: Base, reprs: map<Lit, Lit>, postponed: set<nat>, i: nat) {
    forall k :: 0 <= k < i && k < |b.clauses| && k !in b.garbage && k !in postponed ==> AllStay(b.clauses[k], reprs)
  }

  // Postponed clauses hold in all models that respect the equivalences and units.
  ghost predicate Redundant(b: Base, reprs: map<Lit, Lit>, postponed: set<nat>) {
    forall k :: k in postponed ==> k < |b.clauses| && forall m: Model :: Faithful(m, reprs, b.units) ==>
      Sat(m, b.clauses[k])
  }

  ghost predicate Substituting(b0: Base, b: Base, reprs: map<Lit, Lit>, postponed: set<nat>, i: nat) {
    && Fits(b, reprs) && SameFaithful(b0, b, reprs) && |b.clauses| == |b0.clauses|
    && SubstitutedTo(b, reprs, postponed, i) && Redundant(b, reprs, postponed)
  }

  datatype Replacement = Kept | Postponed | Empty | Unit(lit: Lit) | Replaced(clause: Clause)

  // What substituting clause i amounts to.
  ghost predicate ReplacementMeaning(b: Base, reprs: map<Lit, Lit>, i: nat, o: Replacement)
    requires i < |b.clauses|
  {
    var c := b.clauses[i];
    match o
    case Kept => AllStay(c, reprs)
    case Postponed => forall m: Model :: Faithful(m, reprs, b.units) ==> Sat(m, c)
    case Empty => forall m: Model :: Faithful(m, reprs, b.units) ==> !Sat(m, c)
    case Unit(u) =>
      && u in reprs && reprs[u] == u && u !in b.units && Neg(u) !in b.units
      && forall m: Model :: Faithful(m, reprs, b.units) ==> (Sat(m, c) <==> True(m, u))
    case Replaced(r) =>
      && AllStay(r, reprs) && NoDup(r) && !Tautology(r)
      && forall m: Model :: Faithful(m, reprs, b.units) ==> (Sat(m, c) <==> Sat(m, r))
  }

  method SubstituteClause(b: Base, reprs: map<Lit, Lit>, i: nat) returns (o: Replacement)
    requires Fits(b, reprs) && i < |b.clauses| && i !in b.garbage
    ensures ReplacementMeaning(b, reprs, i, o)
  {
    var c := b.clauses[i];
    if AllStay(c, reprs) { return Kept; }
    var satisfied, r := Substitute(c, reprs, b.units);
    if satisfied { return Postponed; }
    forall k | k in r ensures k in reprs && reprs[k] == k {
      var l :| l in c && l in reprs && reprs[l] == k;
      assert ReprAt(reprs, l);
    }
    if |r| == 0 {
      o := Empty;
    } else if |r| == 1 {
      assert r[0] in r && r == [r[0]];
      o := Unit(r[0]);
    } else {
      o := Replaced(r);
    }
  }

  // The effect of a replacement on the data base.
  function Replace(b: Base, i: nat, o: Replacement): Base
    requires i < |b.clauses|
  {
    match o
    case Unit(u) => b.(units := b.units + {u}, garbage := b.garbage + {i})
    case Replaced(r) => b.(clauses := b.clauses[i := r])
    case _ => b
  }

  lemma ReplaceSame(b: Base, reprs: map<Lit, Lit>, i: nat, o: Replacement)
    requires i < |b.clauses| && i !in b.garbage && ReplacementMeaning(b, reprs, i, o)
    requires !o.Empty?
    ensures SameFaithful(b, Replace(b, i, o), reprs)
  {
    var b' := Replace(b, i, o);
    forall m: Model | FaithfulTo(m, reprs) ensures b.Live(m) <==> b'.Live(m) {
      if Agrees(m, b.units) { assert Faithful(m, reprs, b.units); }
      if b'.Live(m) {
        forall k | 0 <= k < |b.clauses| && k !in b.garbage ensures Sat(m, b.clauses[k]) {
          if k != i { assert b'.clauses[k] == b.clauses[k]; } else if o.Replaced? { assert Sat(m, b'.clauses[i]); }
        }
      }
      if b.Live(m) {
        assert Sat(m, b.clauses[i]);
      }
    }
  }

  lemma ReplaceFits(b: Base, reprs: map<Lit, Lit>, i: nat, o: Replacement)
    requires Fits(b, reprs) && i < |b.clauses| && i !in b.garbage
    requires ReplacementMeaning(b, reprs, i, o)
    ensures Fits(Replace(b, i, o), reprs)
  {
  }

  lemma ReplaceStep(b0: Base, b: Base, reprs: map<Lit, Lit>, postponed: set<nat>, i: nat, o: Replacement)
    requires Substituting(b0, b, reprs, postponed, i) && i < |b.clauses| && i !in b.garbage
    requires i !in postponed && !o.Empty?
    requires ReplacementMeaning(b, reprs, i, o)
    ensures Substituting(b0, Replace(b, i, o), reprs, if o.Postponed? then postponed + {i} else postponed, i + 1)
  {
    ReplaceSame(b, reprs, i, o);
    ReplaceFits(b, reprs, i, o);
    ReplaceRest(b, reprs, postponed, i, o);
    ReplaceRedundant(b, reprs, postponed, i, o);
  }

  lemma ReplaceRest(b: Base, reprs: map<Lit, Lit>, postponed: set<nat>, i: nat, o: Replacement)
    requires SubstitutedTo(b, reprs, postponed, i) && i < |b.clauses|
    requires ReplacementMeaning(b, reprs, i, o) && !o.Empty?
    ensures SubstitutedTo(Replace(b, i, o), reprs, if o.Postponed? then postponed + {i} else postponed, i + 1)
  {
    var b', postponed' := Replace(b, i, o), if o.Postponed? then postponed + {i} else postponed;
    forall k | 0 <= k < i + 1 && k !in b'.garbage && k !in postponed' ensures AllStay(b'.clauses[k], reprs) {
    }
  }

  lemma ReplaceRedundant(b: Base, reprs: map<Lit, Lit>, postponed: set<nat>, i: nat, o: Replacement)
    requires Redundant(b, reprs, postponed) && i < |b.clauses| && i !in postponed
    requires ReplacementMeaning(b, reprs, i, o)
    ensures Redundant(Replace(b, i, o), reprs, if o.Postponed? then postponed + {i} else postponed)
  {
    var b', postponed' := Replace(b, i, o), if o.Postponed? then postponed + {i} else postponed;
    forall k, m: Model | k in postponed' && Faithful(m, reprs, b'.units)
      ensures k < |b'.clauses| && Sat(m, b'.clauses[k])
    {
      assert Faithful(m, reprs, b.units);
    }
  }

  // Substitute in all clauses and drop those postponed.
  method SubstituteAll(b0: Base, reprs: map<Lit, Lit>) returns (unsat: bool, b: Base)
    requires Fits(b0, reprs)
    ensures unsat ==> forall m: Model :: FaithfulTo(m, reprs) ==> !b0.Live(m)
    ensures unsat || (Fits(b, reprs) && SameFaithful(b0, b, reprs) && SubstitutedTo(b, reprs, {}, |b.clauses|))
  {
    unsat, b := false, b0;
    var postponed: set<nat> := {};
    for i := 0 to |b0.clauses|
      invariant !unsat && Substituting(b0, b, reprs, postponed, i)
      invariant forall k :: k in postponed ==> k < i
    {
      if i !in b.garbage {
        var o := SubstituteClause(b, reprs, i);
        if o.Empty? {
          NoFaithfulModel(b0, b, reprs, i);
          return true, b;
        }
        ReplaceStep(b0, b, reprs, postponed, i, o);
        if o.Postponed? { postponed := postponed + {i}; }
        b := Replace(b, i, o);
      }
    }
    DropPostponed(b0, b, reprs, postponed);
    b := b.(garbage := b.garbage + postponed);
  }

  lemma NoFaithfulModel(b0: Base, b: Base, reprs: map<Lit, Lit>, i: nat)
    requires SameFaithful(b0, b, reprs) && i < |b.clauses| && i !in b.garbage
    requires ReplacementMeaning(b, reprs, i, Empty)
    ensures forall m: Model :: FaithfulTo(m, reprs) ==> !b0.Live(m)
  {
    forall m: Model | FaithfulTo(m, reprs) ensures !b.Live(m) {
      if Agrees(m, b.units) { assert Faithful(m, reprs, b.units) && !Sat(m, b.clauses[i]); }
    }
  }

  lemma DropPostponed(b0: Base, b: Base, reprs: map<Lit, Lit>, postponed: set<nat>)
    requires Substituting(b0, b, reprs, postponed, |b.clauses|)
    ensures var b' := b.(garbage := b.garbage + postponed);
      Fits(b', reprs) && SameFaithful(b0, b', reprs) && SubstitutedTo(b', reprs, {}, |b'.clauses|)
  {
    var b' := b.(garbage := b.garbage + postponed);
    forall m: Model | FaithfulTo(m, reprs) ensures b.Live(m) <==> b'.Live(m) {
      if b'.Live(m) {
        assert Faithful(m, reprs, b.units);
        forall k | 0 <= k < |b.clauses| && k !in b.garbage ensures Sat(m, b.clauses[k]) {
          assert k in postponed || k !in b'.garbage;
        }
      }
    }
  }

  // ---------- Saving the equivalences ----------

  // The two clauses that set a substituted variable to the value of its representative.
  function Pair(v: Lit, other: Lit): seq<Entry> {
    [Entry([Neg(v)], [Neg(v), other]), Entry([v], [v, Neg(other)])]
  }

  function Equations(vars: seq<Lit>, reprs: map<Lit, Lit>): seq<Entry> {
    if vars == [] then [] else
      var init, v := vars[..|vars| - 1], vars[|vars| - 1];
      Equations(init, reprs) + if v in reprs && reprs[v] != v then Pair(v, reprs[v]) else []
  }

  method PushEquivalences(vars: seq<Lit>, reprs: map<Lit, Lit>) returns (pushed: seq<Entry>)
    ensures pushed == Equations(vars, reprs)
  {
    pushed := [];
    for i := 0 to |vars|
      invariant pushed == Equations(vars[..i], reprs)
    {
      assert vars[..i + 1][..i] == vars[..i];
      var v := vars[i];
      if v in reprs && reprs[v] != v {
        pushed := pushed + [Entry([Neg(v)], [Neg(v), reprs[v]])];
        pushed := pushed + [Entry([v], [v, Neg(reprs[v])])];
      }
    }
    assert vars[..|vars|] == vars;
  }

  // Replaying a pair gives the variable the value of the other literal and changes nothing else.
  lemma PairMeaning(v: Lit, other: Lit, m: Model)
    requires Var(v) != Var(other)
    ensures forall l: Lit ::
      True(Replay(Pair(v, other), m), l) == True(m, if l == v then other else if l == Neg(v) then Neg(other) else l)
  {
    var es, e, d := Pair(v, other), Entry([v], [v, Neg(other)]), Entry([Neg(v)], [Neg(v), other]);
    assert es[..1] == [d] && [d][..0] == [];
    var m1 := Apply(e, m);
    assert Replay(es, m) == Replay([d], m1) == Apply(d, m1);
    BinarySat(m, v, Neg(other));
    ForceOne(m, v);
    Negation(m, other);
    assert True(m1, other) == True(m, other) && (True(m1, v) <==> True(m, v) || True(m, other));
    BinarySat(m1, Neg(v), other);
    ForceOne(m1, Neg(v));
    Negation(m1, v);
    assert Neg(Neg(v)) == v;
  }

  lemma BinarySat(m: Model, a: Lit, b: Lit)
    ensures Sat(m, [a, b]) <==> True(m, a) || True(m, b)
  {
    assert [a, b][0] == a && [a, b][1] == b;
  }

  // The literal whose value l has after replaying the equations of the variables.
  function Source(reprs: map<Lit, Lit>, vars: seq<Lit>, l: Lit): Lit {
    if l in reprs && (l in vars || Neg(l) in vars) then reprs[l] else l
  }

  // Replaying the equations makes every literal agree with its representative.
  lemma {:induction false} EquationsMeaning(vars: seq<Lit>, reprs: map<Lit, Lit>, m: Model)
    requires ReprMap(reprs)
    ensures forall l: Lit :: True(Replay(Equations(vars, reprs), m), l) == True(m, Source(reprs, vars, l))
  {
    if vars != [] {
      var init, v := vars[..|vars| - 1], vars[|vars| - 1];
      assert vars == init + [v];
      if v in reprs && reprs[v] != v {
        var m1 := Replay(Pair(v, reprs[v]), m);
        ReplayConcat(Equations(init, reprs), Pair(v, reprs[v]), m);
        OtherVariable(reprs, v);
        PairMeaning(v, reprs[v], m);
        EquationsMeaning(init, reprs, m1);
        forall l: Lit ensures True(Replay(Equations(init, reprs), m1), l) == True(m, Source(reprs, vars, l)) {
          SourceStep(init, v, reprs, l);
        }
      } else {
        EquationsMeaning(init, reprs, m);
        assert Equations(vars, reprs) == Equations(init, reprs);
        forall l: Lit ensures Source(reprs, vars, l) == Source(reprs, init, l) {
          SameSource(init, v, reprs, l);
        }
      }
    }
  }

  lemma OtherVariable(reprs: map<Lit, Lit>, v: Lit)
    requires ReprMap(reprs) && v in reprs && reprs[v] != v
    ensures Var(reprs[v]) != Var(v)
  {
    assert ReprAt(reprs, v);
  }

  // What l is read from: first through the other variables, then through v.
  lemma SourceStep(init: seq<Lit>, v: Lit, reprs: map<Lit, Lit>, l: Lit)
    requires ReprMap(reprs) && v in reprs && reprs[v] != v
    ensures var k, other := Source(reprs, init, l), reprs[v];
      Source(reprs, init + [v], l) == if k == v then other else if k == Neg(v) then Neg(other) else k
  {
    assert ReprAt(reprs, v) && Neg(Neg(v)) == v;
    if l in reprs { assert ReprAt(reprs, l) && ReprAt(reprs, reprs[l]); }
    assert forall k :: k in init + [v] <==> k in init || k == v;
  }

  lemma SameSource(init: seq<Lit>, v: Lit, reprs: map<Lit, Lit>, l: Lit)
    requires ReprMap(reprs) && (v in reprs ==> reprs[v] == v)
    ensures Source(reprs, init + [v], l) == Source(reprs, init, l)
  {
    if l in reprs { assert ReprAt(reprs, l) && Neg(Neg(l)) == l; }
    assert forall k :: k in init + [v] <==> k in init || k == v;
  }

  // ---------- The whole round ----------

  lemma StableLive(b: Base, reprs: map<Lit, Lit>, m: Model, m': Model)
    requires Fits(b, reprs) && SubstitutedTo(b, reprs, {}, |b.clauses|) && b.Live(m)
    requires forall l: Lit :: (l in reprs ==> reprs[l] == l) ==> True(m', l) == True(m, l)
    ensures b.Live(m')
  {
    forall k | 0 <= k < |b.clauses| && k !in b.garbage ensures Sat(m', b.clauses[k]) {
      assert AllStay(b.clauses[k], reprs);
      var l :| l in b.clauses[k] && True(m, l);
      assert True(m', l);
    }
  }

  lemma AfterReplay(reprs: map<Lit, Lit>, vars: seq<Lit>, m: Model, m': Model)
    requires ReprMap(reprs) && forall l :: l in reprs ==> l in vars || Neg(l) in vars
    requires forall l: Lit :: True(m', l) == True(m, Source(reprs, vars, l))
    ensures FaithfulTo(m', reprs)
    ensures forall l: Lit :: (l in reprs ==> reprs[l] == l) ==> True(m', l) == True(m, l)
  {
    forall l | l in reprs ensures True(m', reprs[l]) == True(m', l) {
      assert ReprAt(reprs, l);
    }
  }

  // Replaying the equations turns every model of the substituted clauses into
  // one of the original clauses.
  lemma SubstitutionReconstructs(b0: Base, b: Base, reprs: map<Lit, Lit>, vars: seq<Lit>)
    requires Fits(b, reprs) && SameFaithful(b0, b, reprs)
    requires SubstitutedTo(b, reprs, {}, |b.clauses|)
    requires forall l :: l in reprs ==> l in vars || Neg(l) in vars
    ensures Reconstructs(b0.Formula(), Equations(vars, reprs), b.Formula())
  {
    var es := Equations(vars, reprs);
    forall m: Model | Models(m, b.Formula()) ensures Models(Replay(es, m), b0.Formula()) {
      var m' := Replay(es, m);
      FormulaModels(b, m);
      EquationsMeaning(vars, reprs, m);
      AfterReplay(reprs, vars, m, m');
      StableLive(b, reprs, m, m');
      FormulaModels(b0, m');
    }
  }

  lemma AllModelsFaithful(b: Base, g: Graph, reprs: map<Lit, Lit>, frozen: set<nat>)
    requires WellFormed(g, b.Formula()) && forall l :: l in reprs ==> ReprOk(g, l, reprs[l], frozen)
    ensures forall m: Model :: b.Live(m) ==> FaithfulTo(m, reprs)
  {
    forall m: Model, l | b.Live(m) && l in reprs ensures True(m, reprs[l]) == True(m, l) {
      FormulaModels(b, m);
      ReprSameValue(g, b.Formula(), l, reprs[l], frozen, m);
    }
  }

  lemma KeepsModels(b0: Base, b: Base, reprs: map<Lit, Lit>)
    requires SameFaithful(b0, b, reprs) && forall m: Model :: b0.Live(m) ==> FaithfulTo(m, reprs)
    ensures forall m: Model :: Models(m, b0.Formula()) ==> Models(m, b.Formula())
  {
    forall m: Model | Models(m, b0.Formula()) ensures Models(m, b.Formula()) {
      FormulaModels(b0, m);
      FormulaModels(b, m);
    }
  }

  // Active variables are not assigned, and all unassigned variables of live clauses are active.
  ghost predicate ActiveFits(b: Base, active: set<nat>) {
    && b.Valid() && (forall l :: l in b.units ==> Var(l) !in active)
    && (forall i, l ::
         0 <= i < |b.clauses| && i !in b.garbage && l in b.clauses[i] && l !in b.units && Neg(l) !in b.units ==>
          Var(l) in active)
  }

  // The active literals have their representatives in the implication graph.
  ghost predicate AllRepresented(g: Graph, active: set<nat>, frozen: set<nat>, reprs: map<Lit, Lit>) {
    && (forall l: Lit :: l in reprs <==> Var(l) in active)
    && (forall l :: l in reprs ==> ReprOk(g, l, reprs[l], frozen))
  }

  // Replaying the entries copies the value of each representative and changes nothing else.
  ghost predicate GivesSourceValues(es: seq<Entry>, reprs: map<Lit, Lit>) {
    forall m: Model, l: Lit :: True(Replay(es, m), l) == True(m, if l in reprs then reprs[l] else l)
  }

  lemma SourceValues(vars: seq<Lit>, reprs: map<Lit, Lit>)
    requires ReprMap(reprs) && forall l :: l in reprs ==> l in vars || Neg(l) in vars
    ensures GivesSourceValues(Equations(vars, reprs), reprs)
  {
    forall m: Model, l: Lit
      ensures True(Replay(Equations(vars, reprs), m), l) == True(m, if l in reprs then reprs[l] else l)
    {
      EquationsMeaning(vars, reprs, m);
    }
  }

  // Find the components, substitute in all clauses and save the equivalences.
  method SubstituteEquivalences(b0: Base, watches: map<Lit, seq<Lit>>, active: set<nat>, frozen: set<nat>,
        vars: seq<nat>, ghost universe: set<Lit>)
    returns (unsat: bool, b: Base, pushed: seq<Entry>, ghost reprs: map<Lit, Lit>)
    requires ActiveFits(b0, active) && WatchesOk(watches, b0.Formula()) && Covers(universe, active)
    requires (forall v :: v in active ==> v in vars) && forall i :: 0 <= i < |vars| ==> vars[i] > 0
    ensures unsat ==> Unsatisfiable(b0.Formula())
    ensures unsat || Reconstructs(b0.Formula(), pushed, b.Formula())
    ensures unsat || forall m: Model :: Models(m, b0.Formula()) ==> Models(m, b.Formula())
    ensures unsat || AllRepresented(GraphOf(watches, active), active, frozen, reprs)
    ensures unsat || SubstitutedTo(b, reprs, {}, |b.clauses|)
    ensures unsat || GivesSourceValues(pushed, reprs)
  {
    var found;
    b, pushed := b0, [];
    unsat, found := DecomposeRound(watches, active, frozen, vars, b0.Formula(), universe);
    reprs := found;
    if unsat { return; }
    ghost var g := GraphOf(watches, active);
    RoundFits(b0, watches, active, frozen, reprs);
    AllModelsFaithful(b0, g, reprs, frozen);
    unsat, b := SubstituteAll(b0, found);
    if unsat {
      forall m: Model ensures !Models(m, b0.Formula()) { FormulaModels(b0, m); }
      return;
    }
    var lits := seq(|vars|, i requires 0 <= i < |vars| => Positive(vars[i]));
    pushed := PushEquivalences(lits, found);
    AllVariables(vars, lits, active, reprs);
    SourceValues(lits, reprs);
    SubstitutionReconstructs(b0, b, reprs, lits);
    KeepsModels(b0, b, reprs);
  }

  lemma RoundFits(b: Base, watches: map<Lit, seq<Lit>>, active: set<nat>, frozen: set<nat>, reprs: map<Lit, Lit>)
    requires ActiveFits(b, active) && WatchesOk(watches, b.Formula())
    requires forall l: Lit :: l in reprs <==> Var(l) in active
    requires forall l :: l in reprs ==> ReprOk(GraphOf(watches, active), l, reprs[l], frozen)
    ensures Fits(b, reprs) && WellFormed(GraphOf(watches, active), b.Formula())
  {
    GraphWellFormed(watches, active, b.Formula());
    SearchGivesMap(GraphOf(watches, active), b.Formula(), reprs, active, frozen);
  }

  lemma AllVariables(vars: seq<nat>, lits: seq<Lit>, active: set<nat>, reprs: map<Lit, Lit>)
    requires |lits| == |vars|
    requires forall i :: 0 <= i < |vars| ==> vars[i] > 0 && lits[i] == Positive(vars[i])
    requires forall v :: v in active ==> v in vars
    requires forall l: Lit :: l in reprs <==> Var(l) in active
    ensures forall l :: l in reprs ==> l in lits || Neg(l) in lits
  {
    forall l | l in reprs ensures l in lits || Neg(l) in lits {
      var i :| 0 <= i < |vars| && vars[i] == Var(l);
      assert lits[i] in lits;
    }
  }
}
