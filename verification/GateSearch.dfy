// The search for the gate of a pivot (src/gates.cpp): equivalence, AND gate of
// either sign, if-then-else, exclusive-or.
module GateSearch {
  import opened Cnf
  import opened Resolution
  import opened Propagation
  import opened Gates
  import GatesTernaryXor

  // Which search found the gate of the pivot.
  datatype GateKind = NoGate | Equivalent | Conjunction | IfThenElse | ExclusiveOr {
    // The clauses found define the pivot whatever is satisfied.
    predicate Definition() { !IfThenElse? && !ExclusiveOr? }

    predicate SearchedLast() { !Equivalent? && !Conjunction? }
  }

  // The options of elimination; the bound on additional clauses is at least -1.
  datatype Options = Options(subst: bool, equivs: bool, ands: bool, ites: bool, xors: bool,
                             xorLimit: nat, occLimit: nat, clauseLimit: nat, bound: int)

  // Live clauses with the pivot, which define it unless they come from one of
  // the last two searches and one of them is satisfied.
  ghost predicate GateFound(b: Base, gates: seq<nat>, p: Lit, kind: GateKind, opts: Options) {
    && p !in b.units && Neg(p) !in b.units
    && (forall x :: x in gates ==> x < |b.clauses| && x !in b.garbage && Occurs(p, b.clauses[x]))
    && (IsGate(b, gates, p) <==> kind.Definition() || GatesTernaryXor.NoneSatisfied(b, gates))
    && (kind == IfThenElse ==> opts.subst && opts.ites && GatesTernaryXor.IteFound(b, gates, p))
    && (kind == ExclusiveOr ==> opts.subst && opts.xors && GatesTernaryXor.XorFound(b, gates, p, opts.xorLimit))
  }

  // What the search finds when those for units, equivalences and AND gates change nothing.
  ghost function SearchedGate(b: Base, occs: map<Lit, seq<nat>>, p: Lit, opts: Options): GateKind {
    if !opts.subst then NoGate
    else if opts.ites && GatesTernaryXor.IteListed(b, Occs(occs, p), p) then IfThenElse
    else if opts.xors && HasXor(b, p, opts.xorLimit) then ExclusiveOr
    else NoGate
  }

  ghost predicate HasXor(b: Base, p: Lit, limit: nat) {
    exists g, lits, q :: GatesTernaryXor.IsXor(b, g, lits, q, p, limit)
  }

  // Neither a unit nor an equivalence nor an AND gate is found, or they are not looked for.
  ghost predicate Untouched(b: Base, occs: map<Lit, seq<nat>>, p: Lit, opts: Options) {
    Quiet(b, occs, p) || (!opts.equivs && !opts.ands)
  }

  // What the whole search for a gate promises.
  ghost predicate Searched(b: Base, b': Base, occs: map<Lit, seq<nat>>, p: Lit, opts: Options, gates: seq<nat>,
        kind: GateKind)
  {
    && Simplified(b, b') && (gates == [] <==> kind == NoGate)
    && (gates != [] ==> GateFound(b', gates, p, kind, opts))
    && (kind == NoGate || !kind.Definition() ==>
          p in b'.units || Neg(p) in b'.units || kind == SearchedGate(b', occs, p, opts))
    && (Untouched(b, occs, p, opts) ==> b' == b && kind.SearchedLast())
    && (opts.subst ==> Exhausted(b, b', occs, p, opts, kind))
    && StaysClean(b, b', p)
  }

  // What was looked for and not found is not there, unless units were found on the way.
  ghost predicate Exhausted(b: Base, b': Base, occs: map<Lit, seq<nat>>, p: Lit, opts: Options, kind: GateKind) {
    b'.units == b.units ==>
      && (opts.equivs && !kind.Equivalent? ==> NoEquivalence(b', occs, p))
      && (opts.ands && kind.SearchedLast() ==> NoAndGate(b', occs, p) && NoAndGate(b', occs, Neg(p)))
  }

  // Neither the clauses of the pivot nor all clauses get satisfied ones.
  ghost predicate StaysClean(b: Base, b': Base, p: Lit) {
    (CleanFor(b, p) ==> CleanFor(b', p)) && (Clean(b) ==> Clean(b'))
  }

  // The clauses to watch for both at once.
  ghost function Watched(b: Base, p: Lit): set<nat> {
    if Clean(b) then LiveSet(b) else PivotIds(b, p)
  }

  lemma WatchedClean(b: Base, b': Base, p: Lit)
    requires Simplified(b, b') && (CleanIn(b, Watched(b, p)) ==> CleanIn(b', Watched(b, p)))
    ensures StaysClean(b, b', p)
  {
    assert PivotIds(b', p) == PivotIds(b, p);
    if Clean(b) {
      assert forall x :: x in LiveSet(b') ==> x in LiveSet(b);
    }
  }

  // The searches whose result always defines the pivot.
  method SearchDefinitions(db: Base, occs: map<Lit, seq<nat>>, p: Lit, opts: Options, ghost ids: set<nat>)
    returns (db': Base, unsat: bool, gates: seq<nat>, kind: GateKind)
    requires db.Valid() && Connected(db, occs) && p !in db.units && Neg(p) !in db.units
    ensures Simplified(db, db')
    ensures unsat ==> kind == NoGate && forall m: Model :: !db.Live(m)
    ensures gates == [] <==> kind == NoGate
    ensures unsat || gates == [] || GateFound(db', gates, p, kind, opts)
    ensures kind.Definition() && (CleanIn(db, ids) && !unsat ==> CleanIn(db', ids))
    ensures Untouched(db, occs, p, opts) ==> db' == db && !unsat && gates == []
    ensures unsat || Exhausted(db, db', occs, p, opts, kind)
  {
    db', unsat, gates, kind := db, false, [], NoGate;
    if opts.equivs {
      db', unsat, gates := FindEquivalence(db, occs, p, ids);
      if gates != [] {
        kind := Equivalent;
        GateIsFound(db', gates, p, kind, opts);
      }
      if gates != [] || unsat || p in db'.units || Neg(p) in db'.units { return; }
    }
    if opts.ands {
      ghost var b := db';
      ListsSimplified(db, b, occs);
      db', unsat, gates := FindAndGates(db', occs, p, ids);
      SimplifiedTransitive(db, b, db');
      if db'.units == db.units {
        assert b.units == db.units;
        LessMarked(b, db', [], p, {});
      }
      if gates != [] {
        kind := Conjunction;
        GateIsFound(db', gates, p, kind, opts);
      }
    }
  }

  lemma GateIsFound(b: Base, gates: seq<nat>, p: Lit, kind: GateKind, opts: Options)
    requires IsGate(b, gates, p) && p !in b.units && Neg(p) !in b.units && kind.Definition()
    ensures GateFound(b, gates, p, kind, opts)
  {
  }

  lemma IteIsFound(b: Base, gates: seq<nat>, p: Lit, opts: Options)
    requires GatesTernaryXor.IteFound(b, gates, p) && p !in b.units && Neg(p) !in b.units
    requires opts.subst && opts.ites
    ensures GateFound(b, gates, p, IfThenElse, opts)
  {
  }

  lemma XorIsFound(b: Base, gates: seq<nat>, p: Lit, opts: Options)
    requires GatesTernaryXor.XorFound(b, gates, p, opts.xorLimit)
    requires p !in b.units && Neg(p) !in b.units && opts.subst && opts.xors
    ensures GateFound(b, gates, p, ExclusiveOr, opts)
    ensures HasXor(b, p, opts.xorLimit)
  {
  }

  // The searches that leave out assigned literals.
  method SearchTernaryXor(db: Base, occs: map<Lit, seq<nat>>, p: Lit, opts: Options)
    returns (gates: seq<nat>, kind: GateKind)
    requires db.Valid() && Connected(db, occs) && p !in db.units && Neg(p) !in db.units
    requires opts.subst
    ensures gates == [] <==> kind == NoGate
    ensures gates == [] || GateFound(db, gates, p, kind, opts)
    ensures kind == SearchedGate(db, occs, p, opts)
  {
    gates, kind := [], NoGate;
    if opts.ites {
      gates := GatesTernaryXor.FindIfThenElse(db, occs, p);
      if gates != [] {
        kind := IfThenElse;
        IteIsFound(db, gates, p, opts);
        return;
      }
    }
    if opts.xors {
      gates := GatesTernaryXor.FindXorGate(db, occs, p, opts.xorLimit);
      if gates != [] {
        kind := ExclusiveOr;
        XorIsFound(db, gates, p, opts);
      }
    }
  }

  // The last two searches after the first ones found no gate.
  lemma SearchedThen(b: Base, b': Base, occs: map<Lit, seq<nat>>, p: Lit, opts: Options, gates: seq<nat>,
        kind: GateKind)
    requires Simplified(b, b') && StaysClean(b, b', p) && (Untouched(b, occs, p, opts) ==> b' == b)
    requires Exhausted(b, b', occs, p, opts, NoGate) && kind == SearchedGate(b', occs, p, opts)
    requires (gates == [] <==> kind == NoGate) && (gates == [] || GateFound(b', gates, p, kind, opts))
    ensures Searched(b, b', occs, p, opts, gates, kind)
  {
  }

  lemma SearchedFirst(b: Base, b': Base, occs: map<Lit, seq<nat>>, p: Lit, opts: Options, gates: seq<nat>,
        kind: GateKind)
    requires Simplified(b, b') && StaysClean(b, b', p) && (Untouched(b, occs, p, opts) ==> b' == b && gates == [])
    requires Exhausted(b, b', occs, p, opts, kind) && (gates == [] <==> kind == NoGate) && kind.Definition()
    requires if gates == [] then p in b'.units || Neg(p) in b'.units else GateFound(b', gates, p, kind, opts)
    ensures Searched(b, b', occs, p, opts, gates, kind)
  {
  }

  lemma NothingSearched(b: Base, occs: map<Lit, seq<nat>>, p: Lit, opts: Options)
    requires b.Valid() && !opts.subst
    ensures Searched(b, b, occs, p, opts, [], NoGate)
  {
  }

  method SearchGates(db: Base, occs: map<Lit, seq<nat>>, p: Lit, opts: Options)
    returns (db': Base, unsat: bool, gates: seq<nat>, kind: GateKind)
    requires db.Valid() && Connected(db, occs) && p !in db.units && Neg(p) !in db.units
    ensures Simplified(db, db')
    ensures unsat ==> kind == NoGate && forall m: Model :: !db.Live(m)
    ensures unsat || Searched(db, db', occs, p, opts, gates, kind)
    ensures Untouched(db, occs, p, opts) ==> !unsat
  {
    db', unsat, gates, kind := db, false, [], NoGate;
    if opts.subst {
      db', unsat, gates, kind := SearchDefinitions(db, occs, p, opts, Watched(db, p));
      if unsat { return; }
      WatchedClean(db, db', p);
      if gates == [] && p !in db'.units && Neg(p) !in db'.units {
        ListsSimplified(db, db', occs);
        gates, kind := SearchTernaryXor(db', occs, p, opts);
        SearchedThen(db, db', occs, p, opts, gates, kind);
      } else {
        SearchedFirst(db, db', occs, p, opts, gates, kind);
      }
    } else {
      NothingSearched(db, occs, p, opts);
    }
  }
}
