// The course of one attempt to eliminate a variable and of a whole round of
// attempts (src/elim.cpp), and what every such course keeps: models, their
// reconstruction, eliminated variables, satisfied clauses, the number of clauses.
module Attempts {
  import opened Cnf
  import opened Extension
  import opened Resolution
  import opened Propagation
  import opened Gates
  import opened GateSearch
  import opened Resolvents
  import opened Removal
  import opened Runs
  import GatesTernaryXor
  import Sorting

  // The sign of the pivot with fewer occurrences.
  function FewerOccurrences(occs: map<Lit, seq<nat>>, pivot: Lit): (p: Lit)
    ensures (p == pivot && Neg(p) == Neg(pivot)) || (p == Neg(pivot) && Neg(p) == pivot)
    ensures |Occs(occs, p)| <= |Occs(occs, Neg(p))|
  {
    if |Occs(occs, pivot)| > |Occs(occs, Neg(pivot))| then Neg(pivot) else pivot
  }

  function SizeOf(b: Base, x: nat): nat {
    if x < |b.clauses| then |b.clauses[x]| else 0
  }

  // Shorter clauses come first.
  ghost predicate BySize(b: Base, os: seq<nat>) {
    forall i, j :: 0 <= i < j < |os| ==> SizeOf(b, os[i]) <= SizeOf(b, os[j])
  }

  // How an attempt ends: the pivot is assigned or eliminated already, it occurs
  // too often, the search for gates assigns it, there are too many resolvents,
  // or it is eliminated.
  datatype End = PassedOver | TooFrequent | Assigned | TooManyResolvents | Eliminated

  // The data base before the attempt, after the search for a gate, after
  // counting and after adding resolvents, and at the end; the pivot is
  // scheduled, p is the sign of it with fewer clauses, r the pairs with a resolvent.
  datatype Attempt = Attempt(
    pivot: Lit, p: Lit, occs: map<Lit, seq<nat>>, gates: seq<nat>, kind: GateKind, r: set<(nat, nat)>,
    before: Base, searched: Base, counted: Base, added: Base, after: Base,
    ep: seq<Entry>, en: seq<Entry>, end: End)
  {
    function Positive(): seq<nat> { Occs(occs, p) }

    function Negative(): seq<nat> { Occs(occs, Neg(p)) }

    // What was pushed on the extension stack.
    function Entries(): seq<Entry> { ep + en }

    // The pivot as resolvents are counted and as they are added.
    function Counting(): Pivot {
      Pivot(searched, occs, p, Positive(), Negative(), set x | x in gates)
    }

    function Adding(): Pivot {
      Counting().(b := counted, occs := ListFrom(occs, counted.clauses, |searched.clauses|))
    }

    predicate Frequent(opts: Options) {
      |Positive()| != 0 && |Negative()| > opts.occLimit
    }

    // Both lists are flushed, and p is the sign with fewer clauses.
    ghost predicate Starts() {
      && before.Valid() && Connected(before, occs) && Unset(p, before.units)
      && p == FewerOccurrences(occs, pivot)
      && Flush(Positive()) && Flush(Negative())
    }

    ghost predicate Flush(os: seq<nat>) {
      Distinct(os) && forall x :: x in os ==> x !in before.garbage
    }

    // Both lists are sorted.
    ghost predicate Ordered() {
      BySize(before, Positive()) && BySize(before, Negative())
    }

    // A pivot with clauses of one sign only needs no gate.
    ghost predicate Searches(opts: Options) {
      Ordered() && if Positive() == [] then searched == before && gates == [] && kind == NoGate
      else Searched(before, searched, occs, p, opts, gates, kind)
    }

    // Nothing happens after counting.
    predicate Stays() {
      after == counted && ep == [] && en == []
    }

    ghost predicate Bounds(opts: Options) {
      && Counting().CountRun(|Positive()|, 0, counted, r)
      && Counting().CountedTo(counted, Adding().occs, |Positive()|, 0, r, opts.clauseLimit)
      && (opts.bound >= -1 ==> |r| <= |Positive()| + |Negative()| + opts.bound)
    }

    ghost predicate Resolves(opts: Options) {
      && Adding().AddRun(|Positive()|, 0, added)
      && SameModels(counted, added, p) && Adding().ResolvedTo(added, |Positive()|, 0)
      && Added(counted, added, |r|, opts.clauseLimit)
    }

    ghost predicate Removes() {
      after == WithoutPivot(added, Adding()) && EntriesOf(added, Adding(), ep, en)
    }

    // The steps follow the program; gone are the variables eliminated before.
    ghost predicate Ok(gone: set<Lit>, opts: Options) {
      match end
      case PassedOver =>
        before == counted && Stays() && (!Unset(pivot, before.units) || pivot in gone || Neg(pivot) in gone)
      case TooFrequent => Starts() && before == counted && Stays() && Frequent(opts)
      case Assigned =>
        Starts() && !Frequent(opts) && Searches(opts) && counted == searched && Stays() && !Unset(p, searched.units)
      case TooManyResolvents =>
        && Starts() && !Frequent(opts) && Searches(opts) && Unset(p, searched.units) && FullPivot(Counting())
        && Counted(searched, counted, p) && Stays()
        && Counting().NotBounded(counted, r, opts.bound, opts.clauseLimit)
      case Eliminated =>
        && Starts() && !Frequent(opts) && Searches(opts) && Unset(p, searched.units) && FullPivot(Counting())
        && Bounds(opts) && Resolves(opts) && Removes()
    }

    // The gate used, if any, defines the pivot.
    ghost predicate Defined() {
      end != Eliminated || gates == [] || kind.Definition() || GatesTernaryXor.NoneSatisfied(searched, gates)
    }

    // No resolvent added was a unit, which would not be propagated.
    predicate NoUnitAdded() {
      end != Eliminated || added.units == counted.units
    }

    // The clauses of the pivot replaced by shorter ones while counting.
    function Shortened(): int {
      if end != Eliminated then 0 else |counted.clauses| - |searched.clauses|
    }

    // By how much the number of clauses may grow.
    function Growth(bound: int): int {
      if end != Eliminated then 0 else bound + Shortened()
    }
  }

  // ---------- One attempt ----------

  // Sorting both lists changes only their order.
  lemma SortedStarts(a0: Attempt, a: Attempt)
    requires a0.Starts() && a == a0.(occs := a.occs) && Connected(a.before, a.occs)
    requires multiset(a.Positive()) == multiset(a0.Positive()) && multiset(a.Negative()) == multiset(a0.Negative())
    ensures a.Starts() && |a.Positive()| == |a0.Positive()| && |a.Negative()| == |a0.Negative()|
  {
    Sorting.SameMembers(a0.Positive(), a.Positive());
    Sorting.SameMembers(a0.Negative(), a.Negative());
    Sorting.SameDistinct(a0.Positive(), a.Positive());
    Sorting.SameDistinct(a0.Negative(), a.Negative());
  }

  lemma Recounted(a: Attempt, opts: Options)
    requires FullPivot(a.Counting()) && a.Bounds(opts)
    ensures FullPivot(a.Adding()) && a.Adding().Budget(a.counted, |a.Positive()|, 0, a.r, opts.clauseLimit)
  {
    var t, t2 := a.Counting(), a.Adding();
    t.Rebased(t2.b, t2.occs, |t.ps|, 0, a.r, opts.clauseLimit);
    SameLists(t.b, t2.b, t.p, t.ps, t.ns);
    ListsFollow(t.b, t2.b, t.occs);
  }

  // An attempt whose pivot is eliminated after counting.
  lemma Finished(a: Attempt, added: Base, now: Base, ep: seq<Entry>, en: seq<Entry>, opts: Options)
    returns (a': Attempt)
    requires a.Starts() && !a.Frequent(opts) && a.Searches(opts) && Unset(a.p, a.searched.units)
    requires FullPivot(a.Counting()) && a.Bounds(opts)
    requires a.(added := added).Resolves(opts) && now == WithoutPivot(added, a.Adding())
    requires EntriesOf(added, a.Adding(), ep, en)
    ensures a' == a.(added := added, after := now, ep := ep, en := en, end := Eliminated) && a'.Ok({}, opts)
  {
    a' := a.(added := added, after := now, ep := ep, en := en, end := Eliminated);
    assert a'.Adding() == a.Adding() && a'.Counting() == a.Counting();
  }

  // An attempt whose pivot has too many resolvents.
  lemma GivenUp(a: Attempt, now: Base, r: set<(nat, nat)>, opts: Options) returns (a': Attempt)
    requires a.Starts() && !a.Frequent(opts) && a.Searches(opts) && Unset(a.p, a.searched.units) && a.ep == a.en == []
    requires FullPivot(a.Counting()) && Counted(a.searched, now, a.p)
    requires a.Counting().NotBounded(now, r, opts.bound, opts.clauseLimit)
    ensures a' == a.(r := r, counted := now, after := now, end := TooManyResolvents) && a'.Ok({}, opts)
  {
    a' := a.(r := r, counted := now, after := now, end := TooManyResolvents);
    assert a'.Counting() == a.Counting();
  }

  lemma SameBefore(a: Attempt, opts: Options)
    requires a.Starts() && a.Searches(opts)
    ensures forall m: Model :: Models(m, a.before.Formula()) <==> Models(m, a.searched.Formula())
  {
    SearchKeeps(a, opts);
    SameFormulas(a.before, a.searched);
  }

  // The search keeps the models and adds no clauses.
  lemma SearchKeeps(a: Attempt, opts: Options)
    requires a.Starts() && a.Searches(opts)
    ensures Simplified(a.before, a.searched) && StaysClean(a.before, a.searched, a.p) && NoNew(a.before, a.searched)
  {
    if a.Positive() == [] { NoNewClauses(a.before, a.before); }
    SimplifiedNoNew(a.before, a.searched);
  }

  // What is common to all ends up to counting.
  ghost predicate CountedFrom(a: Attempt) {
    && a.counted.Valid() && Grows(a.before, a.counted) && NoNew(a.before, a.counted)
    && (Clean(a.before) ==> Clean(a.counted)) && |LiveSet(a.counted)| <= |LiveSet(a.before)|
    && (forall m: Model :: a.before.Live(m) <==> a.counted.Live(m))
  }

  lemma CountingKeeps(a: Attempt, i: nat, j: nat, opts: Options)
    requires a.Starts() && a.Searches(opts) && FullPivot(a.Counting()) && Counted(a.searched, a.counted, a.p)
    requires a.Counting().CountRun(i, j, a.counted, a.r)
    ensures CountedFrom(a) && CountKeeps(a.searched, a.counted, a.p)
  {
    SearchKeeps(a, opts);
    CountRunKeeps(a.Counting(), i, j, a.counted, a.r);
    NoNewTransitive(a.before, a.searched, a.counted);
    ReplacesShrinks(a.before, a.searched, a.p);
  }

  lemma NotBoundedCounted(a: Attempt, opts: Options)
    requires a.Starts() && a.Searches(opts) && FullPivot(a.Counting()) && Counted(a.searched, a.counted, a.p)
    requires a.Counting().NotBounded(a.counted, a.r, opts.bound, opts.clauseLimit)
    ensures CountedFrom(a)
  {
    var t := a.Counting();
    if |t.ps| == 0 || |t.ns| == 0 {
      SearchKeeps(a, opts);
      ReplacesShrinks(a.before, a.searched, a.p);
    } else {
      var i: nat, j: nat :| t.TooMuch(i, j, a.counted, a.r, |t.ps| + |t.ns| + opts.bound, opts.clauseLimit);
      CountingKeeps(a, i, j + 1, opts);
    }
  }

  lemma AlwaysCounted(a: Attempt, gone: set<Lit>, opts: Options)
    requires a.Ok(gone, opts) && a.before.Valid()
    ensures CountedFrom(a)
  {
    match a.end
    case PassedOver => NoNewClauses(a.before, a.counted);
    case TooFrequent => NoNewClauses(a.before, a.counted);
    case Assigned =>
      SearchKeeps(a, opts);
      ReplacesShrinks(a.before, a.searched, a.p);
    case TooManyResolvents => NotBoundedCounted(a, opts);
    case Eliminated => CountingKeeps(a, |a.Positive()|, 0, opts);
  }

  // No literal comes back, and only units added while resolving satisfy clauses.
  lemma AttemptKeeps(a: Attempt, gone: set<Lit>, opts: Options)
    requires a.Ok(gone, opts) && a.before.Valid()
    ensures a.after.Valid() && Grows(a.before, a.after) && NoNew(a.before, a.after)
    ensures Clean(a.before) && a.NoUnitAdded() ==> Clean(a.after)
    ensures forall m: Model :: Models(m, a.before.Formula()) ==> Models(m, a.after.Formula())
  {
    AlwaysCounted(a, gone, opts);
    SameFormulas(a.before, a.counted);
    if a.end == Eliminated {
      Recounted(a, opts);
      AddRunKeeps(a.Adding(), |a.Positive()|, 0, a.added);
      EliminationKeeps(a.Adding(), a.added);
      NoNewClauses(a.added, a.after);
      NoNewTransitive(a.before, a.counted, a.added);
      NoNewTransitive(a.before, a.added, a.after);
      if Clean(a.before) && a.NoUnitAdded() { CleanShrinks(a.added, a.after); }
    }
  }

  lemma SameFormulas(b: Base, b': Base)
    requires forall m: Model :: b.Live(m) <==> b'.Live(m)
    ensures forall m: Model :: Models(m, b.Formula()) <==> Models(m, b'.Formula())
  {
    forall m: Model ensures Models(m, b.Formula()) <==> Models(m, b'.Formula()) {
      FormulaModels(b, m);
      FormulaModels(b', m);
    }
  }

  lemma StillDetermined(a: Attempt, gone: set<Lit>, opts: Options)
    requires a.Ok(gone, opts) && a.end == Eliminated && a.Defined()
    ensures a.Adding().gate != {} ==> Determined(a.counted, a.Adding())
  {
    if a.gates != [] {
      GateDetermines(a.Counting(), a.gates);
      DeterminedKept(a.Counting(), a.counted);
      assert Determined(a.counted, a.Adding());
    }
  }

  lemma AttemptReconstructs(a: Attempt, gone: set<Lit>, opts: Options)
    requires a.Ok(gone, opts) && a.before.Valid() && a.Defined()
    ensures Reconstructs(a.before.Formula(), a.Entries(), a.after.Formula())
  {
    AlwaysCounted(a, gone, opts);
    if a.end == Eliminated {
      StillDetermined(a, gone, opts);
      Recounted(a, opts);
      EliminationReconstructs(a.Adding(), a.added, a.ep, a.en);
      EliminationKeeps(a.Adding(), a.added);
      Composed(a.before, a.counted, a.Entries(), a.after);
    } else {
      NothingPushed(a.before, a.counted);
    }
  }

  lemma AttemptDefined(a: Attempt, gone: set<Lit>, opts: Options)
    requires a.Ok(gone, opts)
    ensures CleanFor(a.before, a.pivot) || Clean(a.before) ==> a.Defined()
    ensures !opts.subst || (!opts.ites && !opts.xors) ==> a.Defined()
  {
    if a.end == Eliminated && a.gates != [] {
      CleanNegated(a.before, a.pivot);
      assert Clean(a.before) ==> CleanFor(a.before, a.p);
      if CleanFor(a.before, a.p) { CleanNoneSatisfied(a.searched, a.gates, a.p); }
    }
  }

  lemma AttemptEliminates(a: Attempt, gone: set<Lit>, opts: Options)
    requires a.Ok(gone, opts) && a.end == Eliminated
    ensures Without(a.after, a.pivot)
  {
    Recounted(a, opts);
    EliminationKeeps(a.Adding(), a.added);
    assert Neg(Neg(a.p)) == a.p;
  }

  // Clauses are added within the bound, apart from those that took the place of
  // a clause of the pivot, of which there are no more than clauses of the pivot.
  lemma AttemptGrowth(a: Attempt, gone: set<Lit>, opts: Options)
    requires a.Ok(gone, opts) && a.before.Valid() && opts.bound >= -1
    ensures |LiveSet(a.after)| <= |LiveSet(a.before)| + a.Growth(opts.bound)
    ensures 0 <= a.Shortened() <= |PivotLive(a.before, a.pivot)|
  {
    if a.end == Eliminated {
      FewShortened(a, gone, opts);
      FewAdded(a, gone, opts);
    } else {
      AlwaysCounted(a, gone, opts);
    }
  }

  lemma FewShortened(a: Attempt, gone: set<Lit>, opts: Options)
    requires a.Ok(gone, opts) && a.end == Eliminated
    ensures 0 <= a.Shortened() <= |PivotLive(a.before, a.pivot)|
  {
    SearchKeeps(a, opts);
    CountingKeeps(a, |a.Positive()|, 0, opts);
    ReplacesShrinks(a.before, a.searched, a.p);
    PivotLiveNegated(a.before, a.pivot);
  }

  lemma PivotLiveNegated(b: Base, p: Lit)
    ensures PivotLive(b, Neg(p)) == PivotLive(b, p)
  {
    assert Neg(Neg(p)) == p;
  }

  lemma FewAdded(a: Attempt, gone: set<Lit>, opts: Options)
    requires a.Ok(gone, opts) && a.end == Eliminated && opts.bound >= -1
    ensures |LiveSet(a.after)| <= |LiveSet(a.before)| + opts.bound + a.Shortened()
  {
    SearchKeeps(a, opts);
    AttemptKeeps(a, gone, opts);
    ListsLive(a);
    Recounted(a, opts);
    EliminationKeeps(a.Adding(), a.added);
    FewLive(a.before, a.after, a.p, a.Positive(), a.Negative());
  }

  lemma ListsLive(a: Attempt)
    requires a.Starts()
    ensures Occurrences(a.before, a.p, a.Positive()) && Occurrences(a.before, Neg(a.p), a.Negative())
  {
  }

  // What one attempt promises: no model is lost, every model is repaired if the
  // gate defines the pivot, as it does if no clause of the pivot is satisfied,
  // the pivot is gone, and the clauses grow within the bound.
  ghost predicate Promised(a: Attempt, opts: Options) {
    && (a.Defined() ==> Reconstructs(a.before.Formula(), a.Entries(), a.after.Formula()))
    && (CleanFor(a.before, a.pivot) || Clean(a.before) || !opts.subst || (!opts.ites && !opts.xors) ==> a.Defined())
    && (forall m: Model :: Models(m, a.before.Formula()) ==> Models(m, a.after.Formula()))
    && (a.end == Eliminated ==> Without(a.after, a.pivot))
    && (opts.bound >= -1 ==> Grown(a, opts.bound))
    && NoNew(a.before, a.after) && (Clean(a.before) && a.NoUnitAdded() ==> Clean(a.after))
  }

  ghost predicate Grown(a: Attempt, bound: int) {
    && |LiveSet(a.after)| <= |LiveSet(a.before)| + a.Growth(bound)
    && 0 <= a.Shortened() <= |PivotLive(a.before, a.pivot)|
  }

  lemma AttemptPromised(a: Attempt, gone: set<Lit>, opts: Options)
    requires a.Ok(gone, opts) && a.before.Valid()
    ensures Promised(a, opts) && a.after.Valid()
  {
    AttemptDefined(a, gone, opts);
    AttemptKeeps(a, gone, opts);
    if a.Defined() { AttemptReconstructs(a, gone, opts); }
    if a.end == Eliminated { AttemptEliminates(a, gone, opts); }
    if opts.bound >= -1 { AttemptGrowth(a, gone, opts); }
  }

  // ---------- A whole round ----------

  function Last(b: Base, run: seq<Attempt>): Base {
    if run == [] then b else run[|run| - 1].after
  }

  // The variables eliminated.
  function Gone(run: seq<Attempt>): set<Lit> {
    set i | 0 <= i < |run| && run[i].end == Eliminated :: run[i].pivot
  }

  function AllEntries(run: seq<Attempt>): seq<Entry> {
    if run == [] then [] else AllEntries(run[..|run| - 1]) + run[|run| - 1].Entries()
  }

  // Each attempt starts with what the one before left.
  ghost predicate Chain(b: Base, run: seq<Attempt>, opts: Options) {
    run == [] ||
      (var rest, a := run[..|run| - 1], run[|run| - 1];
       Chain(b, rest, opts) && a.before == Last(b, rest) && a.Ok(Gone(rest), opts))
  }

  // The attempts are for the pivots of the schedule in order.
  ghost predicate Follows(run: seq<Attempt>, schedule: seq<Lit>) {
    |run| == |schedule| && forall i :: 0 <= i < |run| ==> run[i].pivot == schedule[i]
  }

  // By how much the number of clauses may grow in a round.
  function TotalGrowth(run: seq<Attempt>, bound: int): int {
    if run == [] then 0 else TotalGrowth(run[..|run| - 1], bound) + run[|run| - 1].Growth(bound)
  }

  ghost predicate AllDefined(run: seq<Attempt>) {
    forall i :: 0 <= i < |run| ==> run[i].Defined()
  }

  predicate NoUnits(run: seq<Attempt>) {
    forall i :: 0 <= i < |run| ==> run[i].NoUnitAdded()
  }

  // No unit is added while resolving by an attempt before the last one.
  predicate NoUnitsBefore(run: seq<Attempt>) {
    run == [] || NoUnits(run[..|run| - 1])
  }

  // Every attempt keeps its promise.
  ghost predicate Linked(b: Base, run: seq<Attempt>, opts: Options) {
    run == [] ||
      (var rest, a := run[..|run| - 1], run[|run| - 1];
       Linked(b, rest, opts) && a.before == Last(b, rest) && Promised(a, opts))
  }

  lemma {:induction false} ChainLinked(b: Base, run: seq<Attempt>, opts: Options)
    requires b.Valid() && Chain(b, run, opts)
    ensures Linked(b, run, opts) && Last(b, run).Valid()
  {
    if run != [] {
      var rest, a := run[..|run| - 1], run[|run| - 1];
      ChainLinked(b, rest, opts);
      AttemptPromised(a, Gone(rest), opts);
    }
  }

  lemma {:induction false} RoundKeeps(b: Base, run: seq<Attempt>, opts: Options)
    requires Linked(b, run, opts)
    ensures NoNew(b, Last(b, run))
    ensures forall m: Model :: Models(m, b.Formula()) ==> Models(m, Last(b, run).Formula())
  {
    if run == [] {
      NoNewClauses(b, b);
    } else {
      var rest, a := run[..|run| - 1], run[|run| - 1];
      RoundKeeps(b, rest, opts);
      NoNewTransitive(b, a.before, a.after);
    }
  }

  lemma NextReconstructs(b: Base, es: seq<Entry>, a: Attempt, opts: Options)
    requires Promised(a, opts) && a.Defined() && Reconstructs(b.Formula(), es, a.before.Formula())
    ensures Reconstructs(b.Formula(), es + a.Entries(), a.after.Formula())
  {
    ReconstructsCompose(b.Formula(), es, a.before.Formula(), a.Entries(), a.after.Formula());
  }

  lemma FewerDefined(run: seq<Attempt>)
    requires AllDefined(run) && run != []
    ensures AllDefined(run[..|run| - 1]) && run[|run| - 1].Defined()
  {
  }

  lemma {:induction false} RoundReconstructs(b: Base, run: seq<Attempt>, opts: Options)
    requires Linked(b, run, opts) && AllDefined(run)
    ensures Reconstructs(b.Formula(), AllEntries(run), Last(b, run).Formula())
  {
    if run != [] {
      var rest, a := run[..|run| - 1], run[|run| - 1];
      FewerDefined(run);
      RoundReconstructs(b, rest, opts);
      NextReconstructs(b, AllEntries(rest), a, opts);
    }
  }

  lemma {:induction false} RoundClean(b: Base, run: seq<Attempt>, opts: Options)
    requires Linked(b, run, opts) && Clean(b) && NoUnits(run)
    ensures Clean(Last(b, run))
  {
    if run != [] {
      RoundClean(b, run[..|run| - 1], opts);
    }
  }

  lemma OneMoreDefined(rest: seq<Attempt>, a: Attempt)
    requires AllDefined(rest) && a.Defined()
    ensures AllDefined(rest + [a])
  {
  }

  // From a clean data base every gate defines its pivot as long as no resolvent
  // added is a unit, and without the last two searches for gates in any case.
  lemma {:induction false} RoundDefined(b: Base, run: seq<Attempt>, opts: Options)
    requires Linked(b, run, opts)
    requires (Clean(b) && NoUnitsBefore(run)) || !opts.subst || (!opts.ites && !opts.xors)
    ensures AllDefined(run)
  {
    if run != [] {
      var rest, a := run[..|run| - 1], run[|run| - 1];
      RoundDefined(b, rest, opts);
      if Clean(b) && NoUnits(rest) { RoundClean(b, rest, opts); }
      OneMoreDefined(rest, a);
      assert run == rest + [a];
    }
  }

  lemma WithoutKept(b: Base, b': Base, x: Lit)
    requires Without(b, x) && NoNew(b, b')
    ensures Without(b', x)
  {
    forall c | c in b'.Formula() ensures !Occurs(x, c) {
      forall l | l in c ensures l != x && l != Neg(x) {
        if (l in b'.units && l !in b.units) || OccursLive(b', l) {
          assert OccursLive(b, l);
          var i :| 0 <= i < |b.clauses| && i !in b.garbage && l in b.clauses[i];
          assert b.clauses[i] in b.Formula();
        } else {
          assert [l] in b.Formula();
        }
      }
    }
  }

  lemma OneMoreGone(rest: seq<Attempt>, a: Attempt)
    ensures Gone(rest + [a]) == Gone(rest) + if a.end == Eliminated then {a.pivot} else {}
  {
    var run := rest + [a];
    forall x | x in Gone(rest) ensures x in Gone(run) {
      var i :| 0 <= i < |rest| && rest[i].end == Eliminated && rest[i].pivot == x;
      assert run[i] == rest[i];
    }
    assert run[|rest|] == a;
  }

  // No variable eliminated comes back.
  lemma {:induction false} RoundEliminates(b: Base, run: seq<Attempt>, opts: Options, x: Lit)
    requires Linked(b, run, opts) && x in Gone(run)
    ensures Without(Last(b, run), x)
  {
    var rest, a := run[..|run| - 1], run[|run| - 1];
    if x in Gone(rest) {
      RoundEliminates(b, rest, opts, x);
      WithoutKept(a.before, a.after, x);
    } else {
      OneMoreGone(rest, a);
      assert run == rest + [a];
    }
  }

  lemma {:induction false} RoundGrowth(b: Base, run: seq<Attempt>, opts: Options)
    requires Linked(b, run, opts) && opts.bound >= -1
    ensures |LiveSet(Last(b, run))| <= |LiveSet(b)| + TotalGrowth(run, opts.bound)
  {
    if run != [] {
      RoundGrowth(b, run[..|run| - 1], opts);
    }
  }

  lemma FollowsNext(run: seq<Attempt>, schedule: seq<Lit>, i: nat, a: Attempt)
    requires i < |schedule| && Follows(run, schedule[..i]) && a.pivot == schedule[i]
    ensures Follows(run + [a], schedule[..i + 1])
  {
  }

  lemma OneMoreAttempt(b: Base, run: seq<Attempt>, a: Attempt, opts: Options, before: seq<Entry>)
    requires Chain(b, run, opts) && a.before == Last(b, run)
    requires a.Ok(Gone(run), opts) || (a.end != PassedOver && a.Ok({}, opts))
    ensures Chain(b, run + [a], opts) && Last(b, run + [a]) == a.after
    ensures before + AllEntries(run + [a]) == before + AllEntries(run) + a.Entries()
    ensures Gone(run + [a]) == Gone(run) + if a.end == Eliminated then {a.pivot} else {}
  {
    assert (run + [a])[..|run|] == run;
    OneMoreGone(run, a);
  }

  // What a round promises.
  ghost predicate RoundPromised(b: Base, run: seq<Attempt>, now: Base, opts: Options) {
    && (AllDefined(run) ==> Reconstructs(b.Formula(), AllEntries(run), now.Formula()))
    && (NoUnitsBefore(run) || !opts.subst || (!opts.ites && !opts.xors) ==> AllDefined(run))
    && (forall m: Model :: Models(m, b.Formula()) ==> Models(m, now.Formula()))
    && (forall x :: x in Gone(run) ==> Without(now, x))
    && (opts.bound >= -1 ==> |LiveSet(now)| <= |LiveSet(b)| + TotalGrowth(run, opts.bound))
  }

  lemma KeptPromise(b: Base, start: Base, run: seq<Attempt>, opts: Options)
    requires start.Valid() && Clean(start) && Chain(start, run, opts)
    requires b.clauses == start.clauses && b.garbage <= start.garbage && forall m: Model :: b.Live(m) <==> start.Live(m)
    ensures RoundPromised(b, run, Last(start, run), opts)
  {
    ChainLinked(start, run, opts);
    SameFormulas(b, start);
    RoundKeeps(start, run, opts);
    if NoUnitsBefore(run) || !opts.subst || (!opts.ites && !opts.xors) { RoundDefined(start, run, opts); }
    if AllDefined(run) {
      RoundReconstructs(start, run, opts);
      Composed(b, start, AllEntries(run), Last(start, run));
    }
    forall x | x in Gone(run) ensures Without(Last(start, run), x) { RoundEliminates(start, run, opts, x); }
    ReplacesShrinks(b, start, 1);
    if opts.bound >= -1 { RoundGrowth(start, run, opts); }
  }
}
