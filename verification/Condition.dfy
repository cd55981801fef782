// Elimination of globally blocked clauses, "conditioning" (src/condition.cpp).
// For each candidate clause the current assignment is refined into a
// conditional part, which the negated candidate contains, and an autarky part,
// which becomes the witness of the removed clause.
module Condition {
  import opened Cnf
  import opened Extension
  import opened Resolution

  // ---------- Specification ----------

  // A clause touched by the autarky part is satisfied by the whole assignment.
  ghost predicate Respected(d: Clause, vals: set<Lit>, bits: set<Lit>) {
    Touched(d, vals, bits) ==> exists l :: l in d && l in vals
  }

  ghost predicate Touched(d: Clause, vals: set<Lit>, bits: set<Lit>) {
    exists l :: l in d && Neg(l) in vals && Neg(l) !in bits
  }

  // The partition of the assignment into conditional literals (in bits) and
  // autarky literals makes c globally blocked in the other live clauses.
  ghost predicate ConditionalAutarky(b: Base, c: nat, vals: set<Lit>, bits: set<Lit>) {
    && Consistent(vals) && c < |b.clauses|
    && (forall u :: u in b.units ==> u !in vals && Neg(u) !in vals)
    && (forall d :: 0 <= d < |b.clauses| && d !in b.garbage ==> Respected(b.clauses[d], vals, bits))
    && (forall l :: l in vals && l in bits ==> Neg(l) in b.clauses[c])
    && (exists l :: l in b.clauses[c] && l in vals && l !in bits)
  }

  // Forcing the autarky part repairs every model of the rest that falsifies c.
  lemma GloballyBlocked(b: Base, c: nat, vals: set<Lit>, bits: set<Lit>, w: seq<Lit>, m: Model)
    requires ConditionalAutarky(b, c, vals, bits) && Lits(w) == vals - bits
    requires b.(garbage := b.garbage + {c}).Live(m) && !Sat(m, b.clauses[c])
    ensures b.Live(ForceAll(m, w)) && Sat(ForceAll(m, w), b.clauses[c])
  {
    var m' := ForceAll(m, w);
    assert forall l :: l in w <==> l in vals && l !in bits by { assert forall l :: l in w <==> l in Lits(w); }
    ForceAllMeaning(m, w);
    forall l | l in vals ensures True(m', l) {
      if l in bits {
        assert Neg(l) in b.clauses[c] && !True(m, Neg(l));
      }
    }
    forall d | 0 <= d < |b.clauses| && d !in b.garbage && d != c ensures Sat(m', b.clauses[d]) {
      assert Respected(b.clauses[d], vals, bits);
      var l :| l in b.clauses[d] && True(m, l);
      if !True(m', l) {
        assert Neg(l) in w && Touched(b.clauses[d], vals, bits);
      }
    }
    forall u | u in b.units ensures True(m', u) {
      assert True(m, u) && Neg(u) !in w;
    }
    var l :| l in b.clauses[c] && l in vals && l !in bits;
  }

  lemma BlockedReconstructs(b: Base, c: nat, vals: set<Lit>, bits: set<Lit>, w: seq<Lit>)
    requires ConditionalAutarky(b, c, vals, bits) && Lits(w) == vals - bits
    ensures Reconstructs(b.Formula(), [Entry(w, b.clauses[c])], b.(garbage := b.garbage + {c}).Formula())
  {
    forall m: Model | b.(garbage := b.garbage + {c}).Live(m) && !Sat(m, b.clauses[c]) ensures b.Live(ForceAll(m, w)) {
      GloballyBlocked(b, c, vals, bits, w, m);
    }
    ClauseRemoval(b, c, w, b.clauses[c]);
  }

  // ---------- Completeness ----------

  // Some clause before n without literal of the initial assignment makes l conditional.
  ghost predicate MustBeConditional(b: Base, initial: set<Lit>, l: Lit, n: nat) {
    exists d ::
      0 <= d < n && d < |b.clauses| && d !in b.garbage && Neg(l) in b.clauses[d] && NoneIn(b.clauses[d], initial)
  }

  ghost predicate NoneIn(d: Clause, vals: set<Lit>) {
    forall k :: k in d ==> k !in vals
  }

  ghost predicate JustifiedBelow(b: Base, initial: set<Lit>, bits: set<Lit>, n: nat) {
    forall l :: l in bits ==> MustBeConditional(b, initial, l, n)
  }

  ghost predicate Justified(b: Base, initial: set<Lit>, bits: set<Lit>) {
    JustifiedBelow(b, initial, bits, |b.clauses|)
  }

  // Every conditional autarky inside the initial assignment is inside the
  // current one, with its autarky literals outside the conditional part.
  ghost predicate Inside(b: Base, c: nat, initial: set<Lit>, vals: set<Lit>, bits: set<Lit>) {
    forall v: set<Lit>, w: set<Lit> {:trigger ConditionalAutarky(b, c, v, w)} ::
      v <= initial && ConditionalAutarky(b, c, v, w) ==> v <= vals && forall l :: l in v && l !in w ==> l !in bits
  }

  ghost predicate NoneLeft(c: Clause, vals: set<Lit>, bits: set<Lit>) {
    forall l :: l in c && l in vals ==> l in bits
  }

  lemma InsideStart(b: Base, c: nat, initial: set<Lit>, bits: set<Lit>)
    requires Justified(b, initial, bits)
    ensures Inside(b, c, initial, initial, bits)
  {
    forall v: set<Lit>, w: set<Lit>, l | v <= initial && ConditionalAutarky(b, c, v, w) && l in v && l !in w
      ensures l !in bits
    {
      if l in bits {
        assert MustBeConditional(b, initial, l, |b.clauses|);
        var d :| 0 <= d < |b.clauses| && d !in b.garbage && Neg(l) in b.clauses[d] && NoneIn(b.clauses[d], initial);
        AutarkyTrue(b, c, v, w, d, l);
      }
    }
  }

  // A live clause with a false autarky literal has a true literal.
  lemma AutarkyTrue(b: Base, c: nat, v: set<Lit>, w: set<Lit>, d: nat, l: Lit)
    requires ConditionalAutarky(b, c, v, w) && d < |b.clauses| && d !in b.garbage
    requires l in v && l !in w && Neg(l) in b.clauses[d]
    ensures exists k :: k in b.clauses[d] && k in v
  {
    assert Neg(Neg(l)) == l;
    assert Respected(b.clauses[d], v, w) && Touched(b.clauses[d], v, w);
  }

  lemma InsideConditional(b: Base, c: nat, initial: set<Lit>, vals: set<Lit>, bits: set<Lit>, d: nat, l: Lit)
    requires Inside(b, c, initial, vals, bits) && d < |b.clauses| && d !in b.garbage
    requires Neg(l) in b.clauses[d] && NoneIn(b.clauses[d], vals)
    ensures Inside(b, c, initial, vals, bits + {l})
  {
    forall v: set<Lit>, w: set<Lit> | v <= initial && ConditionalAutarky(b, c, v, w) && l in v && l !in w
      ensures false
    {
      AutarkyTrue(b, c, v, w, d, l);
    }
  }

  lemma InsideUnassign(b: Base, c: nat, initial: set<Lit>, vals: set<Lit>, bits: set<Lit>, l: Lit)
    requires Inside(b, c, initial, vals, bits) && c < |b.clauses| && l in bits && Neg(l) !in b.clauses[c]
    ensures Inside(b, c, initial, vals - {l}, bits)
  {
    forall v: set<Lit>, w: set<Lit> | v <= initial && ConditionalAutarky(b, c, v, w) ensures l !in v {
    }
  }

  // Without an autarky literal left there is no conditional autarky at all.
  ghost predicate Hopeless(b: Base, c: nat, initial: set<Lit>) {
    forall v: set<Lit>, w: set<Lit> {:trigger ConditionalAutarky(b, c, v, w)} ::
      v <= initial ==> !ConditionalAutarky(b, c, v, w)
  }

  lemma GivenUp(b: Base, c: nat, initial: set<Lit>, vals: set<Lit>, bits: set<Lit>)
    requires c < |b.clauses| && Inside(b, c, initial, vals, bits) && NoneLeft(b.clauses[c], vals, bits)
    ensures Hopeless(b, c, initial)
  {
  }

  lemma NothingToRefine(b: Base, c: nat, initial: set<Lit>, bits: set<Lit>)
    requires c < |b.clauses| && Justified(b, initial, bits) && NoneLeft(b.clauses[c], initial, bits)
    ensures Hopeless(b, c, initial)
  {
    InsideStart(b, c, initial, bits);
    GivenUp(b, c, initial, initial, bits);
  }

  // ---------- Scanning clauses ----------

  // A true literal of d, if any, and the number of its false autarky literals.
  method ScanWatched(d: Clause, vals: set<Lit>, bits: set<Lit>) returns (replacement: int, negative: nat)
    requires Consistent(vals)
    ensures replacement != 0 ==> replacement in d && replacement in vals
    ensures replacement == 0 ==> NoneIn(d, vals)
    ensures negative == 0 <==> !Touched(d, vals, bits)
  {
    replacement, negative := 0, 0;
    for i := 0 to |d|
      invariant replacement != 0 ==> replacement in d && replacement in vals
      invariant replacement == 0 ==> forall k :: 0 <= k < i ==> d[k] !in vals
      invariant negative == 0 <==> forall k :: 0 <= k < i ==> Neg(d[k]) !in vals || Neg(d[k]) in bits
    {
      var lit := d[i];
      if lit in vals { replacement := lit; }
      if Neg(lit) in vals && Neg(lit) !in bits { negative := negative + 1; }
    }
  }

  // An autarky literal of the candidate, zero if there is none left.
  method FindAutarky(c: Clause, vals: set<Lit>, bits: set<Lit>) returns (r: int)
    ensures r != 0 ==> r in c && r in vals && r !in bits
    ensures r == 0 ==> NoneLeft(c, vals, bits)
  {
    for i := 0 to |c|
      invariant forall k :: 0 <= k < i ==> !(c[k] in vals && c[k] !in bits)
    {
      if c[i] in vals && c[i] !in bits { return c[i]; }
    }
    return 0;
  }

  // ---------- The refinement state ----------

  // No literal of d is true and no false one is in the autarky part: nothing left to do.
  ghost predicate Settled(d: Clause, vals: set<Lit>, bits: set<Lit>) {
    NoneIn(d, vals) && !Touched(d, vals, bits)
  }

  // Each watched clause is listed for its watch; those watched by u are in rest instead.
  ghost predicate Covered(cs: seq<Clause>, occs: map<Lit, seq<nat>>, initial: set<Lit>, watch: map<nat, Lit>, u: int,
        rest: seq<nat>)
  {
    forall d :: d in watch ==>
      && d < |cs| && watch[d] in initial && watch[d] in cs[d]
      && (if watch[d] == u then d in rest else watch[d] in occs && d in occs[watch[d]])
  }

  // Unwatched live clauses are not touched by the initial autarky part.
  ghost predicate Unwatched(b: Base, initial: set<Lit>, bits: set<Lit>, watch: map<nat, Lit>) {
    forall d :: 0 <= d < |b.clauses| && d !in b.garbage && d !in watch ==> !Touched(b.clauses[d], initial, bits)
  }

  // Every watched clause has a true watch, a watch still to be processed, or is
  // settled; those watched by u may be waiting in rest.
  ghost predicate Watching(cs: seq<Clause>, watch: map<nat, Lit>, vals: set<Lit>, bits: set<Lit>, pending: seq<Lit>,
        u: int, rest: seq<nat>)
  {
    forall d :: d in watch && d < |cs| ==>
      watch[d] in vals || watch[d] in pending || Settled(cs[d], vals, bits) || (watch[d] == u && d in rest)
  }

  lemma WatchingMonotone(cs: seq<Clause>, watch: map<nat, Lit>, vals: set<Lit>, bits: set<Lit>, pending: seq<Lit>,
        u: int, rest: seq<nat>, bits': set<Lit>)
    requires Watching(cs, watch, vals, bits, pending, u, rest) && bits <= bits'
    ensures Watching(cs, watch, vals, bits', pending, u, rest)
  {
    forall d | d in watch && d < |cs| && Settled(cs[d], vals, bits) ensures Settled(cs[d], vals, bits') {
    }
  }

  // Watching d by the true literal r instead of u.
  lemma MoveWatch(cs: seq<Clause>, occs: map<Lit, seq<nat>>, initial: set<Lit>, watch: map<nat, Lit>, vals: set<Lit>,
        bits: set<Lit>, pending: seq<Lit>, u: Lit, d: nat, others: seq<nat>, rest: seq<nat>, r: Lit, occs': map<Lit,
        seq<nat>>, watch': map<nat, Lit>)
    requires Covered(cs, occs, initial, watch, u, [d] + others)
    requires Watching(cs, watch, vals, bits, pending, u, [d] + rest)
    requires d < |cs| && r in vals && r in cs[d] && r in initial && r != u
    requires occs' == occs[r := (if r in occs then occs[r] else []) + [d]]
    requires watch' == if d in watch then watch[d := r] else watch
    ensures Covered(cs, occs', initial, watch', u, others)
    ensures Watching(cs, watch', vals, bits, pending, u, rest)
    ensures watch'.Keys == watch.Keys
  {
    forall x | x in watch' ensures x in watch && (x != d ==> watch'[x] == watch[x]) && (x == d ==> watch'[x] == r) {
    }
    assert d in occs'[r];
  }

  lemma KeepSettled(cs: seq<Clause>, watch: map<nat, Lit>, vals: set<Lit>, bits: set<Lit>, pending: seq<Lit>, u: Lit,
        d: nat, rest: seq<nat>)
    requires Watching(cs, watch, vals, bits, pending, u, [d] + rest) && d < |cs|
    requires Settled(cs[d], vals, bits)
    ensures Watching(cs, watch, vals, bits, pending, u, rest)
  {
  }

  class Conditioner {
    var db: Base
    var trail: seq<Lit>
    var vals: set<Lit>            // literals currently true, root level excluded
    var bits: set<Lit>            // literals marked conditional
    var conditional: seq<Lit>
    var unassigned: seq<Lit>      // conditional literals taken back for this candidate
    var occs: map<Lit, seq<nat>>  // one watch for each clause with true and false literals
    var props: nat
    var pushed: seq<Entry>
    ghost var start: Base         // the data base when the lists were filled
    ghost var initial: set<Lit>   // the assignment to refine
    ghost var watch: map<nat, Lit>

    ghost predicate Partition() reads this {
      && db.Valid() && Consistent(initial) && (forall u :: u in db.units ==> u !in initial && Neg(u) !in initial)
      && Lits(unassigned) <= initial && vals == initial - Lits(unassigned) && NoDup(unassigned)
      && Lits(conditional) == bits <= initial && NoDup(conditional)
      && (forall l :: l in initial ==> l in trail) && start.clauses == db.clauses
    }

    // Turn the false autarky literals of clause d into conditional ones, giving
    // up when the candidate has no autarky literal left.
    method MakeConditional(d: nat, c: Clause, watched: Lit, ghost ci: nat) returns (watched': int)
      requires Partition() && watched in c && watched in vals && watched !in bits && d < |db.clauses|
      requires d !in start.garbage && NoneIn(db.clauses[d], vals) && Inside(start, ci, initial, vals, bits)
      modifies this`bits, this`conditional
      ensures Partition() && old(bits) <= bits && old(conditional) <= conditional
      ensures Inside(start, ci, initial, vals, bits) && (watched' == 0 ==> NoneLeft(c, vals, bits))
      ensures watched' != 0 ==> AutarkyIn(watched', c) && !Touched(db.clauses[d], vals, bits)
    {
      watched' := watched;
      var lits, i := db.clauses[d], 0;
      while i < |lits| && watched' != 0
        invariant 0 <= i <= |lits| && Partition() && old(bits) <= bits && old(conditional) <= conditional
        invariant Inside(start, ci, initial, vals, bits) && (watched' == 0 ==> NoneLeft(c, vals, bits))
        invariant watched' != 0 ==> AutarkyIn(watched', c)
        invariant watched' != 0 ==> forall k :: 0 <= k < i ==> Neg(lits[k]) in vals ==> Neg(lits[k]) in bits
      {
        var l := Neg(lits[i]);
        if l in vals && l !in bits {
          LitsSnoc(conditional, l);
          assert l !in Lits(conditional) && Neg(l) == lits[i];
          InsideConditional(start, ci, initial, vals, bits, d, l);
          bits := bits + {l};
          conditional := conditional + [l];
          if l == watched' {
            watched' := FindAutarky(c, vals, bits);
          }
        }
        i := i + 1;
      }
    }

    // One clause watched by the unassigned literal u; returns whether it stays there.
    method ProcessClause(d: nat, u: Lit, c: Clause, watched: Lit, ghost pending: seq<Lit>, ghost others: seq<nat>,
          ghost rest: seq<nat>, ghost ci: nat)
      returns (keep: bool, watched': int)
      requires Partition() && watched in c && watched in vals && watched !in bits
      requires d < |db.clauses| && d !in start.garbage && u !in vals && Inside(start, ci, initial, vals, bits)
      requires Covered(db.clauses, occs, initial, watch, u, [d] + others)
      requires Watching(db.clauses, watch, vals, bits, pending, u, [d] + rest)
      modifies this`bits, this`conditional, this`occs, this`watch
      ensures Partition() && old(bits) <= bits && old(conditional) <= conditional
      ensures watch.Keys == old(watch).Keys
      ensures Covered(db.clauses, occs, initial, watch, u, if keep then [d] + others else others)
      ensures Inside(start, ci, initial, vals, bits) && (watched' == 0 ==> NoneLeft(c, vals, bits))
      ensures watched' != 0 ==> AutarkyIn(watched', c)
      ensures watched' != 0 ==> Watching(db.clauses, watch, vals, bits, pending, u, rest)
      ensures old(ListsOk()) ==> ListsOk()
    {
      watched' := watched;
      var replacement, negative := ScanWatched(db.clauses[d], vals, bits);
      if replacement != 0 {
        occs := occs[replacement := (if replacement in occs then occs[replacement] else []) + [d]];
        watch := if d in watch then watch[d := replacement] else watch;
        MoveWatch(db.clauses, old(occs), initial, old(watch), vals, bits, pending, u, d, others, rest, replacement,
          occs, watch);
        return false, watched';
      }
      keep := true;
      if negative != 0 {
        watched' := MakeConditional(d, c, watched, ci);
        WatchingMonotone(db.clauses, watch, vals, old(bits), pending, u, [d] + rest, bits);
      }
      if watched' != 0 {
        KeepSettled(db.clauses, watch, vals, bits, pending, u, d, rest);
      }
    }

    ghost predicate AutarkyIn(watched: int, c: Clause) reads this {
      watched in c && watched in vals && watched !in bits
    }

    method ProcessNext(os: seq<nat>, j: nat, kept: seq<nat>, u: Lit, c: Clause, watched: Lit, ghost pending: seq<Lit>,
          ghost ci: nat)
      returns (watched': int, kept': seq<nat>)
      requires Partition() && AutarkyIn(watched, c) && u !in vals && ListsOk() && j < |os|
      requires os[j] < |db.clauses| && os[j] !in start.garbage && Inside(start, ci, initial, vals, bits)
      requires Covered(db.clauses, occs, initial, watch, u, kept + os[j..])
      requires Watching(db.clauses, watch, vals, bits, pending, u, os[j..])
      modifies this`bits, this`conditional, this`occs, this`watch
      ensures Partition() && old(bits) <= bits && old(conditional) <= conditional
      ensures watch.Keys == old(watch).Keys && ListsOk()
      ensures kept' == kept || kept' == kept + [os[j]]
      ensures Covered(db.clauses, occs, initial, watch, u, kept' + os[j + 1..])
      ensures Inside(start, ci, initial, vals, bits) && (watched' == 0 ==> NoneLeft(c, vals, bits))
      ensures watched' != 0 ==>
        AutarkyIn(watched', c) && Watching(db.clauses, watch, vals, bits, pending, u, os[j + 1..])
    {
      var d := os[j];
      ghost var rest := os[j + 1..];
      assert os[j..] == [d] + rest;
      CoveredSame(db.clauses, occs, initial, watch, u, kept + os[j..], [d] + (kept + rest));
      var keep;
      keep, watched' := ProcessClause(d, u, c, watched, pending, kept + rest, rest, ci);
      kept' := kept;
      if keep {
        CoveredSame(db.clauses, occs, initial, watch, u, [d] + (kept + rest), (kept + [d]) + rest);
        kept' := kept + [d];
      }
    }

    // All clauses watched by the unassigned literal u.
    method ProcessUnassigned(u: Lit, c: Clause, watched: Lit, ghost pending: seq<Lit>, ghost ci: nat)
      returns (watched': int)
      requires Partition() && AutarkyIn(watched, c) && u !in vals && Inside(start, ci, initial, vals, bits)
      requires Covered(db.clauses, occs, initial, watch, 0, []) && ListsOk()
      requires Watching(db.clauses, watch, vals, bits, [u] + pending, 0, [])
      modifies this`bits, this`conditional, this`occs, this`watch
      ensures Partition() && old(bits) <= bits && old(conditional) <= conditional
      ensures watch.Keys == old(watch).Keys
      ensures Covered(db.clauses, occs, initial, watch, 0, []) && ListsOk()
      ensures Inside(start, ci, initial, vals, bits) && (watched' == 0 ==> NoneLeft(c, vals, bits))
      ensures watched' != 0 ==> AutarkyIn(watched', c) && Watching(db.clauses, watch, vals, bits, pending, 0, [])
    {
      var os := if u in occs then occs[u] else [];
      OpenList(db.clauses, occs, initial, watch, vals, bits, pending, u, os);
      var left;
      watched', left := TraverseList(os, u, c, watched, pending, ci);
      CoveredClose(db.clauses, occs, initial, watch, u, left);
      ListsClose(start, occs, u, left, |db.clauses|);
      occs := occs[u := left];
    }

    // A traversal that stops early keeps the remaining watches.
    method TraverseList(os: seq<nat>, u: Lit, c: Clause, watched: Lit, ghost pending: seq<Lit>, ghost ci: nat)
      returns (watched': int, left: seq<nat>)
      requires Partition() && AutarkyIn(watched, c) && u !in vals && Inside(start, ci, initial, vals, bits)
      requires Covered(db.clauses, occs, initial, watch, u, os) && ListsOk() && ListBelow(start, os, |db.clauses|)
      requires Watching(db.clauses, watch, vals, bits, pending, u, os)
      modifies this`bits, this`conditional, this`occs, this`watch
      ensures Partition() && old(bits) <= bits && old(conditional) <= conditional
      ensures watch.Keys == old(watch).Keys
      ensures Covered(db.clauses, occs, initial, watch, u, left) && ListsOk() && ListBelow(start, left, |db.clauses|)
      ensures Inside(start, ci, initial, vals, bits) && (watched' == 0 ==> NoneLeft(c, vals, bits))
      ensures watched' != 0 ==> AutarkyIn(watched', c) && Watching(db.clauses, watch, vals, bits, pending, u, [])
    {
      watched' := watched;
      var kept: seq<nat>, j := [], 0;
      assert os[j..] == os && kept + os == os;
      while j < |os| && watched' != 0
        invariant 0 <= j <= |os| && Partition() && old(bits) <= bits
        invariant old(conditional) <= conditional && watch.Keys == old(watch).Keys
        invariant Inside(start, ci, initial, vals, bits)
        invariant if watched' == 0 then NoneLeft(c, vals, bits) else AutarkyIn(watched', c)
        invariant Covered(db.clauses, occs, initial, watch, u, kept + os[j..])
        invariant watched' != 0 ==> Watching(db.clauses, watch, vals, bits, pending, u, os[j..])
        invariant ListsOk() && ListBelow(start, kept, |db.clauses|)
      {
        watched', kept := ProcessNext(os, j, kept, u, c, watched', pending, ci);
        j := j + 1;
      }
      left := kept + os[j..];
      assert watched' != 0 ==> os[j..] == [];
    }

    ghost predicate Refining(c: Clause, nc: nat) reads this {
      && Partition() && ListsOk() && Covered(db.clauses, occs, initial, watch, 0, []) && nc <= |conditional|
      && Lits(unassigned) <= Lits(conditional[..nc])
      && (forall k :: 0 <= k < nc ==> conditional[k] !in vals || Neg(conditional[k]) in c)
    }

    // Take back the conditional literal l, which the negated candidate does not contain.
    method Unassign(l: Lit, c: Clause, nc: nat)
      requires nc < |conditional| && l == conditional[nc] && Refining(c, nc)
      modifies this`vals, this`unassigned
      ensures Refining(c, nc + 1) && unassigned == old(unassigned) + [l]
      ensures vals == old(vals) - {l} && l in old(vals)
    {
      assert conditional[..nc + 1] == conditional[..nc] + [l];
      LitsSnoc(conditional[..nc], l);
      LitsSnoc(unassigned, l);
      assert l in Lits(conditional) && l !in conditional[..nc] && l !in Lits(conditional[..nc]);
      vals := vals - {l};
      unassigned := unassigned + [l];
    }

    // Process the literals unassigned so far.
    method DrainUnassigned(c: Clause, watched: Lit, first: nat, limit: nat, ghost nc: nat, ghost ci: nat)
      returns (watched': int, nu: nat)
      requires Refining(c, nc) && AutarkyIn(watched, c) && first <= |unassigned|
      requires Inside(start, ci, initial, vals, bits)
      requires Watching(db.clauses, watch, vals, bits, unassigned[first..], 0, [])
      modifies this`bits, this`conditional, this`occs, this`watch, this`props
      ensures Refining(c, nc) && nu <= |unassigned| && old(conditional) <= conditional
      ensures old(bits) <= bits
      ensures watch.Keys == old(watch).Keys && Inside(start, ci, initial, vals, bits)
      ensures if watched' == 0 then NoneLeft(c, vals, bits) else AutarkyIn(watched', c)
      ensures watched' != 0 && props < limit ==>
        nu == |unassigned| && Watching(db.clauses, watch, vals, bits, [], 0, [])
      ensures first <= nu && props == old(props) + (nu - first)
    {
      watched', nu := watched, first;
      while watched' != 0 && props < limit && nu < |unassigned|
        decreases |unassigned| - nu
        invariant Refining(c, nc) && nu <= |unassigned| && old(conditional) <= conditional
        invariant old(bits) <= bits && first <= nu && props == old(props) + (nu - first)
        invariant watch.Keys == old(watch).Keys && Inside(start, ci, initial, vals, bits)
        invariant if watched' == 0 then NoneLeft(c, vals, bits) else AutarkyIn(watched', c)
        invariant watched' != 0 ==> Watching(db.clauses, watch, vals, bits, unassigned[nu..], 0, [])
      {
        var u := unassigned[nu];
        ghost var rest := unassigned[nu + 1..];
        HeadOf(unassigned, nu);
        assert u in Lits(unassigned);
        ghost var before := conditional;
        nu := nu + 1;
        props := props + 1;
        watched' := ProcessUnassigned(u, c, watched', rest, ci);
        assert conditional[..nc] == before[..nc];
      }
      assert nu == |unassigned| ==> unassigned[nu..] == [];
    }

    // The next conditional literal stays if the candidate contains its negation.
    method ProcessConditional(c: Clause, watched: Lit, nc: nat, nu: nat, limit: nat, ghost ci: nat)
      returns (watched': int, nu': nat)
      requires ci < |db.clauses| && c == db.clauses[ci] && Inside(start, ci, initial, vals, bits)
      requires Refining(c, nc) && nc < |conditional| && AutarkyIn(watched, c) && nu == |unassigned|
      requires Watching(db.clauses, watch, vals, bits, [], 0, []) && props < limit
      modifies this`vals, this`bits, this`conditional, this`unassigned, this`occs, this`watch, this`props
      ensures Refining(c, nc + 1) && nu' <= |unassigned| && old(conditional) <= conditional
      ensures old(bits) <= bits
      ensures watch.Keys == old(watch).Keys && Inside(start, ci, initial, vals, bits)
      ensures if watched' == 0 then NoneLeft(c, vals, bits) else AutarkyIn(watched', c)
      ensures watched' != 0 && props < limit ==>
        nu' == |unassigned| && Watching(db.clauses, watch, vals, bits, [], 0, [])
      ensures nu <= nu' && props == old(props) + (nu' - nu)
    {
      watched', nu' := watched, nu;
      var l := conditional[nc];
      if Neg(l) in c {
        assert conditional[..nc + 1] == conditional[..nc] + [l];
        LitsSnoc(conditional[..nc], l);
      } else {
        assert l in Lits(conditional);
        InsideUnassign(start, ci, initial, vals, bits, l);
        Unassign(l, c, nc);
        WatchingUnassigned(db.clauses, watch, old(vals), vals, bits, l);
        assert unassigned[nu..] == [l];
        watched', nu' := DrainUnassigned(c, watched, nu, limit, nc + 1, ci);
      }
    }

    // Refine the assignment until it is a conditional autarky for clause c, the
    // candidate has no autarky literal left, or the limit is hit.  In the second
    // case there is none inside the initial assignment.
    method Refine(c: nat, watched: Lit, limit: nat) returns (watched': int)
      requires c < |db.clauses| && Partition() && ListsOk() && unassigned == []
      requires AutarkyIn(watched, db.clauses[c])
      requires Covered(db.clauses, occs, initial, watch, 0, [])
      requires Unwatched(db, initial, bits, watch) && Justified(start, initial, bits)
      modifies this`vals, this`bits, this`conditional, this`unassigned, this`occs, this`watch, this`props
      ensures Partition() && ListsOk() && Covered(db.clauses, occs, initial, watch, 0, [])
      ensures old(conditional) <= conditional && watch.Keys == old(watch).Keys
      ensures watched' != 0 && props < limit ==> ConditionalAutarky(db, c, vals, bits)
      ensures watched' == 0 ==> Hopeless(start, c, initial)
      ensures old(props) <= props <= old(props) + |initial|
    {
      watched' := watched;
      var cl, nc, nu := db.clauses[c], 0, 0;
      assert Watching(db.clauses, watch, vals, bits, [], 0, []);
      InsideStart(start, c, initial, bits);
      assert vals == initial;
      while watched' != 0 && props < limit && nc < |conditional|
        invariant Refining(cl, nc) && nu <= |unassigned| && old(conditional) <= conditional
        invariant old(bits) <= bits && props == old(props) + nu
        invariant watch.Keys == old(watch).Keys
        invariant Inside(start, c, initial, vals, bits)
        invariant if watched' == 0 then NoneLeft(cl, vals, bits) else AutarkyIn(watched', cl)
        invariant watched' != 0 && props < limit ==>
          nu == |unassigned| && Watching(db.clauses, watch, vals, bits, [], 0, [])
        decreases |initial| - nc
      {
        ConditionalBound(conditional, initial);
        watched', nu := ProcessConditional(cl, watched', nc, nu, limit, c);
        nc := nc + 1;
      }
      if watched' != 0 && props < limit {
        Fixpoint(c, watched', old(bits));
      }
      if watched' == 0 { GivenUp(start, c, initial, vals, bits); }
      ConditionalBound(unassigned, initial);
    }

    // All conditional literals processed and no watch pending: a conditional autarky.
    lemma Fixpoint(c: nat, watched: Lit, bits0: set<Lit>)
      requires c < |db.clauses| && Refining(db.clauses[c], |conditional|)
      requires AutarkyIn(watched, db.clauses[c])
      requires Watching(db.clauses, watch, vals, bits, [], 0, [])
      requires Unwatched(db, initial, bits0, watch) && bits0 <= bits
      ensures ConditionalAutarky(db, c, vals, bits)
    {
      forall d | 0 <= d < |db.clauses| && d !in db.garbage ensures Respected(db.clauses[d], vals, bits) {
        if d in watch {
          assert watch[d] in db.clauses[d];
        } else if Touched(db.clauses[d], vals, bits) {
          var l :| l in db.clauses[d] && Neg(l) in vals && Neg(l) !in bits;
          assert Neg(l) in initial && Neg(l) !in bits0;
          assert Touched(db.clauses[d], initial, bits0);
        }
      }
      forall l | l in vals && l in bits ensures Neg(l) in db.clauses[c] {
        var k :| 0 <= k < |conditional| && conditional[k] == l;
      }
    }

    // Between candidates: the initial assignment and partition, every clause that needs it watched.
    ghost predicate Ready() reads this {
      && Partition() && ListsOk() && unassigned == []
      && Covered(db.clauses, occs, initial, watch, 0, []) && Unwatched(db, initial, bits, watch)
      && Justified(start, initial, bits)
    }

    // Get back to the initial assignment and partition.
    method Restore(n: nat)
      requires Partition() && n <= |conditional|
      modifies this`vals, this`bits, this`conditional, this`unassigned
      ensures Partition() && unassigned == [] && conditional == old(conditional)[..n]
    {
      while unassigned != []
        invariant Partition() && conditional == old(conditional) && bits == old(bits)
      {
        var k := |unassigned| - 1;
        assert unassigned == unassigned[..k] + [unassigned[k]];
        LitsSnoc(unassigned[..k], unassigned[k]);
        vals := vals + {unassigned[k]};
        unassigned := unassigned[..k];
      }
      while n < |conditional|
        invariant Partition() && unassigned == [] && n <= |conditional|
        invariant conditional == old(conditional)[..|conditional|]
        decreases |conditional|
      {
        var k := |conditional| - 1;
        assert conditional == conditional[..k] + [conditional[k]];
        LitsSnoc(conditional[..k], conditional[k]);
        assert conditional[k] !in Lits(conditional[..k]);
        bits := bits - {conditional[k]};
        conditional := conditional[..k];
      }
    }

    // The autarky literals, in trail order.
    method CollectAutarky() returns (w: seq<Lit>)
      requires Partition()
      ensures Lits(w) == vals - bits
    {
      w := [];
      for i := 0 to |trail|
        invariant forall k :: 0 <= k < i && trail[k] in vals && trail[k] !in bits ==> trail[k] in w
        invariant forall k :: 0 <= k < |w| ==> w[k] in vals && w[k] !in bits
      {
        if trail[i] in vals && trail[i] !in bits {
          w := w + [trail[i]];
        }
      }
    }

    // Save the clause with the autarky part as its witness and remove it.
    method RemoveBlocked(c: nat)
      requires Partition() && ConditionalAutarky(db, c, vals, bits)
      modifies this`db, this`pushed
      ensures Partition() && db == old(db).(garbage := old(db.garbage) + {c})
      ensures old(pushed) <= pushed
      ensures Reconstructs(old(db).Formula(), pushed[|old(pushed)|..], db.Formula())
    {
      var w := CollectAutarky();
      BlockedReconstructs(db, c, vals, bits, w);
      pushed := pushed + [Entry(w, db.clauses[c])];
      assert pushed[|old(pushed)|..] == [Entry(w, db.clauses[c])];
      db := db.(garbage := db.garbage + {c});
    }

    // Try to remove clause c as globally blocked; the state is as before for the next candidate.
    method TryCandidate(c: nat, limit: nat) returns (blocked: bool)
      requires Ready() && c < |db.clauses| && c !in db.garbage
      modifies this`db, this`vals, this`bits, this`conditional, this`unassigned, this`occs, this`watch, this`props,
        this`pushed
      ensures Ready() && vals == old(vals) && bits == old(bits) && conditional == old(conditional)
      ensures db == if blocked then old(db).(garbage := old(db.garbage) + {c}) else old(db)
      ensures blocked || props >= limit || Hopeless(start, c, initial)
      ensures blocked ==> !Hopeless(old(db), c, initial)
      ensures old(props) <= props <= old(props) + |initial|
      ensures old(pushed) <= pushed
      ensures Reconstructs(old(db).Formula(), pushed[|old(pushed)|..], db.Formula())
    {
      blocked := false;
      assert pushed[|pushed|..] == [];
      var watched := FindAutarky(db.clauses[c], vals, bits);
      if watched == 0 {
        NothingToRefine(start, c, initial, bits);
        return;
      }
      var n := |conditional|;
      watched := Refine(c, watched, limit);
      if watched != 0 && props < limit {
        blocked := true;
        assert ConditionalAutarky(db, c, vals, bits) && vals <= initial;
        RemoveBlocked(c);
      }
      Restore(n);
      assert conditional == old(conditional);
    }

    // A reason, removed, or there is no conditional autarky for it.
    ghost predicate Tried(c: nat, reasons: set<nat>) reads this {
      c in reasons || c in db.garbage || Hopeless(start, c, initial)
    }

    // Try all candidates that are not reasons of assigned literals.
    method TryCandidates(candidates: seq<nat>, reasons: set<nat>, limit: nat)
      requires Ready() && forall i :: 0 <= i < |candidates| ==> candidates[i] < |db.clauses|
      modifies this`db, this`vals, this`bits, this`conditional, this`unassigned, this`occs, this`watch, this`props,
        this`pushed
      ensures Ready() && vals == old(vals)
      ensures old(pushed) <= pushed
      ensures Reconstructs(old(db).Formula(), pushed[|old(pushed)|..], db.Formula())
      ensures start == old(start) && initial == old(initial) && Attempted(old(db), db, candidates, reasons)
      ensures props >= limit || forall i :: 0 <= i < |candidates| ==> Tried(candidates[i], reasons)
      ensures Spent(old(props), props, |candidates|, |initial|)
    {
      assert pushed[|pushed|..] == [];
      var i := 0;
      while i < |candidates| && props < limit
        invariant 0 <= i <= |candidates| && Ready() && vals == old(vals)
        invariant start == old(start) && initial == old(initial) && Attempted(old(db), db, candidates, reasons)
        invariant props >= limit || forall k :: 0 <= k < i ==> Tried(candidates[k], reasons)
        invariant Spent(old(props), props, i, |initial|)
        invariant old(pushed) <= pushed
        invariant Reconstructs(old(db).Formula(), pushed[|old(pushed)|..], db.Formula())
      {
        ghost var before := props;
        TryNext(candidates, i, reasons, limit, old(db), |old(pushed)|);
        SpentNext(old(props), before, props, i, |initial|);
        i := i + 1;
      }
      SpentMore(old(props), props, i, |initial|, |candidates|);
    }

    method TryNext(candidates: seq<nat>, i: nat, reasons: set<nat>, limit: nat, ghost b0: Base, ghost n: nat)
      requires Ready() && i < |candidates| && n <= |pushed| && candidates[i] < |db.clauses|
      requires Attempted(b0, db, candidates, reasons) && Reconstructs(b0.Formula(), pushed[n..], db.Formula())
      modifies this`db, this`vals, this`bits, this`conditional, this`unassigned, this`occs, this`watch, this`props,
        this`pushed
      ensures Ready() && vals == old(vals) && old(pushed) <= pushed
      ensures Attempted(b0, db, candidates, reasons) && Reconstructs(b0.Formula(), pushed[n..], db.Formula())
      ensures old(db.garbage) <= db.garbage && (props >= limit || Tried(candidates[i], reasons))
      ensures old(props) <= props <= old(props) + |initial|
    {
      var c := candidates[i];
      if c !in reasons && c !in db.garbage {
        ghost var g, p := db.Formula(), pushed;
        var _ := TryCandidate(c, limit);
        ReconstructsCompose(b0.Formula(), p[n..], g, pushed[|p|..], db.Formula());
        assert pushed[n..] == p[n..] + pushed[|p|..];
      }
    }

    // What holds when the clauses before n have been collected.
    ghost predicate Preparing(n: nat) reads this {
      && Partition() && unassigned == [] && initial == vals && start == db && n <= |db.clauses|
      && Covered(db.clauses, occs, initial, watch, 0, []) && ListsBelow(db, occs, n)
      && JustifiedBelow(db, initial, bits, n)
      && forall k :: 0 <= k < n && k !in db.garbage && k !in watch ==> !Touched(db.clauses[k], initial, bits)
    }

    // Mark the negations of all false literals of clause d, which has no true one, as conditional.
    method MarkAll(d: nat)
      requires Preparing(d) && d < |db.clauses| && d !in db.garbage && NoneIn(db.clauses[d], vals)
      modifies this`bits, this`conditional
      ensures Preparing(d + 1)
    {
      var lits := db.clauses[d];
      for i := 0 to |lits|
        invariant Partition() && old(bits) <= bits && JustifiedBelow(db, initial, bits, d + 1)
        invariant forall k :: 0 <= k < i ==> Neg(lits[k]) in vals ==> Neg(lits[k]) in bits
      {
        var l := Neg(lits[i]);
        if l in vals && l !in bits {
          LitsSnoc(conditional, l);
          assert Neg(l) == lits[i] && MustBeConditional(db, initial, l, d + 1);
          bits := bits + {l};
          conditional := conditional + [l];
        }
      }
    }

    // Collect candidates and watches and the initial conditional part.
    method Prepare() returns (candidates: seq<nat>)
      requires db.Valid() && Consistent(vals)
      requires forall u :: u in db.units ==> u !in vals && Neg(u) !in vals
      requires conditional == [] && bits == {} && unassigned == []
      requires occs == map[] && forall l :: l in vals ==> l in trail
      modifies this`db, this`bits, this`conditional, this`occs, this`initial, this`watch, this`start
      ensures Ready() && initial == vals && start == db
      ensures forall i :: 0 <= i < |candidates| ==> candidates[i] < |db.clauses|
      ensures SameLive(old(db), db)
      ensures Gathered(old(db), db, vals, candidates, |db.clauses|)
    {
      initial, watch, start, candidates := vals, map[], db, [];
      for d := 0 to |db.clauses|
        invariant Preparing(d) && SameLive(old(db), db) && Gathered(old(db), db, vals, candidates, d)
      {
        candidates := PrepareNext(d, candidates, old(db));
      }
      GatheredBelow(old(db), db, vals, candidates, |db.clauses|);
    }

    method PrepareNext(d: nat, candidates: seq<nat>, ghost b0: Base) returns (candidates': seq<nat>)
      requires Preparing(d) && d < |db.clauses| && Gathered(b0, db, vals, candidates, d) && SameLive(b0, db)
      modifies this`db, this`bits, this`conditional, this`occs, this`watch, this`start
      ensures Preparing(d + 1) && Gathered(b0, db, vals, candidates', d + 1) && SameLive(b0, db)
    {
      candidates' := candidates;
      GatheredNext(b0, db, vals, candidates, d);
      if d in db.garbage {
        MoreBelow(db, occs, initial, bits, d);
      } else {
        var candidate := PrepareClause(d);
        if candidate { candidates' := candidates' + [d]; }
      }
    }

    method PrepareClause(d: nat) returns (candidate: bool)
      requires Preparing(d) && d < |db.clauses| && d !in db.garbage
      modifies this`db, this`bits, this`conditional, this`occs, this`watch, this`start
      ensures Preparing(d + 1) && db.clauses == old(db.clauses)
      ensures SameLive(old(db), db)
      ensures db == if RootSatisfied(old(db), d) then old(db).(garbage := old(db).garbage + {d}) else old(db)
      ensures candidate <==> !RootSatisfied(old(db), d) && !NoneIn(db.clauses[d], vals)
    {
      var satisfied, w, negative := ScanInitial(db.clauses[d], vals, db.units, occs);
      candidate := w != 0;
      if satisfied {
        ghost var b := db;
        db := db.(garbage := db.garbage + {d});
        start := db;
        SatisfiedRemoved(b, d);
        RemovedBelow(b, occs, initial, bits, d);
        return false;
      }
      if w != 0 && negative {
        WatchClause(d, w);
      } else if negative {
        MarkAll(d);
      } else {
        MoreBelow(db, occs, initial, bits, d);
      }
    }

    // Watch clause d by its true literal w.
    method WatchClause(d: nat, w: Lit)
      requires Preparing(d) && d < |db.clauses| && d !in db.garbage && w in db.clauses[d] && w in vals
      modifies this`occs, this`watch
      ensures Preparing(d + 1)
    {
      MoreBelow(db, occs, initial, bits, d);
      var os := (if w in occs then occs[w] else []) + [d];
      AddWatch(db.clauses, occs, initial, watch, d, w, occs[w := os]);
      ListsClose(db, occs, w, os, d + 1);
      occs := occs[w := os];
      watch := watch[d := w];
    }

    // Occurrence lists hold clauses that were live when they were filled.
    ghost predicate ListsOk() reads this {
      ListsBelow(start, occs, |db.clauses|)
    }
  }

  // Lists hold live clauses before n.
  ghost predicate ListsBelow(b: Base, occs: map<Lit, seq<nat>>, n: nat) {
    forall l :: l in occs ==> ListBelow(b, occs[l], n)
  }

  ghost predicate ListBelow(b: Base, os: seq<nat>, n: nat) {
    forall k :: 0 <= k < |os| ==> os[k] < n && os[k] !in b.garbage
  }

  lemma ListsClose(b: Base, occs: map<Lit, seq<nat>>, u: Lit, os: seq<nat>, n: nat)
    requires ListsBelow(b, occs, n) && ListBelow(b, os, n)
    ensures ListsBelow(b, occs[u := os], n)
  {
  }

  lemma MoreBelow(b: Base, occs: map<Lit, seq<nat>>, initial: set<Lit>, bits: set<Lit>, d: nat)
    requires ListsBelow(b, occs, d) && JustifiedBelow(b, initial, bits, d)
    ensures ListsBelow(b, occs, d + 1) && JustifiedBelow(b, initial, bits, d + 1)
  {
    forall l | l in bits ensures MustBeConditional(b, initial, l, d + 1) { assert MustBeConditional(b, initial, l, d); }
  }

  // Removing clause d affects nothing before it.
  lemma RemovedBelow(b: Base, occs: map<Lit, seq<nat>>, initial: set<Lit>, bits: set<Lit>, d: nat)
    requires ListsBelow(b, occs, d) && JustifiedBelow(b, initial, bits, d)
    ensures ListsBelow(b.(garbage := b.garbage + {d}), occs, d + 1)
    ensures JustifiedBelow(b.(garbage := b.garbage + {d}), initial, bits, d + 1)
  {
    forall l | l in bits ensures MustBeConditional(b.(garbage := b.garbage + {d}), initial, l, d + 1) {
      assert MustBeConditional(b, initial, l, d);
    }
  }

  lemma HeadOf(s: seq<Lit>, i: nat)
    requires i < |s|
    ensures s[i..] == [s[i]] + s[i + 1..]
  {
  }

  // The clauses watched by u are those in its list.
  lemma OpenList(cs: seq<Clause>, occs: map<Lit, seq<nat>>, initial: set<Lit>, watch: map<nat, Lit>, vals: set<Lit>,
        bits: set<Lit>, pending: seq<Lit>, u: Lit, os: seq<nat>)
    requires Covered(cs, occs, initial, watch, 0, [])
    requires Watching(cs, watch, vals, bits, [u] + pending, 0, [])
    requires os == if u in occs then occs[u] else []
    ensures Covered(cs, occs, initial, watch, u, os)
    ensures Watching(cs, watch, vals, bits, pending, u, os)
  {
  }

  lemma AddWatch(cs: seq<Clause>, occs: map<Lit, seq<nat>>, initial: set<Lit>, watch: map<nat, Lit>, d: nat, w: Lit,
        occs': map<Lit, seq<nat>>)
    requires Covered(cs, occs, initial, watch, 0, []) && d < |cs| && w in initial && w in cs[d]
    requires occs' == occs[w := (if w in occs then occs[w] else []) + [d]]
    ensures Covered(cs, occs', initial, watch[d := w], 0, [])
  {
    assert d in occs'[w];
  }

  lemma CoveredClose(cs: seq<Clause>, occs: map<Lit, seq<nat>>, initial: set<Lit>, watch: map<nat, Lit>, u: Lit,
        rest: seq<nat>)
    requires Covered(cs, occs, initial, watch, u, rest)
    ensures Covered(cs, occs[u := rest], initial, watch, 0, [])
  {
  }

  lemma CoveredSame(cs: seq<Clause>, occs: map<Lit, seq<nat>>, initial: set<Lit>, watch: map<nat, Lit>, u: int,
        rest: seq<nat>, rest': seq<nat>)
    requires Covered(cs, occs, initial, watch, u, rest) && forall d :: d in rest ==> d in rest'
    ensures Covered(cs, occs, initial, watch, u, rest')
  {
  }

  lemma ConditionalBound(conditional: seq<Lit>, initial: set<Lit>)
    requires NoDup(conditional) && Lits(conditional) <= initial
    ensures |conditional| <= |initial|
  {
    NoDupSize(conditional);
    assert |initial - Lits(conditional)| == |initial| - |Lits(conditional)|;
  }

  lemma WatchingUnassigned(cs: seq<Clause>, watch: map<nat, Lit>, vals: set<Lit>, vals': set<Lit>, bits: set<Lit>,
        l: Lit)
    requires Watching(cs, watch, vals, bits, [], 0, []) && vals' == vals - {l}
    ensures Watching(cs, watch, vals', bits, [l], 0, [])
  {
    forall d | d in watch && d < |cs| && Settled(cs[d], vals, bits) ensures Settled(cs[d], vals', bits) {
    }
  }

  // At most n steps for each of k candidates.
  ghost predicate Spent(p0: nat, p: nat, k: nat, n: nat) {
    p0 <= p <= p0 + k * n
  }

  lemma SpentNext(p0: nat, p: nat, p': nat, k: nat, n: nat)
    requires Spent(p0, p, k, n) && p <= p' <= p + n
    ensures Spent(p0, p', k + 1, n)
  {
    assert (k + 1) * n == k * n + n;
  }

  lemma SpentMore(p0: nat, p: nat, k: nat, n: nat, k': nat)
    requires Spent(p0, p, k, n) && k <= k'
    ensures Spent(p0, p, k', n)
  {
    assert k' * n == k * n + (k' - k) * n && (k' - k) * n >= 0;
  }

  // Only candidates that are no reasons have been removed.
  ghost predicate Attempted(b0: Base, b: Base, candidates: seq<nat>, reasons: set<nat>) {
    && b == b0.(garbage := b.garbage) && b0.garbage <= b.garbage
    && forall c :: c in b.garbage && c !in b0.garbage ==> c in candidates && c !in reasons
  }

  ghost predicate RootSatisfied(b: Base, d: nat)
    requires d < |b.clauses|
  {
    exists l :: l in b.clauses[d] && l in b.units
  }

  // Before clause n: clauses satisfied at the root level are garbage, and the
  // candidates are the other live clauses with a true literal, in order.
  ghost predicate Gathered(b0: Base, b: Base, vals: set<Lit>, candidates: seq<nat>, n: nat) {
    && b == b0.(garbage := b.garbage) && n <= |b.clauses| && b0.garbage <= b.garbage
    && (forall d: nat :: d in b.garbage && d < |b.clauses| ==> d in b0.garbage || (d < n && RootSatisfied(b0, d)))
    && (forall d: nat :: d < n && RootSatisfied(b0, d) ==> d in b.garbage)
    && (forall d: nat :: d in candidates <==> d < n && d !in b.garbage && !NoneIn(b.clauses[d], vals))
    && (forall i, j :: 0 <= i < j < |candidates| ==> candidates[i] < candidates[j])
  }

  ghost predicate SameLive(b: Base, b': Base) {
    forall m: Model :: b.Live(m) <==> b'.Live(m)
  }

  lemma GatheredBelow(b0: Base, b: Base, vals: set<Lit>, candidates: seq<nat>, n: nat)
    requires Gathered(b0, b, vals, candidates, n)
    ensures forall i :: 0 <= i < |candidates| ==> candidates[i] < |b.clauses|
  {
    forall i | 0 <= i < |candidates| ensures candidates[i] < |b.clauses| { assert candidates[i] in candidates; }
  }

  // The three ways to treat clause n.
  lemma GatheredNext(b0: Base, b: Base, vals: set<Lit>, candidates: seq<nat>, n: nat)
    requires Gathered(b0, b, vals, candidates, n) && n < |b.clauses|
    ensures n in b.garbage ==> Gathered(b0, b, vals, candidates, n + 1)
    ensures RootSatisfied(b, n) ==> Gathered(b0, b.(garbage := b.garbage + {n}), vals, candidates, n + 1)
    ensures n !in b.garbage && !RootSatisfied(b, n) ==>
      Gathered(b0, b, vals, if NoneIn(b.clauses[n], vals) then candidates else candidates + [n], n + 1)
  {
    assert forall d: nat :: d < |b.clauses| ==> (RootSatisfied(b0, d) <==> RootSatisfied(b, d));
    var more := candidates + [n];
    forall d: nat ensures d in more <==> d in candidates || d == n { assert more[|candidates|] == n; }
    forall i | 0 <= i < |candidates| ensures candidates[i] < n { assert candidates[i] in candidates; }
  }

  // Satisfied at the root level, or a true literal with the shortest list (if any) and whether a false literal occurs.
  method ScanInitial(d: Clause, vals: set<Lit>, units: set<Lit>, occs: map<Lit, seq<nat>>)
    returns (satisfied: bool, w: int, negative: bool)
    requires Consistent(vals) && forall u :: u in units ==> u !in vals && Neg(u) !in vals
    ensures satisfied <==> exists l :: l in d && l in units
    ensures satisfied ==> w == 0
    ensures !satisfied ==> forall l :: l in d && l in vals ==> w != 0 && ListSize(occs, w) <= ListSize(occs, l)
    ensures !satisfied && w != 0 ==> w in d && w in vals
    ensures !satisfied && w == 0 ==> NoneIn(d, vals)
    ensures !satisfied && !negative ==> forall l :: l in d ==> Neg(l) !in vals
  {
    satisfied, w, negative := false, 0, false;
    for i := 0 to |d|
      invariant w != 0 ==> w in d && w in vals
      invariant forall k :: 0 <= k < i ==> d[k] !in units
      invariant forall k :: 0 <= k < i && d[k] in vals ==> w != 0 && ListSize(occs, w) <= ListSize(occs, d[k])
      invariant !negative ==> forall k :: 0 <= k < i ==> Neg(d[k]) !in vals
    {
      var lit := d[i];
      if lit in units { return true, 0, false; }
      if Neg(lit) in vals {
        negative := true;
      } else if lit in vals {
        if w == 0 || ListSize(occs, lit) < ListSize(occs, w) { w := lit; }
      }
    }
  }

  function ListSize(occs: map<Lit, seq<nat>>, l: int): nat {
    if l != 0 && l in occs then |occs[l]| else 0
  }

  lemma SatisfiedRemoved(b: Base, d: nat)
    requires d < |b.clauses| && exists l :: l in b.clauses[d] && l in b.units
    ensures SameLive(b, b.(garbage := b.garbage + {d}))
  {
    var b' := b.(garbage := b.garbage + {d});
    forall m: Model ensures b.Live(m) <==> b'.Live(m) {
      if b'.Live(m) {
        var l :| l in b.clauses[d] && l in b.units;
        assert True(m, l);
      }
    }
  }
}
