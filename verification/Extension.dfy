// The extension stack of the external solver (src/extend.cpp): clauses that
// were removed together with their witness, encoded flat as
//   0 witness... 0 clause... 0 witness... 0 clause...
// and replayed backwards to repair a model of the simplified formula.
module Extension {
  import opened Cnf

  datatype Entry = Entry(wit: seq<Lit>, clause: Clause)

  // ---------- Specification: replaying entries on a model ----------

  // The backward flipping loop makes the witness literals true, last one first.
  ghost function ForceAll(m: Model, w: seq<Lit>): Model {
    if w == [] then m else ForceAll(Force(m, w[|w| - 1]), w[..|w| - 1])
  }

  ghost function Apply(e: Entry, m: Model): Model {
    if Sat(m, e.clause) then m else ForceAll(m, e.wit)
  }

  ghost function Replay(es: seq<Entry>, m: Model): Model {
    if es == [] then m else Replay(es[..|es| - 1], Apply(es[|es| - 1], m))
  }

  // Removing clauses (and possibly adding others) while pushing entries is
  // sound when replaying the entries repairs every model of what is left.
  ghost predicate Reconstructs(before: Formula, pushed: seq<Entry>, after: Formula) {
    forall m: Model :: Models(m, after) ==> Models(Replay(pushed, m), before)
  }

  // For a consistent witness the order does not matter: exactly its literals become true.
  lemma {:induction false} ForceAllMeaning(m: Model, w: seq<Lit>)
    requires Consistent(Lits(w))
    ensures forall k: Lit :: True(ForceAll(m, w), k) == (k in w || (Neg(k) !in w && True(m, k)))
  {
    if w != [] {
      var l, v := w[|w| - 1], w[..|w| - 1];
      assert w == v + [l];
      assert l in Lits(w);
      assert forall k :: k in Lits(v) ==> k in Lits(w);
      ForceAllMeaning(Force(m, l), v);
    }
  }

  lemma ReplayStep(es: seq<Entry>, k: nat, m: Model)
    requires k < |es|
    ensures Replay(es[..k + 1], m) == Replay(es[..k], Apply(es[k], m))
  {
    assert es[..k + 1][..k] == es[..k];
  }

  lemma {:induction false} ReplayConcat(a: seq<Entry>, b: seq<Entry>, m: Model)
    ensures Replay(a + b, m) == Replay(a, Replay(b, m))
  {
    if b == [] {
      assert a + b == a;
    } else {
      assert (a + b)[..|a + b| - 1] == a + b[..|b| - 1];
      ReplayConcat(a, b[..|b| - 1], Apply(b[|b| - 1], m));
    }
  }

  // One removal: apart from the clause nothing is lost, and the witness repairs
  // every model of the rest that falsifies the clause.
  lemma RemovalReconstructs(before: Formula, after: Formula, c: Clause, w: seq<Lit>)
    requires forall m: Model :: Models(m, after) && Sat(m, c) ==> Models(m, before)
    requires forall m: Model :: Models(m, after) && !Sat(m, c) ==> Models(ForceAll(m, w), before)
    ensures Reconstructs(before, [Entry(w, c)], after)
  {
    var e := Entry(w, c);
    forall m: Model | Models(m, after) ensures Models(Replay([e], m), before) {
      assert [e][..0] == [];
      assert Replay([e], m) == Apply(e, m);
    }
  }

  // A variable of no witness keeps its value.
  ghost predicate Witnessing(es: seq<Entry>, v: nat) {
    exists i, l :: 0 <= i < |es| && l in es[i].wit && Var(l) == v
  }

  lemma {:induction false} ForceAllOther(m: Model, w: seq<Lit>, l: Lit)
    requires forall k :: k in w ==> Var(k) != Var(l)
    ensures True(ForceAll(m, w), l) == True(m, l)
  {
    if w != [] {
      var n := |w| - 1;
      assert w[n] in w && w[n] != l && w[n] != Neg(l);
      ForceAllOther(Force(m, w[n]), w[..n], l);
    }
  }

  lemma {:induction false} ReplayOther(es: seq<Entry>, m: Model, l: Lit)
    requires !Witnessing(es, Var(l))
    ensures True(Replay(es, m), l) == True(m, l)
  {
    if es != [] {
      var n := |es| - 1;
      assert forall k :: k in es[n].wit ==> Var(k) != Var(l);
      ForceAllOther(m, es[n].wit, l);
      ReplayOther(es[..n], Apply(es[n], m), l);
    }
  }

  lemma ReconstructsSelf(f: Formula)
    ensures Reconstructs(f, [], f)
  {
  }

  lemma ReconstructsCompose(a: Formula, es: seq<Entry>, b: Formula, fs: seq<Entry>, c: Formula)
    requires Reconstructs(a, es, b) && Reconstructs(b, fs, c)
    ensures Reconstructs(a, es + fs, c)
  {
    forall m: Model | Models(m, c) ensures Models(Replay(es + fs, m), a) {
      ReplayConcat(es, fs, m);
    }
  }

  // A run of simplification steps; each step lists what it pushed.
  datatype Step = Step(before: Formula, pushed: seq<Entry>, after: Formula)

  ghost predicate Run(steps: seq<Step>) {
    && (forall i :: 0 <= i < |steps| ==> Reconstructs(steps[i].before, steps[i].pushed, steps[i].after))
    && (forall i :: 0 < i < |steps| ==> steps[i].before == steps[i - 1].after)
  }

  ghost function Stack(steps: seq<Step>): seq<Entry> {
    if steps == [] then [] else Stack(steps[..|steps| - 1]) + steps[|steps| - 1].pushed
  }

  // One backward pass over the whole stack turns every model of the final
  // formula into a model of the original one.
  lemma {:induction false} WholeStackReconstructs(steps: seq<Step>)
    requires steps != [] && Run(steps)
    ensures Reconstructs(steps[0].before, Stack(steps), steps[|steps| - 1].after)
  {
    var n := |steps| - 1;
    var init, last := steps[..n], steps[n];
    forall m: Model | Models(m, last.after) ensures Models(Replay(Stack(steps), m), steps[0].before) {
      ReplayConcat(Stack(init), last.pushed, m);
      assert Reconstructs(last.before, last.pushed, last.after);
      if n > 0 {
        WholeStackReconstructs(init);
        assert last.before == init[n - 1].after;
        assert Models(Replay(last.pushed, m), init[n - 1].after);
      } else {
        assert Stack(init) == [];
      }
    }
  }

  // ---------- Specification: the flat encoding ----------

  function Flat(e: Entry): seq<int> {
    var zero: seq<int> := [0];
    zero + e.wit + zero + e.clause
  }

  function Encode(es: seq<Entry>): seq<int> {
    if es == [] then [] else Encode(es[..|es| - 1]) + Flat(es[|es| - 1])
  }

  // The zero-separated encoding is injective, so the stack decodes uniquely.
  lemma {:induction false} EncodeInjective(a: seq<Entry>, b: seq<Entry>)
    requires Encode(a) == Encode(b)
    ensures a == b
  {
    if a != [] && b != [] {
      var p, q, x, y := Encode(a[..|a| - 1]), Encode(b[..|b| - 1]), a[|a| - 1], b[|b| - 1];
      LastEntryUnique(p, x, q, y);
      EncodeInjective(a[..|a| - 1], b[..|b| - 1]);
      assert a == a[..|a| - 1] + [x] && b == b[..|b| - 1] + [y];
    }
  }

  lemma LastEntryUnique(p: seq<int>, x: Entry, q: seq<int>, y: Entry)
    requires p + Flat(x) == q + Flat(y)
    ensures p == q && x == y
  {
    var s := p + Flat(x);
    var px, qy := p + [0] + x.wit, q + [0] + y.wit;
    assert s == px + [0] + x.clause && s == qy + [0] + y.clause;
    LastZero(px, x.clause, qy, y.clause, s);
    LastZero(p, x.wit, q, y.wit, px);
  }

  lemma LastZero(p: seq<int>, u: seq<Lit>, q: seq<int>, v: seq<Lit>, s: seq<int>)
    requires s == p + [0] + u == q + [0] + v
    ensures p == q && u == v
  {
    LastZeroIndex(p, u, s, |q|);
    LastZeroIndex(q, v, s, |p|);
    assert p == s[..|p|] && u == s[|p| + 1..];
  }

  lemma LastZeroIndex(p: seq<int>, u: seq<Lit>, s: seq<int>, k: nat)
    requires s == p + [0] + u && k < |s| && s[k] == 0
    ensures k <= |p|
  {
    assert forall j :: |p| < j < |s| ==> s[j] == u[j - |p| - 1];
  }

  // ---------- Specification: traversal orders ----------

  function Reversed(es: seq<Entry>): seq<Entry> {
    seq(|es|, i requires 0 <= i < |es| => es[|es| - 1 - i])
  }

  // What an iterator that may stop the traversal gets to see: every entry, or
  // all of them up to and including the first one it refuses.
  ghost predicate Traversal(es: seq<Entry>, accept: Entry -> bool, visited: seq<Entry>, complete: bool) {
    && visited <= es
    && (complete ==> visited == es)
    && (!complete ==> visited != [] && !accept(visited[|visited| - 1]))
    && forall i :: 0 <= i < |visited| && (complete || i < |visited| - 1) ==> accept(visited[i])
  }

  // ---------- The stack and its operations ----------

  function Max(a: nat, b: nat): nat {
    if a >= b then a else b
  }

  class External {
    var maxVar: nat
    var e2i: seq<int>            // external variable to internal literal, 0 if unmapped
    var internalMax: nat         // internal variables in use
    var vals: seq<bool>          // values of external variables
    var extension: seq<int>      // the flat stack
    var marked: set<Lit>        // literals marked as witness
    ghost var entries: seq<Entry>
    ghost var off: seq<nat>      // where the entries start

    ghost predicate Valid() reads this {
      Layout(extension, entries, off) && Mapped()
    }

    // There is an entry for every external variable, and the stack has no others.
    ghost predicate Mapped() reads this {
      |e2i| == maxVar + 1 && InRange()
    }

    ghost predicate InRange() reads this {
      forall i :: 0 <= i < |extension| ==> extension[i] == 0 || Var(extension[i]) <= maxVar
    }

    ghost function Assignment(): Model reads this {
      iset v | 0 < v < |vals| && vals[v]
    }

    function Ival(elit: Lit): (r: int)
      reads this
      ensures r != 0
      ensures Var(elit) <= maxVar ==> (r > 0 <==> True(Assignment(), elit))
    {
      var idx := Var(elit);
      var res := if idx > maxVar then -1 else if idx >= |vals| then -1 else if vals[idx] then idx as int else Neg(idx);
      if elit < 0 then -res else res
    }

    // The flat stack is the encoding of the entries, and of no others.
    lemma StackDecodes()
      requires Valid()
      ensures extension == Encode(entries)
      ensures forall es: seq<Entry> :: Encode(es) == extension ==> es == entries
    {
      LayoutIsEncoding(extension, entries, off);
      forall es: seq<Entry> | Encode(es) == extension ensures es == entries {
        EncodeInjective(es, entries);
      }
    }

    // Map new external variables to fresh internal ones.
    method Init(newMax: nat)
      requires Mapped()
      modifies this`maxVar, this`e2i, this`internalMax
      ensures Mapped() && maxVar == Max(old(maxVar), newMax) && old(e2i) <= e2i
      ensures internalMax == old(internalMax) + maxVar - old(maxVar)
      ensures forall i :: old(maxVar) < i <= maxVar ==> e2i[i] == old(internalMax) + i - old(maxVar)
    {
      while maxVar < newMax
        invariant Mapped() && old(maxVar) <= maxVar <= Max(old(maxVar), newMax) && old(e2i) <= e2i
        invariant internalMax == old(internalMax) + maxVar - old(maxVar)
        invariant forall i :: old(maxVar) < i <= maxVar ==> e2i[i] == old(internalMax) + i - old(maxVar)
      {
        internalMax := internalMax + 1;
        e2i := e2i + [internalMax];
        maxVar := maxVar + 1;
      }
    }

    // Variables up to the largest one of the literals are mapped now, those mapped before as they were.
    twostate predicate GrownFor(lits: seq<Lit>) reads this {
      && Mapped() && old(maxVar) <= maxVar && old(e2i) <= e2i
      && (forall l :: l in lits ==> Var(l) <= maxVar)
      && (maxVar == old(maxVar) || exists l :: l in lits && Var(l) == maxVar)
    }

    method PushLiterals(lits: seq<Lit>)
      requires Mapped()
      modifies this`extension, this`maxVar, this`e2i, this`internalMax
      ensures extension == old(extension) + lits && GrownFor(lits)
    {
      for i := 0 to |lits|
        invariant extension == old(extension) + lits[..i] && GrownFor(lits[..i])
      {
        assert lits[..i + 1] == lits[..i] + [lits[i]];
        Init(Var(lits[i]));
        extension := extension + [lits[i]];
      }
    }

    method PushExternalClauseAndWitness(c: Clause, w: seq<Lit>)
      requires Valid()
      modifies this`extension, this`marked, this`entries, this`off, this`maxVar, this`e2i, this`internalMax
      ensures Valid() && entries == old(entries) + [Entry(w, c)]
      ensures marked == old(marked) + Lits(w) && GrownFor(w + c)
    {
      var zero: seq<int> := [0];
      extension := extension + zero;
      PushLiterals(w);
      marked := marked + Lits(w);
      extension := extension + zero;
      PushLiterals(c);
      assert extension == old(extension) + Flat(Entry(w, c));
      off := LayoutSnoc(old(extension), entries, off, Entry(w, c));
      entries := entries + [Entry(w, c)];
    }

    method PushClause(c: Clause, pivot: Lit)
      requires Valid() && pivot in c
      modifies this`extension, this`marked, this`entries, this`off, this`maxVar, this`e2i, this`internalMax
      ensures Valid() && entries == old(entries) + [Entry([pivot], c)]
      ensures marked == old(marked) + {pivot} && GrownFor([pivot] + c)
    {
      PushExternalClauseAndWitness(c, [pivot]);
      assert Lits([pivot]) == {pivot};
    }

    method PushBinaryClause(pivot: Lit, other: Lit)
      requires Valid()
      modifies this`extension, this`marked, this`entries, this`off, this`maxVar, this`e2i, this`internalMax
      ensures Valid() && entries == old(entries) + [Entry([pivot], [pivot, other])]
      ensures marked == old(marked) + {pivot} && GrownFor([pivot, pivot, other])
    {
      PushExternalClauseAndWitness([pivot, other], [pivot]);
      assert Lits([pivot]) == {pivot} && [pivot] + [pivot, other] == [pivot, pivot, other];
    }

    // The assignment copied from the internal solver before replaying.
    ghost function Imported(internal: int -> bool): Model
      requires |e2i| == maxVar + 1
      reads this
    {
      iset v | v > 0 && (if v <= maxVar && e2i[v] != 0 then internal(e2i[v]) else v < |vals| && vals[v])
    }

    // The internal solver gives the mapped literal this value.
    ghost predicate InternalTrue(internal: int -> bool, l: Lit) reads this {
      Var(l) < |e2i| && e2i[Var(l)] != 0 && internal(e2i[Var(l)]) == (l > 0)
    }

    // The internal assignment satisfies the formula, read through the mapping.
    ghost predicate InternalModel(internal: int -> bool, f: Formula) reads this {
      forall c :: c in f ==> exists l :: l in c && InternalTrue(internal, l)
    }

    // Then the imported assignment is a model.
    lemma ImportedModels(internal: int -> bool, f: Formula)
      requires Mapped() && InternalModel(internal, f)
      ensures Models(Imported(internal), f)
    {
      forall c | c in f ensures Sat(Imported(internal), c) {
        var l :| l in c && InternalTrue(internal, l);
        assert True(Imported(internal), l);
      }
    }

    method ImportValues(internal: int -> bool)
      requires Valid()
      modifies this`vals
      ensures Assignment() == old(Imported(internal))
    {
      ghost var start := vals;
      for i := 1 to maxVar + 1
        invariant forall v :: i <= v < |vals| ==> vals[v] == (v < |start| && start[v])
        invariant |vals| >= |start|
        invariant forall v :: 0 < v < i ==>
          (v < |vals| && vals[v]) == (if e2i[v] != 0 then internal(e2i[v]) else v < |start| && start[v])
      {
        var ilit := e2i[i];
        if ilit != 0 {
          if i >= |vals| {
            vals := vals + seq(i + 1 - |vals|, _ => false);
          }
          vals := vals[i := internal(ilit)];
        }
      }
    }

    method Flip(lit: Lit)
      requires Var(lit) <= maxVar && Ival(lit) < 0
      modifies this`vals
      ensures Assignment() == Force(old(Assignment()), lit)
    {
      var idx := Var(lit);
      if idx >= |vals| {
        vals := vals + seq(idx + 1 - |vals|, _ => false);
      }
      vals := vals[idx := !vals[idx]];
      assert forall v :: v in Assignment() <==> v in Force(old(Assignment()), lit);
    }

    // Scan the clause part of an entry from its end down to the separating zero.
    method ScanClause(end: nat, ghost lo: nat, ghost c: Clause) returns (satisfied: bool, i: nat)
      requires InRange() && Block(extension, lo, c) && end == lo + |c|
      ensures i == lo - 1 && satisfied == Sat(Assignment(), c)
    {
      satisfied, i := false, end - 1;
      while extension[i] != 0
        decreases i
        invariant lo - 1 <= i < lo + |c|
        invariant satisfied <==> exists j :: i + 1 - lo <= j < |c| && True(Assignment(), c[j])
      {
        var lit: Lit := extension[i];
        assert lit == c[i - lo];
        if !satisfied && Ival(lit) > 0 {
          satisfied := true;
        }
        i := i - 1;
      }
      assert forall l :: l in c ==> exists j :: 0 <= j < |c| && c[j] == l;
    }

    method SkipWitness(end: nat, ghost lo: nat, ghost w: seq<Lit>) returns (i: nat)
      requires Block(extension, lo, w) && end == lo + |w|
      ensures i == lo - 1
    {
      i := end - 1;
      while extension[i] != 0
        decreases i
        invariant lo - 1 <= i < lo + |w|
      {
        assert extension[i] == w[i - lo];
        i := i - 1;
      }
    }

    method FlipWitness(end: nat, ghost lo: nat, ghost w: seq<Lit>) returns (i: nat)
      requires InRange() && Block(extension, lo, w) && end == lo + |w|
      modifies this`vals
      ensures i == lo - 1 && Assignment() == ForceAll(old(Assignment()), w)
    {
      i := end - 1;
      assert w[..|w|] == w;
      while extension[i] != 0
        decreases i
        invariant lo - 1 <= i < lo + |w|
        invariant ForceAll(Assignment(), w[..i + 1 - lo]) == ForceAll(old(Assignment()), w)
      {
        var lit: Lit := extension[i];
        assert lit == w[i - lo];
        ghost var u := w[..i + 1 - lo];
        assert u[|u| - 1] == lit && u[..|u| - 1] == w[..i - lo];
        if Ival(lit) < 0 {
          Flip(lit);
        } else {
          assert Force(Assignment(), lit) == Assignment();
        }
        i := i - 1;
      }
    }

    method ReplayEntry(end: nat, ghost lo: nat, ghost e: Entry) returns (i: nat)
      requires InRange() && EntryAt(extension, lo, e, end)
      modifies this`vals
      ensures i == lo && Assignment() == Apply(e, old(Assignment()))
    {
      var satisfied;
      satisfied, i := ScanClause(end, end - |e.clause|, e.clause);
      if satisfied {
        i := SkipWitness(i, i - |e.wit|, e.wit);
      } else {
        i := FlipWitness(i, i - |e.wit|, e.wit);
      }
    }

    // Backward replay of the whole stack on the imported assignment.
    method Extend(internal: int -> bool)
      requires Valid()
      modifies this`vals
      ensures Valid() && Assignment() == Replay(entries, old(Imported(internal)))
      ensures forall v: Lit :: 0 < v <= maxVar && !Witnessing(entries, Var(v)) ==>
        (Ival(v) > 0 <==> if e2i[v] != 0 then internal(e2i[v]) else old(Ival(v)) > 0)
      ensures forall f :: old(InternalModel(internal, f)) ==> Models(old(Imported(internal)), f)
      ensures forall before, after :: Reconstructs(before, entries, after) && old(InternalModel(internal, after)) ==>
        Models(Assignment(), before)
      ensures forall before, after ::
        Reconstructs(before, entries, after) && Models(old(Imported(internal)), after) ==>
        Models(Assignment(), before)
    {
      forall f | InternalModel(internal, f) ensures Models(Imported(internal), f) { ImportedModels(internal, f); }
      forall v: Lit | 0 < v <= maxVar && !Witnessing(entries, Var(v))
        ensures True(Replay(entries, Imported(internal)), v) == True(Imported(internal), v)
      {
        ReplayOther(entries, Imported(internal), v);
      }
      ImportValues(internal);
      ghost var m0, k := Assignment(), |entries|;
      var i := |extension|;
      assert entries[..k] == entries;
      while i != 0
        invariant 0 <= k <= |entries| && i == off[k]
        invariant Replay(entries[..k], Assignment()) == Replay(entries, m0)
        decreases i
      {
        k := k - 1;
        ReplayStep(entries, k, Assignment());
        i := ReplayEntry(i, off[k], entries[k]);
      }
    }

    method TraverseWitnessesBackward(unsat: bool, accept: Entry -> bool) returns (complete: bool, visited: seq<Entry>)
      requires Valid()
      ensures unsat ==> complete && visited == []
      ensures !unsat ==> Traversal(Reversed(entries), accept, visited, complete)
    {
      visited := [];
      if unsat { return true, []; }
      var i := |extension|;
      ghost var k, all := |entries|, Reversed(entries);
      while i != 0
        invariant 0 <= k <= |entries| && i == off[k]
        invariant visited == all[..|entries| - k]
        invariant forall j :: 0 <= j < |visited| ==> accept(visited[j])
        decreases i
      {
        k := k - 1;
        ghost var e := entries[k];
        assert EntryAt(extension, off[k], e, off[k + 1]);
        var clause, wit;
        clause, i := ReadBackward(extension, i, i - |e.clause|, e.clause);
        wit, i := ReadBackward(extension, i, i - |e.wit|, e.wit);
        assert Entry(wit, clause) == all[|visited|];
        if !accept(Entry(wit, clause)) {
          return false, visited + [Entry(wit, clause)];
        }
        visited := visited + [Entry(wit, clause)];
      }
      complete := true;
    }

    method TraverseWitnessesForward(unsat: bool, accept: Entry -> bool) returns (complete: bool, visited: seq<Entry>)
      requires Valid()
      ensures unsat ==> complete && visited == []
      ensures !unsat ==> Traversal(entries, accept, visited, complete)
    {
      visited := [];
      if unsat { return true, []; }
      if |extension| == 0 {
        return true, [];
      }
      var i := 1;
      ghost var k := 0;
      while true
        invariant 0 <= k < |entries| && i == off[k] + 1
        invariant visited == entries[..k] && forall j :: 0 <= j < |visited| ==> accept(visited[j])
        decreases |entries| - k
      {
        var e;
        e, i := ReadEntryForward(extension, i, entries, off, k);
        visited := visited + [e];
        if !accept(e) { return false, visited; }
        k := k + 1;
        if i == |extension| { break; }
      }
      complete := true;
    }
  }

  // ---------- Where entries sit in the flat stack ----------

  // The literals lits start at position lo, right after a zero.
  ghost predicate Block(s: seq<int>, lo: nat, lits: seq<Lit>) {
    0 < lo && lo + |lits| <= |s| && s[lo - 1] == 0 &&
    forall i :: lo <= i < lo + |lits| ==> s[i] == lits[i - lo]
  }

  ghost predicate EntryAt(s: seq<int>, lo: nat, e: Entry, hi: nat) {
    && Block(s, lo + 1, e.wit) && Block(s, lo + 2 + |e.wit|, e.clause)
    && hi == lo + 2 + |e.wit| + |e.clause|
  }

  // The start positions of the entries, closed by the length of the stack.
  ghost predicate Layout(s: seq<int>, es: seq<Entry>, off: seq<nat>) {
    && |off| == |es| + 1 && off[0] == 0 && off[|es|] == |s|
    && (forall k {:trigger es[k]} :: 0 <= k < |es| ==> EntryAt(s, off[k], es[k], off[k + 1]))
    && (forall k :: 0 < k <= |es| ==> off[k] > 0)
  }

  lemma EntryAtEnd(p: seq<int>, e: Entry)
    ensures EntryAt(p + Flat(e), |p|, e, |p + Flat(e)|)
  {
    var s := p + Flat(e);
    assert forall i :: 0 <= i < |Flat(e)| ==> s[|p| + i] == Flat(e)[i];
    assert s[|p|] == Flat(e)[0] == 0 && s[|p| + 1 + |e.wit|] == Flat(e)[1 + |e.wit|] == 0;
    assert forall i :: 0 <= i < |e.wit| ==> Flat(e)[1 + i] == e.wit[i];
    assert forall i :: 0 <= i < |e.clause| ==> Flat(e)[2 + |e.wit| + i] == e.clause[i];
  }

  lemma EntryAtPrefix(s: seq<int>, t: seq<int>, lo: nat, e: Entry, hi: nat)
    requires EntryAt(s, lo, e, hi)
    ensures EntryAt(s + t, lo, e, hi)
  {
    assert forall i :: 0 <= i < |s| ==> (s + t)[i] == s[i];
  }

  lemma LayoutSnoc(s: seq<int>, es: seq<Entry>, off: seq<nat>, e: Entry) returns (off': seq<nat>)
    requires Layout(s, es, off)
    ensures Layout(s + Flat(e), es + [e], off')
  {
    off' := off + [|s + Flat(e)|];
    EntryAtEnd(s, e);
    forall k | 0 <= k < |es| ensures EntryAt(s + Flat(e), off[k], es[k], off[k + 1]) {
      EntryAtPrefix(s, Flat(e), off[k], es[k], off[k + 1]);
    }
  }

  // A stack laid out with some entries is their encoding, so it decodes to them only.
  lemma {:induction false} LayoutIsEncoding(s: seq<int>, es: seq<Entry>, off: seq<nat>)
    requires Layout(s, es, off)
    ensures s == Encode(es)
  {
    if es != [] {
      var n := |es| - 1;
      assert EntryAt(s, off[n], es[n], off[n + 1]);
      var p := s[..off[n]];
      assert s == p + Flat(es[n]);
      forall k | 0 <= k < n ensures EntryAt(p, off[k], es[..n][k], off[k + 1]) {
        assert EntryAt(s, off[k], es[k], off[k + 1]);
        LayoutMonotone(s, es, off, k + 1, n);
      }
      LayoutIsEncoding(p, es[..n], off[..n + 1]);
    }
  }

  lemma {:induction false} LayoutMonotone(s: seq<int>, es: seq<Entry>, off: seq<nat>, j: nat, k: nat)
    requires Layout(s, es, off) && j <= k <= |es|
    ensures off[j] <= off[k]
  {
    if j < k {
      assert EntryAt(s, off[k - 1], es[k - 1], off[k]);
      LayoutMonotone(s, es, off, j, k - 1);
    }
  }

  method ReadBackward(s: seq<int>, end: nat, ghost lo: nat, ghost lits: seq<Lit>) returns (r: seq<Lit>, i: nat)
    requires Block(s, lo, lits) && end == lo + |lits|
    ensures r == lits && i == lo - 1
  {
    r, i := [], end - 1;
    while s[i] != 0
      decreases i
      invariant lo - 1 <= i < lo + |lits| && r == lits[i + 1 - lo..]
    {
      assert lits[i - lo..] == [lits[i - lo]] + lits[i + 1 - lo..];
      r := [s[i]] + r;
      i := i - 1;
    }
  }

  method ReadForward(s: seq<int>, lo: nat, ghost lits: seq<Lit>) returns (r: seq<Lit>)
    requires Block(s, lo, lits) && lo + |lits| < |s| && s[lo + |lits|] == 0
    ensures r == lits
  {
    r := [];
    var i := lo;
    while s[i] != 0
      decreases |s| - i
      invariant lo <= i <= lo + |lits| && r == lits[..i - lo]
    {
      r := r + [s[i]];
      i := i + 1;
    }
  }

  // The clause of the last entry ends with the stack, any other one with the zero of the next entry.
  method ReadClauseForward(s: seq<int>, lo: nat, ghost lits: seq<Lit>) returns (r: seq<Lit>, i: nat)
    requires Block(s, lo, lits) && (lo + |lits| < |s| ==> s[lo + |lits|] == 0)
    ensures r == lits && i == (if lo + |lits| < |s| then lo + |lits| + 1 else |s|)
  {
    r, i := [], lo;
    while i != |s|
      invariant lo <= i <= lo + |lits| && r == lits[..i - lo]
    {
      var lit := s[i];
      i := i + 1;
      if lit == 0 { break; }
      r := r + [lit];
    }
  }

  // Read the k-th entry, which starts before position i.
  method ReadEntryForward(s: seq<int>, i: nat, ghost es: seq<Entry>, ghost off: seq<nat>, ghost k: nat)
    returns (e: Entry, i': nat)
    requires Layout(s, es, off) && k < |es| && i == off[k] + 1
    ensures e == es[k] && i' == if k + 1 < |es| then off[k + 1] + 1 else |s|
    ensures i' == |s| <==> k + 1 == |es|
  {
    assert EntryAt(s, off[k], es[k], off[k + 1]);
    assert k + 1 < |es| ==> EntryAt(s, off[k + 1], es[k + 1], off[k + 2]);
    var wit := ReadForward(s, i, es[k].wit);
    var clause;
    clause, i' := ReadClauseForward(s, i + |wit| + 1, es[k].clause);
    e := Entry(wit, clause);
  }
}
