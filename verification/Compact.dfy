// Compacting variable indices (src/compact.cpp).
module Compact {
  import opened Cnf

  // Old index to new index (0 if not mapped), the number of new indices, the
  // first fixed variable, and its value.
  datatype Mapper = Mapper(table: seq<nat>, size: nat, firstFixed: nat, firstValue: int)

  // Root-level values of the variables 1..n; active variables have none.
  ghost predicate Inputs(active: seq<bool>, value: seq<int>) {
    && |active| == |value| > 0 && (forall v :: 0 <= v < |value| ==> -1 <= value[v] <= 1)
    && (forall v :: 1 <= v < |active| && active[v] ==> value[v] == 0)
  }

  // The mapping restricted to the first n indices.
  ghost predicate MapperOk(m: Mapper, active: seq<bool>, value: seq<int>, n: nat) {
    && n <= |active| == |value| == |m.table| && (n > 0 ==> m.table[0] == 0 && m.size < n) && m.firstFixed < |value|
    && (forall v :: 1 <= v < n ==> (m.table[v] > 0 <==> active[v] || v == m.firstFixed))
    && (forall v :: 0 <= v < n ==> m.table[v] <= v && m.table[v] <= m.size)
    && (forall v, w :: 1 <= v < w < n && m.table[v] > 0 && m.table[w] > 0 ==> m.table[v] < m.table[w])
    && (forall v :: 1 <= v < n && value[v] != 0 ==> 0 < m.firstFixed <= v)
    && (m.firstFixed > 0 ==> m.firstFixed < n && value[m.firstFixed] != 0)
  }

  // Active variables and the first fixed one get the next index.
  method BuildMapper(active: seq<bool>, value: seq<int>) returns (m: Mapper, ghost inv: seq<nat>)
    requires Inputs(active, value)
    ensures MapperOk(m, active, value, |active|)
    ensures m.firstValue == (if m.firstFixed > 0 then value[m.firstFixed] else 0)
    ensures Onto(m, inv, |active|)
  {
    m := Mapper(seq(|active|, i => 0), 0, 0, 0);
    inv := [0];
    for v := 1 to |active|
      invariant MapperOk(m, active, value, v) && Onto(m, inv, v)
    {
      if active[v] || (value[v] != 0 && m.firstFixed == 0) {
        m, inv := NextIndex(m, active, value, v, inv);
      } else {
        m := SkipIndex(m, active, value, v, inv);
      }
    }
    m := m.(firstValue := if m.firstFixed > 0 then value[m.firstFixed] else 0);
  }

  ghost predicate Onto(m: Mapper, inv: seq<nat>, v: nat) {
    |inv| == m.size + 1 && forall d :: 1 <= d <= m.size ==> inv[d] < v && inv[d] < |m.table| && m.table[inv[d]] == d
  }

  // Give the next index to v, which becomes the first fixed variable unless it is active.
  method NextIndex(m: Mapper, active: seq<bool>, value: seq<int>, v: nat, ghost inv: seq<nat>)
    returns (r: Mapper, ghost inv': seq<nat>)
    requires Inputs(active, value) && 1 <= v < |active| && MapperOk(m, active, value, v)
    requires Onto(m, inv, v)
    requires active[v] || (value[v] != 0 && m.firstFixed == 0)
    ensures MapperOk(r, active, value, v + 1) && Onto(r, inv', v + 1)
  {
    r, inv' := m.(table := m.table[v := m.size + 1], size := m.size + 1), inv + [v];
    if !active[v] {
      r := r.(firstFixed := v);
    }
  }

  // Variable v gets no index.
  method SkipIndex(m: Mapper, active: seq<bool>, value: seq<int>, v: nat, ghost inv: seq<nat>) returns (r: Mapper)
    requires Inputs(active, value) && 1 <= v < |active| && MapperOk(m, active, value, v) && Onto(m, inv, v)
    requires !(active[v] || (value[v] != 0 && m.firstFixed == 0))
    ensures MapperOk(r, active, value, v + 1) && Onto(r, inv, v + 1)
  {
    r := m.(table := m.table[v := 0]);
  }

  function Val(value: seq<int>, l: int): int {
    if 0 < l < |value| then value[l] else if 0 < -l < |value| then -value[-l] else 0
  }

  // Unmapped fixed literals become the first fixed one in the right phase.
  function MapLit(m: Mapper, value: seq<int>, src: Lit): int
    requires Var(src) < |m.table| && m.firstFixed < |m.table|
  {
    var res := m.table[Var(src)];
    if res == 0 then
      var tmp := Val(value, src);
      if tmp == 0 then 0
      else if tmp != m.firstValue then -(m.table[m.firstFixed] as int)
      else m.table[m.firstFixed]
    else if src < 0 then -(res as int) else res
  }

  ghost predicate Mapping(m: Mapper, active: seq<bool>, value: seq<int>) {
    Inputs(active, value) && MapperOk(m, active, value, |active|) && m.firstValue == if m.firstFixed > 0
      then value[m.firstFixed] else 0
  }

  lemma MapLitNegation(m: Mapper, active: seq<bool>, value: seq<int>, src: Lit)
    requires Mapping(m, active, value) && Var(src) < |active|
    ensures MapLit(m, value, Neg(src)) == -MapLit(m, value, src)
  {
  }

  // Values of the new variables.
  ghost predicate NewValues(m: Mapper, value: seq<int>, newValue: seq<int>) {
    && |newValue| == m.size + 1 && |value| == |m.table| && newValue[0] == 0
    && forall v :: 1 <= v < |m.table| && 0 < m.table[v] <= m.size ==> newValue[m.table[v]] == value[v]
  }

  // The mapped literal has the same root-level value; only literals without value and not active are dropped.
  lemma MapLitValue(m: Mapper, active: seq<bool>, value: seq<int>, newValue: seq<int>, src: Lit)
    requires Mapping(m, active, value) && NewValues(m, value, newValue) && Var(src) < |active|
    ensures Val(newValue, MapLit(m, value, src)) == Val(value, src)
    ensures MapLit(m, value, src) == 0 <==> !active[Var(src)] && value[Var(src)] == 0
    ensures -(m.size as int) <= MapLit(m, value, src) <= m.size
  {
    if m.firstFixed > 0 {
      assert m.table[m.firstFixed] > 0 && newValue[m.table[m.firstFixed]] == value[m.firstFixed];
    }
    if m.table[Var(src)] > 0 {
      assert newValue[m.table[Var(src)]] == value[Var(src)];
    }
  }

  lemma MapLitInjective(m: Mapper, active: seq<bool>, value: seq<int>, a: Lit, b: Lit)
    requires Mapping(m, active, value) && Var(a) < |active| && Var(b) < |active|
    requires active[Var(a)] && active[Var(b)] && a != b
    ensures MapLit(m, value, a) != MapLit(m, value, b)
  {
    if Var(a) < Var(b) {
      assert m.table[Var(a)] < m.table[Var(b)];
    } else if Var(b) < Var(a) {
      assert m.table[Var(b)] < m.table[Var(a)];
    }
  }

  // An old variable has the value of its new index, and a fixed one its root-level value.
  ghost predicate OldValue(m: Mapper, value: seq<int>, model: Model, v: int) {
    0 < v < |m.table| && v < |value| && if m.table[v] > 0 then m.table[v] as int in model else value[v] > 0
  }

  ghost function OldModel(m: Mapper, value: seq<int>, model: Model): Model {
    iset v: int | OldValue(m, value, model, v)
  }

  // The new model respects the root-level value of the first fixed variable.
  ghost predicate RespectsFixed(m: Mapper, model: Model) {
    m.firstFixed < |m.table| && (m.firstFixed > 0 ==> (m.table[m.firstFixed] as int in model <==> m.firstValue > 0))
  }

  // A mapped literal means in a model of the new variables what the literal means in the old ones.
  lemma MapLitMeaning(m: Mapper, active: seq<bool>, value: seq<int>, model: Model, src: Lit)
    requires Mapping(m, active, value) && Var(src) < |active| && RespectsFixed(m, model)
    requires active[Var(src)] || value[Var(src)] != 0
    ensures MapLit(m, value, src) != 0
    ensures True(model, MapLit(m, value, src)) <==> True(OldModel(m, value, model), src)
  {
    var v: int := Var(src);
    assert v in OldModel(m, value, model) <==> OldValue(m, value, model, v);
    assert m.table[v] == 0 ==> 0 < m.firstFixed <= v && m.table[m.firstFixed] > 0;
  }

  // So renaming a clause of such literals keeps its meaning.
  lemma MapClauseMeaning(m: Mapper, active: seq<bool>, value: seq<int>, model: Model, c: Clause, d: Clause)
    requires Mapping(m, active, value) && RespectsFixed(m, model) && |d| == |c|
    requires forall i :: 0 <= i < |c| ==> Var(c[i]) < |active| && (active[Var(c[i])] || value[Var(c[i])] != 0)
    requires forall i :: 0 <= i < |c| ==> d[i] == MapLit(m, value, c[i])
    ensures Sat(model, d) <==> Sat(OldModel(m, value, model), c)
  {
    forall i | 0 <= i < |c| ensures True(model, d[i]) <==> True(OldModel(m, value, model), c[i]) {
      MapLitMeaning(m, active, value, model, c[i]);
    }
    if Sat(model, d) {
      var l :| l in d && True(model, l);
      var i :| 0 <= i < |d| && d[i] == l;
      assert c[i] in c;
    }
    if Sat(OldModel(m, value, model), c) {
      var l :| l in c && True(OldModel(m, value, model), l);
      var i :| 0 <= i < |c| && c[i] == l;
      assert d[i] in d;
    }
  }

  // Literals without value stay without value, in the same phase: clauses are renamed.
  method MapValues(m: Mapper, active: seq<bool>, value: seq<int>) returns (newValue: seq<int>)
    requires Mapping(m, active, value)
    ensures NewValues(m, value, newValue)
  {
    newValue := seq(m.size + 1, i => 0);
    for v := 1 to |value|
      invariant |newValue| == m.size + 1
      invariant forall w :: 1 <= w < v && m.table[w] > 0 ==> newValue[m.table[w]] == value[w]
    {
      newValue := newValue[m.table[v] := value[v]];
    }
    newValue := newValue[0 := 0];
  }

  // The external indices keep their values.
  method MapExternal(m: Mapper, active: seq<bool>, value: seq<int>, e2i: seq<int>, ghost newValue: seq<int>)
    returns (r: seq<int>)
    requires Mapping(m, active, value) && NewValues(m, value, newValue)
    requires forall e :: 0 <= e < |e2i| ==> -(|active| as int) < e2i[e] < |active|
    ensures |r| == |e2i| && forall e :: 0 <= e < |e2i| ==> Val(newValue, r[e]) == Val(value, e2i[e])
    ensures forall e :: 0 <= e < |e2i| && e2i[e] != 0 ==> r[e] == MapLit(m, value, e2i[e])
  {
    r := e2i;
    for e := 0 to |e2i|
      invariant |r| == |e2i| && forall k :: e <= k < |e2i| ==> r[k] == e2i[k]
      invariant forall k :: 0 <= k < e ==>
        Val(newValue, r[k]) == Val(value, e2i[k]) && (e2i[k] != 0 ==> r[k] == MapLit(m, value, e2i[k]))
    {
      if e2i[e] != 0 {
        var src: Lit := e2i[e];
        MapLitValue(m, active, value, newValue, src);
        r := r[e := MapLit(m, value, src)];
      }
    }
  }

  // ---------- Moving table entries in place ----------

  // Entries move down in increasing order, so no entry is overwritten before it has been moved.
  method MapVector<T>(m: Mapper, active: seq<bool>, value: seq<int>, v0: seq<T>) returns (v: seq<T>)
    requires Mapping(m, active, value) && |v0| == |active|
    ensures |v| == m.size + 1
    ensures forall src :: 1 <= src < |active| && m.table[src] > 0 ==> v[m.table[src]] == v0[src]
  {
    v := v0;
    for src := 1 to |active|
      invariant |v| == |v0| && forall w :: src <= w < |v0| ==> v[w] == v0[w]
      invariant forall w :: 1 <= w < src && m.table[w] > 0 ==> v[m.table[w]] == v0[w]
    {
      var dst := m.table[src];
      if dst != 0 {
        v := v[dst := v[src]];
      }
    }
    v := v[..m.size + 1];
  }

  // ---------- Flushing lists of literals ----------

  function Mapped(m: Mapper, ls: seq<Lit>): seq<int>
    requires forall i :: 0 <= i < |ls| ==> Var(ls[i]) < |m.table|
  {
    if ls == [] then []
    else
      var n := |ls| - 1;
      var dst: int := m.table[Var(ls[n])];
      Mapped(m, ls[..n]) + if dst == 0 then [] else if ls[n] < 0 then [-dst] else [dst]
  }

  // Literal y is the image of x under the table, with the same sign.
  predicate Image(m: Mapper, x: Lit, y: int) {
    Var(x) < |m.table| && m.table[Var(x)] > 0 && (y > 0 <==> x > 0) && (y == m.table[Var(x)] || -y == m.table[Var(x)])
  }

  // The images are those of the literals at the given positions, which are
  // increasing and exactly those whose variable has a new index.
  ghost predicate Flushed(m: Mapper, ls: seq<Lit>, r: seq<int>, ps: seq<nat>) {
    && |r| == |ps|
    && (forall n :: 0 <= n < |ps| ==> ps[n] < |ls| && Image(m, ls[ps[n]], r[n]))
    && (forall n, k :: 0 <= n < k < |ps| ==> ps[n] < ps[k])
    && (forall i: nat :: i < |ls| && Var(ls[i]) < |m.table| ==> (i in ps <==> m.table[Var(ls[i])] > 0))
  }

  lemma {:induction false} MappedFlushed(m: Mapper, ls: seq<Lit>) returns (ps: seq<nat>)
    requires forall i :: 0 <= i < |ls| ==> Var(ls[i]) < |m.table|
    ensures Flushed(m, ls, Mapped(m, ls), ps)
  {
    if ls == [] {
      ps := [];
    } else {
      var n := |ls| - 1;
      ps := MappedFlushed(m, ls[..n]);
      if m.table[Var(ls[n])] != 0 {
        ps := ps + [n];
        assert ps[|ps| - 1] == n;
      }
    }
  }

  // Images of the mapped literals, in order.
  method FlushLits(m: Mapper, ls: seq<Lit>) returns (r: seq<int>, ghost ps: seq<nat>)
    requires forall i :: 0 <= i < |ls| ==> Var(ls[i]) < |m.table|
    ensures r == Mapped(m, ls) && Flushed(m, ls, r, ps)
  {
    ps := MappedFlushed(m, ls);
    r := ls;
    var j := 0;
    ghost var done: seq<int> := [];
    for i := 0 to |ls|
      invariant 0 <= j <= i && |r| == |ls| && j == |done| && done == Mapped(m, ls[..i])
      invariant forall k :: 0 <= k < j ==> r[k] == done[k]
      invariant forall k :: i <= k < |ls| ==> r[k] == ls[k]
    {
      assert ls[..i + 1][..i] == ls[..i];
      var dst: int := m.table[Var(ls[i])];
      if dst != 0 {
        if ls[i] < 0 { dst := -dst; }
        r, done := r[j := dst], done + [dst];
        j := j + 1;
      }
    }
    assert ls[..|ls|] == ls;
    r := r[..j];
    assert r == done;
  }

  // ---------- Adding up counters ----------

  // The new index of a variable, fixed ones included.
  function Target(m: Mapper, value: seq<int>, v: nat): nat
    requires 0 < v < |m.table| && m.firstFixed < |m.table|
  {
    var d := MapLit(m, value, v);
    if d < 0 then -d else d
  }

  // The counts of the variables below k with new index d.
  function Collected(m: Mapper, value: seq<int>, counts: seq<nat>, d: nat, k: nat): nat
    requires k <= |m.table| && |counts| == |m.table| && m.firstFixed < |m.table|
  {
    if k <= 1 then 0
    else Collected(m, value, counts, d, k - 1) + if Target(m, value, k - 1) == d then counts[k - 1] else 0
  }

  // A new index never lies above the old one.
  lemma TargetBelow(m: Mapper, active: seq<bool>, value: seq<int>, v: nat)
    requires Mapping(m, active, value) && 0 < v < |active|
    ensures Target(m, value, v) <= v && Target(m, value, v) <= m.size
    ensures Target(m, value, v) == 0 <==> !active[v] && value[v] == 0
  {
  }

  lemma {:induction false} CollectedAbove(m: Mapper, active: seq<bool>, value: seq<int>, counts: seq<nat>, d: nat,
        k: nat)
    requires Mapping(m, active, value) && k <= |active| && |counts| == |active| && d >= k
    ensures Collected(m, value, counts, d, k) == 0
  {
    if k > 1 {
      TargetBelow(m, active, value, k - 1);
      CollectedAbove(m, active, value, counts, d, k - 1);
    }
  }

  // What is still at index d itself when the variables below k have been moved.
  function Own(m: Mapper, value: seq<int>, counts: seq<nat>, d: nat, k: nat): nat
    requires 0 < d < |m.table| && |counts| == |m.table| && m.firstFixed < |m.table|
  {
    if d >= k || Target(m, value, d) == 0 then counts[d] else 0
  }

  ghost predicate Moved(m: Mapper, value: seq<int>, counts: seq<nat>, now: seq<nat>, k: nat)
    requires k <= |m.table| && |counts| == |m.table| && m.firstFixed < |m.table|
  {
    && |now| == |counts|
    && forall d {:trigger MovedAt(m, value, counts, now, d, k)} :: 1 <= d < |counts| ==>
         MovedAt(m, value, counts, now, d, k)
  }

  ghost predicate MovedAt(m: Mapper, value: seq<int>, counts: seq<nat>, now: seq<nat>, d: nat, k: nat)
    requires k <= |m.table| && |counts| == |m.table| == |now| && m.firstFixed < |m.table|
    requires 0 < d < |counts|
  {
    now[d] == Collected(m, value, counts, d, k) + Own(m, value, counts, d, k)
  }

  // Counters of variables with the same new index are added up in place.
  method MapCounts(m: Mapper, active: seq<bool>, value: seq<int>, counts: seq<nat>) returns (now: seq<nat>)
    requires Mapping(m, active, value) && |counts| == |active|
    ensures |now| == m.size + 1
    ensures forall d :: 1 <= d <= m.size ==>
      now[d] == Collected(m, value, counts, d, |active|) + if Target(m, value, d) == 0 then counts[d] else 0
  {
    now := counts;
    for src := 1 to |active|
      invariant Moved(m, value, counts, now, src)
    {
      TargetBelow(m, active, value, src);
      var dst := Target(m, value, src);
      MoveCount(m, active, value, counts, now, src);
      if dst != 0 && src != dst {
        now := now[dst := now[dst] + now[src]];
        now := now[src := 0];
      }
    }
    ghost var all := now;
    now := now[..m.size + 1];
    forall d | 1 <= d <= m.size
      ensures now[d] == Collected(m, value, counts, d, |active|) + if Target(m, value, d) == 0 then counts[d] else 0
    {
      assert MovedAt(m, value, counts, all, d, |active|);
    }
  }

  function AddCount(now: seq<nat>, src: nat, dst: nat): seq<nat>
    requires src < |now| && dst < |now|
  {
    if dst == 0 || dst == src then now else now[dst := now[dst] + now[src]][src := 0]
  }

  lemma MoveCount(m: Mapper, active: seq<bool>, value: seq<int>, counts: seq<nat>, now: seq<nat>, src: nat)
    requires Mapping(m, active, value) && |counts| == |active| && 1 <= src < |active|
    requires Moved(m, value, counts, now, src)
    ensures Target(m, value, src) <= src
    ensures Moved(m, value, counts, AddCount(now, src, Target(m, value, src)), src + 1)
  {
    var dst := Target(m, value, src);
    TargetBelow(m, active, value, src);
    CollectedAbove(m, active, value, counts, src, src);
    assert MovedAt(m, value, counts, now, src, src) && now[src] == counts[src];
    var next, k := AddCount(now, src, dst), src + 1;
    forall d | 1 <= d < |counts| ensures MovedAt(m, value, counts, next, d, k) {
      assert MovedAt(m, value, counts, now, d, src);
    }
  }

  // Each new variable has exactly the counts of the variables mapped to it, if
  // and only if no variable that is dropped and whose index is reused has a count.
  lemma CountsConserved(m: Mapper, active: seq<bool>, value: seq<int>, counts: seq<nat>, now: seq<nat>)
    requires Mapping(m, active, value) && |counts| == |active| && |now| == m.size + 1
    requires forall d :: 1 <= d <= m.size ==>
      now[d] == Collected(m, value, counts, d, |active|) + if Target(m, value, d) == 0 then counts[d] else 0
    ensures (forall d :: 1 <= d <= m.size ==> now[d] == Collected(m, value, counts, d, |active|)) <==>
      (forall d :: 1 <= d <= m.size && !active[d] && value[d] == 0 ==> counts[d] == 0)
  {
    forall d | 1 <= d <= m.size ensures Target(m, value, d) == 0 <==> !active[d] && value[d] == 0 {
      TargetBelow(m, active, value, d);
    }
  }

  // Variable 1 is dropped with a count of 5 and its index goes to variable 2,
  // which then has 6 instead of 1.
  method CountNotConserved() returns (m: Mapper, now: seq<nat>)
    ensures Mapping(m, [false, false, true], [0, 0, 0]) && Target(m, [0, 0, 0], 2) == 1
    ensures Collected(m, [0, 0, 0], [0, 5, 1], 1, 3) == 1 && |now| == m.size + 1 > 1 && now[1] == 6
  {
    var active, value: seq<int>, counts: seq<nat> := [false, false, true], [0, 0, 0], [0, 5, 1];
    ghost var inv;
    m, inv := BuildMapper(active, value);
    TargetBelow(m, active, value, 1);
    TargetBelow(m, active, value, 2);
    assert m.table[1] == 0 && m.table[2] > 0 && inv[1] == 2;
    assert Collected(m, value, counts, 1, 1) == 0 && Collected(m, value, counts, 1, 2) == 0;
    now := MapCounts(m, active, value, counts);
    assert Target(m, value, 1) == 0;
  }

  function Sum(s: seq<nat>, k: nat): nat
    requires k <= |s|
  {
    if k <= 1 then 0 else Sum(s, k - 1) + s[k - 1]
  }

  // The counts of all mapped variables.
  function MappedTotal(m: Mapper, value: seq<int>, counts: seq<nat>, k: nat): nat
    requires k <= |m.table| && |counts| == |m.table| && m.firstFixed < |m.table|
  {
    if k <= 1 then 0 else MappedTotal(m, value, counts, k - 1) + if Target(m, value, k - 1) != 0 then counts[k - 1]
      else 0
  }

  // The counts collected at the indices up to d.
  function CollectedTotal(m: Mapper, value: seq<int>, counts: seq<nat>, d: nat, k: nat): nat
    requires k <= |m.table| && |counts| == |m.table| && m.firstFixed < |m.table|
  {
    if d == 0 then 0 else CollectedTotal(m, value, counts, d - 1, k) + Collected(m, value, counts, d, k)
  }

  lemma {:induction false} CollectedStep(m: Mapper, active: seq<bool>, value: seq<int>, counts: seq<nat>, d: nat,
        k: nat)
    requires Mapping(m, active, value) && |counts| == |active| && 1 < k <= |active|
    ensures CollectedTotal(m, value, counts, d, k) ==
      CollectedTotal(m, value, counts, d, k - 1) + if 0 < Target(m, value, k - 1) <= d then counts[k - 1] else 0
  {
    if d > 0 { CollectedStep(m, active, value, counts, d - 1, k); }
  }

  lemma {:induction false} CollectedNone(m: Mapper, value: seq<int>, counts: seq<nat>, d: nat, k: nat)
    requires k <= 1 && k <= |m.table| && |counts| == |m.table| && m.firstFixed < |m.table|
    ensures CollectedTotal(m, value, counts, d, k) == 0
  {
    if d > 0 { CollectedNone(m, value, counts, d - 1, k); }
  }

  // Nothing is lost: all counts of mapped variables are collected.
  lemma {:induction false} AllCollected(m: Mapper, active: seq<bool>, value: seq<int>, counts: seq<nat>, k: nat)
    requires Mapping(m, active, value) && |counts| == |active| && k <= |active|
    ensures CollectedTotal(m, value, counts, m.size, k) == MappedTotal(m, value, counts, k)
  {
    if k <= 1 {
      CollectedNone(m, value, counts, m.size, k);
    } else {
      AllCollected(m, active, value, counts, k - 1);
      CollectedStep(m, active, value, counts, m.size, k);
      TargetBelow(m, active, value, k - 1);
    }
  }

  lemma {:induction false} OnlyMapped(m: Mapper, active: seq<bool>, value: seq<int>, counts: seq<nat>, k: nat)
    requires Mapping(m, active, value) && |counts| == |active| && k <= |active|
    requires forall v :: 1 <= v < |active| && !active[v] && value[v] == 0 ==> counts[v] == 0
    ensures Sum(counts, k) == MappedTotal(m, value, counts, k)
  {
    if k > 1 {
      OnlyMapped(m, active, value, counts, k - 1);
      TargetBelow(m, active, value, k - 1);
    }
  }

  lemma {:induction false} SumCollected(m: Mapper, active: seq<bool>, value: seq<int>, counts: seq<nat>,
        now: seq<nat>, d: nat)
    requires Mapping(m, active, value) && |counts| == |active| && |now| == m.size + 1
    requires d <= m.size
    requires forall e :: 1 <= e <= m.size ==> now[e] == Collected(m, value, counts, e, |active|)
    ensures Sum(now, d + 1) == CollectedTotal(m, value, counts, d, |active|)
  {
    if d > 0 { SumCollected(m, active, value, counts, now, d - 1); }
  }

  // The total is conserved when dropped variables have count zero.
  lemma TotalConserved(m: Mapper, active: seq<bool>, value: seq<int>, counts: seq<nat>, now: seq<nat>)
    requires Mapping(m, active, value) && |counts| == |active| && |now| == m.size + 1
    requires forall d :: 1 <= d <= m.size ==>
      now[d] == Collected(m, value, counts, d, |active|) + if Target(m, value, d) == 0 then counts[d] else 0
    requires forall v :: 1 <= v < |active| && !active[v] && value[v] == 0 ==> counts[v] == 0
    ensures Sum(now, m.size + 1) == Sum(counts, |active|)
  {
    CountsConserved(m, active, value, counts, now);
    SumCollected(m, active, value, counts, now, m.size);
    AllCollected(m, active, value, counts, |active|);
    OnlyMapped(m, active, value, counts, |active|);
  }

  // ---------- The decision queue ----------

  datatype Link = Link(prev: nat, next: nat)

  // The doubly linked list of the given variables.
  ghost predicate Linked(links: seq<Link>, first: nat, last: nat, vars: seq<nat>) {
    && (forall i :: 0 <= i < |vars| ==> 0 < vars[i] < |links|)
    && (forall i {:trigger LinkOk(links, vars, i)} :: 0 <= i < |vars| ==> LinkOk(links, vars, i))
    && (forall i, j :: 0 <= i < j < |vars| ==> vars[i] != vars[j])
    && first == (if vars == [] then 0 else vars[0]) && last == (if vars == [] then 0 else vars[|vars| - 1])
  }

  ghost predicate LinkOk(links: seq<Link>, vars: seq<nat>, i: int) {
    && 0 <= i < |vars| && 0 < vars[i] < |links|
    && links[vars[i]].next == (if i + 1 < |vars| then vars[i + 1] else 0)
    && links[vars[i]].prev == (if i > 0 then vars[i - 1] else 0)
  }

  // Variables that stay in the queue.
  function Staying(m: Mapper, vars: seq<nat>): seq<nat>
    requires forall i :: 0 <= i < |vars| ==> vars[i] < |m.table|
  {
    if vars == [] then []
    else
      var n := |vars| - 1;
      Staying(m, vars[..n]) + if vars[n] != m.firstFixed && m.table[vars[n]] > 0 then [vars[n]] else []
  }

  lemma {:induction false} StayingMeaning(m: Mapper, vars: seq<nat>)
    requires forall i :: 0 <= i < |vars| ==> vars[i] < |m.table|
    ensures forall v :: v in Staying(m, vars) <==> v in vars && v != m.firstFixed && m.table[v] > 0
    ensures (forall i, j :: 0 <= i < j < |vars| ==> vars[i] != vars[j]) ==>
      forall i, j :: 0 <= i < j < |Staying(m, vars)| ==> Staying(m, vars)[i] != Staying(m, vars)[j]
  {
    if vars != [] {
      var n := |vars| - 1;
      assert vars == vars[..n] + [vars[n]];
      StayingMeaning(m, vars[..n]);
    }
  }

  // The new index of the i-th variable that stays, zero beyond the ends.
  function ImageAt(m: Mapper, stay: seq<nat>, i: int): nat {
    if 0 <= i < |stay| && stay[i] < |m.table| then m.table[stay[i]] else 0
  }

  // The links at the old positions already point to new indices; the last one is still open.
  ghost predicate HalfLinked(m: Mapper, links: seq<Link>, stay: seq<nat>, first: nat) {
    && (forall i {:trigger HalfLink(m, links, stay, i)} :: 0 <= i < |stay| ==> HalfLink(m, links, stay, i))
    && (stay != [] ==> first == ImageAt(m, stay, 0))
  }

  ghost predicate HalfLink(m: Mapper, links: seq<Link>, stay: seq<nat>, i: int) {
    && 0 <= i < |stay| && 0 < stay[i] < |links| && stay[i] < |m.table|
    && links[stay[i]].prev == ImageAt(m, stay, i - 1)
    && (i < |stay| - 1 ==> links[stay[i]].next == ImageAt(m, stay, i + 1))
  }

  // Flush variables that are not mapped and rename the links of the others.
  method Relink(m: Mapper, links0: seq<Link>, first0: nat, ghost last0: nat, ghost vars: seq<nat>)
    returns (links: seq<Link>, first: nat, last: nat, ghost stay: seq<nat>)
    requires |m.table| == |links0| && m.firstFixed < |m.table|
    requires Linked(links0, first0, last0, vars)
    ensures stay == Staying(m, vars) && |links| == |links0| && HalfLinked(m, links, stay, first)
    ensures stay != [] ==>
      stay[|stay| - 1] < |links| && links[stay[|stay| - 1]].next == 0 && last == ImageAt(m, stay, |stay| - 1)
    ensures stay == [] ==> first == last == 0
  {
    links, first, stay := links0, first0, [];
    var prev: nat, mappedPrev: nat, idx := 0, 0, first0;
    ghost var i := 0;
    while idx != 0
      invariant 0 <= i <= |vars| && idx == (if i < |vars| then vars[i] else 0)
      invariant stay == Staying(m, vars[..i])
      invariant Walking(m, links0, links, vars, i, stay, first, prev, mappedPrev)
      decreases |vars| - i
    {
      assert LinkOk(links0, vars, i);
      var next := links[idx].next;
      links, first, prev, mappedPrev, stay := VisitLink(m, links, first, prev, mappedPrev, idx, links0, vars, i, stay);
      i := i + 1;
      idx := next;
    }
    assert vars[..|vars|] == vars;
    if prev != 0 {
      CloseLinks(m, links, stay, first);
      links := links[prev := links[prev].(next := 0)];
    } else {
      first := 0;
    }
    last := mappedPrev;
  }

  // One variable of the queue: flushed or linked to the one before that stays.
  method VisitLink(m: Mapper, links0: seq<Link>, first0: nat, prev0: nat, mapped0: nat, idx: nat,
        ghost start: seq<Link>, ghost vars: seq<nat>, ghost i: nat, ghost stay0: seq<nat>)
    returns (links: seq<Link>, first: nat, prev: nat, mappedPrev: nat, ghost stay: seq<nat>)
    requires m.firstFixed < |m.table| && i < |vars| && idx == vars[i] && 0 < idx < |links0|
    requires idx < |m.table|
    requires forall j, k :: 0 <= j < k < |vars| ==> vars[j] != vars[k]
    requires forall k :: 0 <= k < |vars| ==> vars[k] < |m.table|
    requires stay0 == Staying(m, vars[..i])
    requires Walking(m, start, links0, vars, i, stay0, first0, prev0, mapped0)
    ensures stay == Staying(m, vars[..i + 1])
    ensures Walking(m, start, links, vars, i + 1, stay, first, prev, mappedPrev)
  {
    assert vars[..i + 1][..i] == vars[..i];
    links, first, prev, mappedPrev, stay := links0, first0, prev0, mapped0, stay0;
    if idx != m.firstFixed && m.table[idx] != 0 {
      links, first := LinkNext(m, links, stay, first, prev, mappedPrev, idx, start, vars, i);
      stay := stay + [idx];
      mappedPrev, prev := m.table[idx], idx;
    }
  }

  // The variables before position i have been visited.
  ghost predicate Walking(m: Mapper, links0: seq<Link>, links: seq<Link>, vars: seq<nat>, i: nat, stay: seq<nat>,
        first: nat, prev: nat, mappedPrev: nat)
  {
    && |links| == |links0| && HalfLinked(m, links, stay, first)
    && (forall k :: i <= k < |vars| && vars[k] < |links| ==> links[vars[k]] == links0[vars[k]] && vars[k] !in stay)
    && (forall j, k :: 0 <= j < k < |stay| ==> stay[j] != stay[k])
    && (if stay == [] then prev == mappedPrev == 0
         else prev == stay[|stay| - 1] && 0 < prev < |m.table| && mappedPrev == m.table[prev])
  }

  lemma CloseLinks(m: Mapper, links: seq<Link>, stay: seq<nat>, first: nat)
    requires HalfLinked(m, links, stay, first) && stay != []
    requires forall j, k :: 0 <= j < k < |stay| ==> stay[j] != stay[k]
    ensures var p := stay[|stay| - 1];
      p < |links| && p < |m.table| && HalfLinked(m, links[p := links[p].(next := 0)], stay, first)
  {
    var p := stay[|stay| - 1];
    assert HalfLink(m, links, stay, |stay| - 1);
    var links' := links[p := links[p].(next := 0)];
    forall i | 0 <= i < |stay| ensures HalfLink(m, links', stay, i) {
      assert HalfLink(m, links, stay, i);
    }
  }

  method LinkNext(m: Mapper, links0: seq<Link>, ghost stay: seq<nat>, first0: nat, prev: nat, mappedPrev: nat,
        idx: nat, ghost start: seq<Link>, ghost vars: seq<nat>, ghost i: nat)
    returns (links: seq<Link>, first: nat)
    requires Walking(m, start, links0, vars, i, stay, first0, prev, mappedPrev) && i < |vars|
    requires idx == vars[i]
    requires 0 < idx < |links0| && idx < |m.table|
    requires forall j, k :: 0 <= j < k < |vars| ==> vars[j] != vars[k]
    ensures Walking(m, start, links, vars, i + 1, stay + [idx], first, idx, m.table[idx])
  {
    links, first := links0, first0;
    if prev != 0 {
      assert HalfLink(m, links0, stay, |stay| - 1);
      links := links[prev := links[prev].(next := m.table[idx])];
    } else {
      first := m.table[idx];
    }
    links := links[idx := links[idx].(prev := mappedPrev)];
    ghost var stay' := stay + [idx];
    assert idx !in stay;
    forall k | 0 <= k < |stay'| ensures HalfLink(m, links, stay', k) {
      if k < |stay| {
        assert HalfLink(m, links0, stay, k) && stay'[k] == stay[k] && stay[k] in stay;
        assert k > 0 ==> stay'[k - 1] == stay[k - 1];
        assert k + 1 < |stay| ==> stay'[k + 1] == stay[k + 1];
      }
    }
  }

  function Images(m: Mapper, stay: seq<nat>): seq<nat>
    requires forall i :: 0 <= i < |stay| ==> stay[i] < |m.table|
  {
    seq(|stay|, i requires 0 <= i < |stay| && stay[i] < |m.table| => m.table[stay[i]])
  }

  // Once the links have moved to the new indices the queue lists the images of
  // the variables that stay, in the same order.
  lemma QueueOrder(m: Mapper, active: seq<bool>, value: seq<int>, links: seq<Link>, first: nat, last: nat,
        stay: seq<nat>, moved: seq<Link>)
    requires Mapping(m, active, value) && HalfLinked(m, links, stay, first)
    requires |links| == |active| && |moved| == m.size + 1
    requires stay != [] ==>
      stay[|stay| - 1] < |links| && links[stay[|stay| - 1]].next == 0 && last == ImageAt(m, stay, |stay| - 1)
    requires stay == [] ==> first == last == 0
    requires forall i :: 0 <= i < |stay| ==> 0 < stay[i] < |active| && m.table[stay[i]] > 0
    requires forall i, j :: 0 <= i < j < |stay| ==> stay[i] != stay[j]
    requires forall v :: 1 <= v < |active| && m.table[v] > 0 ==> moved[m.table[v]] == links[v]
    ensures Linked(moved, first, last, Images(m, stay))
  {
    var im := Images(m, stay);
    forall i | 0 <= i < |im| ensures LinkOk(moved, im, i) {
      ImageLink(m, links, first, stay, moved, i);
    }
    forall i, j | 0 <= i < j < |im| ensures im[i] != im[j] {
      DifferentImages(m, active, value, stay[i], stay[j]);
    }
  }

  lemma DifferentImages(m: Mapper, active: seq<bool>, value: seq<int>, v: nat, w: nat)
    requires Mapping(m, active, value) && 0 < v < |active| && 0 < w < |active| && v != w
    requires m.table[v] > 0 && m.table[w] > 0
    ensures m.table[v] != m.table[w]
  {
    assert v < w ==> m.table[v] < m.table[w];
    assert w < v ==> m.table[w] < m.table[v];
  }

  lemma ImageLink(m: Mapper, links: seq<Link>, first: nat, stay: seq<nat>, moved: seq<Link>, i: nat)
    requires HalfLinked(m, links, stay, first) && |links| == |m.table| && i < |stay|
    requires stay[|stay| - 1] < |links| && links[stay[|stay| - 1]].next == 0
    requires forall k :: 0 <= k < |stay| ==>
      stay[k] < |links| && 0 < m.table[stay[k]] < |moved| && moved[m.table[stay[k]]] == links[stay[k]]
    ensures LinkOk(moved, Images(m, stay), i)
  {
    var im := Images(m, stay);
    assert HalfLink(m, links, stay, i);
    assert im[i] == m.table[stay[i]] && moved[im[i]] == links[stay[i]];
    if i > 0 { assert im[i - 1] == m.table[stay[i - 1]]; }
    if i + 1 < |stay| { assert im[i + 1] == m.table[stay[i + 1]]; }
  }

  // Relink the queue and move its links: it lists the images of the active variables in the same order.
  method CompactQueue(m: Mapper, active: seq<bool>, value: seq<int>, links: seq<Link>, first: nat, ghost last: nat,
        ghost vars: seq<nat>)
    returns (links': seq<Link>, first': nat, last': nat)
    requires Mapping(m, active, value) && |links| == |active| && Linked(links, first, last, vars)
    ensures forall v :: v in Staying(m, vars) <==> v in vars && active[v]
    ensures forall i :: 0 <= i < |Staying(m, vars)| ==> Staying(m, vars)[i] < |m.table|
    ensures Linked(links', first', last', Images(m, Staying(m, vars)))
  {
    var half;
    ghost var stay;
    half, first', last', stay := Relink(m, links, first, last, vars);
    StayingMeaning(m, vars);
    StayingActive(m, active, value, vars, stay);
    links' := MapVector(m, active, value, half);
    QueueOrder(m, active, value, half, first', last', stay, links');
  }

  lemma StayingActive(m: Mapper, active: seq<bool>, value: seq<int>, vars: seq<nat>, stay: seq<nat>)
    requires Mapping(m, active, value) && forall i :: 0 <= i < |vars| ==> 0 < vars[i] < |active|
    requires forall v :: v in stay <==> v in vars && v < |m.table| && v != m.firstFixed && m.table[v] > 0
    ensures forall v :: v in stay <==> v in vars && v < |active| && active[v]
    ensures forall i :: 0 <= i < |stay| ==> 0 < stay[i] < |active| && m.table[stay[i]] > 0
  {
    forall v | v in vars ensures v in stay <==> active[v] {
      var i :| 0 <= i < |vars| && vars[i] == v;
    }
    forall i | 0 <= i < |stay| ensures 0 < stay[i] < |active| && m.table[stay[i]] > 0 {
      assert stay[i] in stay && stay[i] in vars;
      var k :| 0 <= k < |vars| && vars[k] == stay[i];
    }
  }
}
