// If-then-else and XOR gates (src/gates.cpp).  These searches compare only the
// unassigned literals of clauses, so a clause that is already satisfied at the
// root level can be taken for a gate clause.  The listed clauses then define the
// pivot if and only if none of them is satisfied.
module GatesTernaryXor {
  import opened Cnf
  import opened Arithmetic
  import opened Resolution
  import opened Propagation
  import opened Gates

  // Live clause x, with assigned literals ignored, consists of the given literals.
  ghost predicate Reads(b: Base, x: nat, lits: set<Lit>) {
    x < |b.clauses| && x !in b.garbage && Unassigned(b.clauses[x], b.units) == lits
  }

  lemma ReadsRest(b: Base, x: nat, lits: set<Lit>, p: Lit, m: Model)
    requires Reads(b, x, lits) && Agrees(m, b.units) && p in lits
    ensures RestSat(m, b.clauses[x], p) <==>
      Satisfied(b.clauses[x], b.units) || exists l :: l in lits && l != p && True(m, l)
  {
    assert p in Unassigned(b.clauses[x], b.units);
    if RestSat(m, b.clauses[x], p) && !Satisfied(b.clauses[x], b.units) {
      var l :| l in b.clauses[x] && l != p && True(m, l);
      assert l in Unassigned(b.clauses[x], b.units);
    }
    assert forall l :: l in lits ==> l in b.clauses[x];
  }

  // ---------- Reading and finding clauses ----------

  // The unassigned literals of a clause, in order.
  function Extract(c: Clause, units: set<Lit>): Clause {
    if c == [] then [] else
      var init, last := Extract(c[..|c| - 1], units), c[|c| - 1];
      if Unset(last, units) then init + [last] else init
  }

  lemma {:induction false} ExtractMeaning(c: Clause, units: set<Lit>)
    requires NoDup(c)
    ensures Lits(Extract(c, units)) == Unassigned(c, units) && NoDup(Extract(c, units))
  {
    if c != [] {
      var init, last := c[..|c| - 1], c[|c| - 1];
      assert c == init + [last];
      ExtractMeaning(init, units);
      assert forall l :: l in Extract(init, units) <==> l in Lits(Extract(init, units));
      LitsSnoc(Extract(init, units), last);
      assert Unassigned(c, units) == Unassigned(init, units) + (if Unset(last, units) then {last} else {});
    }
  }

  lemma {:induction false} ExtractAll(c: Clause, units: set<Lit>)
    requires forall i :: 0 <= i < |c| ==> Unset(c[i], units)
    ensures Extract(c, units) == c
  {
    if c != [] {
      ExtractAll(c[..|c| - 1], units);
    }
  }

  method GetClause(b: Base, d: nat) returns (found: bool, lits: Clause)
    requires b.Valid() && d < |b.clauses|
    ensures found <==> d !in b.garbage
    ensures found ==> lits == Extract(b.clauses[d], b.units) && Reads(b, d, Lits(lits)) && NoDup(lits)
  {
    lits := [];
    if d in b.garbage { return false, []; }
    var c := b.clauses[d];
    assert NoDup(c);
    for i := 0 to |c|
      invariant lits == Extract(c[..i], b.units)
    {
      assert c[..i + 1][..i] == c[..i];
      if c[i] !in b.units && Neg(c[i]) !in b.units {
        lits := lits + [c[i]];
      }
    }
    assert c[..|c|] == c;
    ExtractMeaning(c, b.units);
    found := true;
  }

  // Does clause d consist of exactly the given literals, ignoring assigned ones?
  method IsClause(b: Base, d: nat, lits: Clause) returns (yes: bool)
    requires b.Valid() && d < |b.clauses| && NoDup(lits)
    ensures yes <==> Reads(b, d, Lits(lits))
  {
    if d in b.garbage { return false; }
    var c := b.clauses[d];
    assert NoDup(c);
    ghost var open := Extract(c, b.units);
    ExtractMeaning(c, b.units);
    NoDupSize(lits);
    NoDupSize(open);
    if |c| < |lits| {
      ExtractShorter(c, b.units);
      return false;
    }
    var size, found := |lits|, 0;
    for i := 0 to |c|
      invariant found == |Extract(c[..i], b.units)| && found <= size
      invariant Lits(Extract(c[..i], b.units)) <= Lits(lits)
    {
      assert c[..i + 1][..i] == c[..i];
      var lit := c[i];
      if lit !in b.units && Neg(lit) !in b.units {
        if lit !in lits {
          assert lit in Unassigned(c, b.units) && lit !in Lits(lits);
          return false;
        }
        LitsSnoc(Extract(c[..i], b.units), lit);
        found := found + 1;
        if found > size {
          ExtractPrefix(c, i + 1, b.units);
          return false;
        }
      }
    }
    assert c[..|c|] == c;
    yes := found == size;
    if yes {
      SubsetOfSameSize(Lits(open), Lits(lits));
    }
  }

  lemma {:induction false} ExtractShorter(c: Clause, units: set<Lit>)
    ensures |Extract(c, units)| <= |c|
  {
    if c != [] { ExtractShorter(c[..|c| - 1], units); }
  }

  lemma {:induction false} ExtractPrefix(c: Clause, i: nat, units: set<Lit>)
    requires i <= |c|
    ensures |Extract(c[..i], units)| <= |Extract(c, units)|
  {
    if i < |c| {
      assert c[..|c| - 1][..i] == c[..i];
      ExtractPrefix(c[..|c| - 1], i, units);
    } else {
      assert c[..i] == c;
    }
  }

  // Search the shortest of the occurrence lists of the literals.
  method FindClause(b: Base, occs: map<Lit, seq<nat>>, lits: Clause) returns (found: bool, d: nat)
    requires b.Valid() && Occurring(b, occs) && NoDup(lits) && lits != []
    ensures found ==> Reads(b, d, Lits(lits))
    ensures !found && Complete(b, occs) ==> forall e :: !Reads(b, e, Lits(lits))
  {
    var best := lits[0];
    for i := 1 to |lits|
      invariant best in lits
    {
      if |Occs(occs, lits[i])| < |Occs(occs, best)| {
        best := lits[i];
      }
    }
    var os := Occs(occs, best);
    for i := 0 to |os|
      invariant forall k :: 0 <= k < i ==> !Reads(b, os[k], Lits(lits))
    {
      var yes := IsClause(b, os[i], lits);
      if yes { return true, os[i]; }
    }
    if Complete(b, occs) {
      forall e | Reads(b, e, Lits(lits)) ensures e in os {
        Listed(b, occs, lits, best, e);
      }
    }
    return false, 0;
  }

  lemma Listed(b: Base, occs: map<Lit, seq<nat>>, lits: Clause, best: Lit, e: nat)
    requires Complete(b, occs) && best in lits && Reads(b, e, Lits(lits))
    ensures e in Occs(occs, best)
  {
    assert best in Unassigned(b.clauses[e], b.units);
  }

  // ---------- If-then-else gates ----------

  // The clauses (p, x, y), (p, -x, z), (-p, x, -y) and (-p, -x, -z).
  ghost predicate IteClauses(b: Base, gates: seq<nat>, p: Lit, x: Lit, y: Lit, z: Lit) {
    && |gates| == 4 && Var(x) != Var(p) && Var(y) != Var(p) && Var(z) != Var(p) && Var(x) != Var(y) && Var(x) != Var(z)
    && Reads(b, gates[0], {p, x, y}) && Reads(b, gates[1], {p, Neg(x), z})
    && Reads(b, gates[2], {Neg(p), x, Neg(y)}) && Reads(b, gates[3], {Neg(p), Neg(x), Neg(z)})
  }

  ghost predicate NoneSatisfied(b: Base, gates: seq<nat>) {
    forall i :: 0 <= i < |gates| && gates[i] < |b.clauses| ==> !Satisfied(b.clauses[gates[i]], b.units)
  }

  lemma IteForced(b: Base, gates: seq<nat>, p: Lit, x: Lit, y: Lit, z: Lit, m: Model)
    requires b.Valid() && IteClauses(b, gates, p, x, y, z) && Agrees(m, b.units)
    ensures ForcedBy(b, gates, p, m) <==>
      || (!True(m, x) && !True(m, y) && !Satisfied(b.clauses[gates[0]], b.units))
      || (True(m, x) && !True(m, z) && !Satisfied(b.clauses[gates[1]], b.units))
    ensures ForcedBy(b, gates, Neg(p), m) <==>
      || (!True(m, x) && True(m, y) && !Satisfied(b.clauses[gates[2]], b.units))
      || (True(m, x) && True(m, z) && !Satisfied(b.clauses[gates[3]], b.units))
  {
    ReadsRest(b, gates[0], {p, x, y}, p, m);
    ReadsRest(b, gates[1], {p, Neg(x), z}, p, m);
    ReadsRest(b, gates[2], {Neg(p), x, Neg(y)}, Neg(p), m);
    ReadsRest(b, gates[3], {Neg(p), Neg(x), Neg(z)}, Neg(p), m);
    forall i | 0 <= i < 4 ensures (i < 2 <==> p in b.clauses[gates[i]]) && (i >= 2 <==> Neg(p) in b.clauses[gates[i]]) {
      var c := b.clauses[gates[i]];
      assert !Tautology(c);
      assert p in Unassigned(c, b.units) || Neg(p) in Unassigned(c, b.units);
    }
  }

  // A model of the units with two chosen literals of different unassigned variables.
  ghost function ModelWith(units: set<Lit>, x: Lit, y: Lit): (m: Model)
    requires Consistent(units) && Var(x) != Var(y)
    requires x !in units && Neg(x) !in units && y !in units && Neg(y) !in units
    ensures Agrees(m, units) && True(m, x) && True(m, y)
  {
    var base: Model := iset v | v in units && v > 0;
    Force(Force(base, x), y)
  }

  lemma IteGate(b: Base, gates: seq<nat>, p: Lit, x: Lit, y: Lit, z: Lit)
    requires b.Valid() && IteClauses(b, gates, p, x, y, z)
    ensures IsGate(b, gates, p) <==> NoneSatisfied(b, gates)
  {
    assert x in {p, x, y} && y in {p, x, y} && p in {p, x, y} && z in {p, Neg(x), z};
    if NoneSatisfied(b, gates) {
      forall m: Model | Agrees(m, b.units) ensures ForcedBy(b, gates, p, m) != ForcedBy(b, gates, Neg(p), m) {
        IteForced(b, gates, p, x, y, z, m);
      }
      forall g | g in gates ensures g < |b.clauses| && g !in b.garbage && Occurs(p, b.clauses[g]) {
        assert p in Unassigned(b.clauses[g], b.units) || Neg(p) in Unassigned(b.clauses[g], b.units);
      }
    } else {
      var i :| 0 <= i < |gates| && gates[i] < |b.clauses| && Satisfied(b.clauses[gates[i]], b.units);
      var m :=
        if i == 0 then ModelWith(b.units, Neg(x), Neg(y)) else if i == 1 then ModelWith(b.units, x, Neg(z))
        else if i == 2 then ModelWith(b.units, Neg(x), y) else ModelWith(b.units, x, z);
      IteForced(b, gates, p, x, y, z, m);
    }
  }

  // The literals of a ternary clause other than the pivot, in the order in which the search takes them.
  function Others(lits: Clause, pivot: Lit): (Lit, Lit)
    requires |lits| == 3
  {
    if lits[2] == pivot then (lits[1], lits[0]) else if lits[1] == pivot then (lits[0], lits[2]) else (lits[1], lits[2])
  }

  ghost predicate Ternary(b: Base, d: nat) {
    d < |b.clauses| && d !in b.garbage && |Extract(b.clauses[d], b.units)| == 3
  }

  // A clause with three unassigned literals, the pivot among them.
  method GetTernaryClause(b: Base, d: nat, pivot: Lit) returns (found: bool, x: Lit, y: Lit)
    requires b.Valid() && d < |b.clauses| && pivot in b.clauses[d]
    requires pivot !in b.units && Neg(pivot) !in b.units
    ensures found <==> Ternary(b, d)
    ensures found ==> (x, y) == Others(Extract(b.clauses[d], b.units), pivot)
    ensures found ==> Reads(b, d, {pivot, x, y}) && Var(x) != Var(pivot) && Var(y) != Var(pivot) && Var(x) != Var(y)
  {
    found, x, y := false, 1, 1;
    ExtractShorter(b.clauses[d], b.units);
    if |b.clauses[d]| < 3 { return; }
    var read, lits := GetClause(b, d);
    if !read || |lits| != 3 { return; }
    assert pivot in Lits(lits) && Lits(lits) == {lits[0], lits[1], lits[2]};
    var a, b', c := lits[0], lits[1], lits[2];
    if b' == pivot { a, b' := b', a; }
    if c == pivot { a, c := c, a; }
    assert {a, b', c} == Lits(lits) && a == pivot;
    assert !Tautology(b.clauses[d]);
    assert forall l :: l in Lits(lits) ==> l in b.clauses[d];
    return true, b', c;
  }

  ghost predicate Present(b: Base, lits: set<Lit>) {
    exists d :: Reads(b, d, lits)
  }

  // Two ternary clauses with the pivot that the search completes to a gate: the
  // condition is the first other literal of the earlier one.
  ghost predicate IteAt(b: Base, di: nat, dj: nat, p: Lit) {
    && Ternary(b, di) && Ternary(b, dj)
    && var (x, y) := Others(Extract(b.clauses[di], b.units), p);
      Present(b, {Neg(p), x, Neg(y)}) && exists z :: IteElse(b, dj, p, x, y, z)
  }

  ghost predicate IteElse(b: Base, dj: nat, p: Lit, x: Lit, y: Lit, z: Lit) {
    && Reads(b, dj, {p, Neg(x), z}) && Var(z) != Var(x) && Var(z) != Var(y) && Var(z) != Var(p)
    && Present(b, {Neg(p), Neg(x), Neg(z)})
  }

  // Whether the two clauses with the pivot, with its other literals read off, make a gate.
  method MatchIte(b: Base, occs: map<Lit, seq<nat>>, pivot: Lit, di: nat, bi: Lit, ci: Lit, dj: nat)
    returns (gates: seq<nat>)
    requires b.Valid() && Occurring(b, occs) && pivot !in b.units && Neg(pivot) !in b.units
    requires dj < |b.clauses| && pivot in b.clauses[dj]
    requires Ternary(b, di) && (bi, ci) == Others(Extract(b.clauses[di], b.units), pivot)
    requires Reads(b, di, {pivot, bi, ci}) && Var(bi) != Var(pivot) && Var(ci) != Var(pivot)
    requires Var(bi) != Var(ci)
    ensures gates != [] ==> IteAt(b, di, dj, pivot) && exists z :: IteClauses(b, gates, pivot, bi, ci, z)
    ensures gates == [] && Complete(b, occs) ==> !IteAt(b, di, dj, pivot)
  {
    gates := [];
    var ok, bj, cj := GetTernaryClause(b, dj, pivot);
    if !ok { return; }
    if Var(bi) == Var(cj) { bj, cj := cj, bj; }
    assert Reads(b, dj, {pivot, bj, cj});
    forall z | IteElse(b, dj, pivot, bi, ci, z) ensures z == cj && bj == Neg(bi) {
      ElseUnique(pivot, bi, z, bj, cj);
    }
    if Var(ci) == Var(cj) || bi != Neg(bj) { return; }
    assert Lits([Neg(pivot), bi, Neg(ci)]) == {Neg(pivot), bi, Neg(ci)};
    assert Lits([Neg(pivot), bj, Neg(cj)]) == {Neg(pivot), Neg(bi), Neg(cj)};
    var f1, d1 := FindClause(b, occs, [Neg(pivot), bi, Neg(ci)]);
    if !f1 { return; }
    var f2, d2 := FindClause(b, occs, [Neg(pivot), bj, Neg(cj)]);
    if !f2 { return; }
    gates := [di, dj, d1, d2];
    assert {pivot, bj, cj} == {pivot, Neg(bi), cj};
    assert IteElse(b, dj, pivot, bi, ci, cj);
    assert IteClauses(b, gates, pivot, bi, ci, cj);
  }

  lemma ElseUnique(p: Lit, x: Lit, z: Lit, bj: Lit, cj: Lit)
    requires {p, Neg(x), z} == {p, bj, cj} && Var(x) != Var(cj)
    requires Var(z) != Var(x) && Var(z) != Var(p) && Var(x) != Var(p) && Var(bj) != Var(p)
    requires Var(cj) != Var(p)
    ensures z == cj && bj == Neg(x)
  {
    assert cj in {p, Neg(x), z} && bj in {p, Neg(x), z} && Neg(x) in {p, bj, cj} && z in {p, bj, cj};
  }

  lemma IteLive(b: Base, gates: seq<nat>, p: Lit, x: Lit, y: Lit, z: Lit)
    requires IteClauses(b, gates, p, x, y, z)
    ensures forall g :: g in gates ==> g < |b.clauses| && g !in b.garbage && Occurs(p, b.clauses[g])
  {
    forall g | g in gates ensures g < |b.clauses| && g !in b.garbage && Occurs(p, b.clauses[g]) {
      var i :| 0 <= i < 4 && gates[i] == g;
      assert p in Unassigned(b.clauses[g], b.units) || Neg(p) in Unassigned(b.clauses[g], b.units);
    }
  }

  // The inner loop: later clauses that make a gate with the i-th one.
  method MatchRow(b: Base, occs: map<Lit, seq<nat>>, pivot: Lit, i: nat) returns (gates: seq<nat>)
    requires b.Valid() && Occurring(b, occs) && pivot !in b.units && Neg(pivot) !in b.units
    requires i < |Occs(occs, pivot)|
    ensures gates != [] ==> IteRow(b, Occs(occs, pivot), i, pivot) && IteFound(b, gates, pivot)
    ensures gates == [] && Complete(b, occs) ==> !IteRow(b, Occs(occs, pivot), i, pivot)
  {
    gates := [];
    var os := Occs(occs, pivot);
    var ok, bi, ci := GetTernaryClause(b, os[i], pivot);
    if !ok { return; }
    for j := i + 1 to |os|
      invariant Complete(b, occs) ==> NoneBetween(b, os, i, j, pivot)
    {
      gates := MatchIte(b, occs, pivot, os[i], bi, ci, os[j]);
      if gates != [] {
        ghost var z :| IteClauses(b, gates, pivot, bi, ci, z);
        IteGate(b, gates, pivot, bi, ci, z);
        IteLive(b, gates, pivot, bi, ci, z);
        return;
      }
      if Complete(b, occs) { NoneNext(b, os, i, j, pivot); }
    }
    gates := [];
  }

  ghost predicate NoneBetween(b: Base, os: seq<nat>, i: nat, j: nat, p: Lit) {
    i < j <= |os| && forall k :: i < k < j ==> !IteAt(b, os[i], os[k], p)
  }

  lemma NoneNext(b: Base, os: seq<nat>, i: nat, j: nat, p: Lit)
    requires NoneBetween(b, os, i, j, p) && j < |os| && !IteAt(b, os[i], os[j], p)
    ensures NoneBetween(b, os, i, j + 1, p)
  {
    forall k | i < k < j + 1 ensures !IteAt(b, os[i], os[k], p) {
      if k == j { assert os[k] == os[j]; }
    }
  }

  ghost predicate NoRowBelow(b: Base, os: seq<nat>, i: nat, p: Lit) {
    forall k :: 0 <= k < i ==> !IteRow(b, os, k, p)
  }

  lemma NoRowNext(b: Base, os: seq<nat>, i: nat, p: Lit)
    requires NoRowBelow(b, os, i, p) && !IteRow(b, os, i, p)
    ensures NoRowBelow(b, os, i + 1, p)
  {
    forall k | 0 <= k < i + 1 ensures !IteRow(b, os, k, p) {
      assert k < i || k == i;
    }
  }

  // Four live clauses of that form, which define the pivot if and only if none is satisfied.
  ghost predicate IteFound(b: Base, gates: seq<nat>, p: Lit) {
    && (exists x, y, z :: IteClauses(b, gates, p, x, y, z))
    && (IsGate(b, gates, p) <==> NoneSatisfied(b, gates))
    && (forall g :: g in gates ==> g < |b.clauses| && g !in b.garbage && Occurs(p, b.clauses[g]))
  }

  // Some later listed clause makes a gate with the i-th one.
  ghost predicate IteRow(b: Base, os: seq<nat>, i: nat, p: Lit) {
    i < |os| && exists j :: i < j < |os| && IteAt(b, os[i], os[j], p)
  }

  method FindIfThenElse(b: Base, occs: map<Lit, seq<nat>>, pivot: Lit) returns (gates: seq<nat>)
    requires b.Valid() && Occurring(b, occs) && pivot !in b.units && Neg(pivot) !in b.units
    ensures gates != [] ==> IteFound(b, gates, pivot) && IteListed(b, Occs(occs, pivot), pivot)
    ensures Complete(b, occs) && IteListed(b, Occs(occs, pivot), pivot) ==> gates != []
  {
    var os := Occs(occs, pivot);
    for i := 0 to |os|
      invariant Complete(b, occs) ==> NoRowBelow(b, os, i, pivot)
    {
      gates := MatchRow(b, occs, pivot, i);
      if gates != [] { return; }
      if Complete(b, occs) { NoRowNext(b, os, i, pivot); }
    }
    gates := [];
  }

  // Some pair of listed clauses, the condition read off the earlier one.
  ghost predicate IteListed(b: Base, os: seq<nat>, p: Lit) {
    exists i :: 0 <= i < |os| && IteRow(b, os, i, p)
  }

  // An if-then-else of 2 whose condition comes last in the clauses with the pivot.
  function ConditionLast(): Base {
    Base([[1, 3, 2], [1, 4, -2], [-1, 2, -3], [-1, -2, -4]], {}, {})
  }

  // The four clauses have the form of a gate, and the search still passes over them.
  lemma ConditionLastMissed(occs: map<Lit, seq<nat>>)
    requires Connected(ConditionLast(), occs)
    ensures IteClauses(ConditionLast(), [0, 1, 2, 3], 1, 2, 3, 4)
    ensures !IteListed(ConditionLast(), Occs(occs, 1), 1)
  {
    ConditionLastClauses();
    var b, os := ConditionLast(), Occs(occs, 1);
    forall i, j | 0 <= i < |os| && 0 <= j < |os| ensures !IteAt(b, os[i], os[j], 1) {
      ListedIn(occs, i);
      ListedIn(occs, j);
      ConditionNotFirst(os[i], os[j]);
    }
  }

  lemma ListedIn(occs: map<Lit, seq<nat>>, i: nat)
    requires Connected(ConditionLast(), occs) && i < |Occs(occs, 1)|
    ensures Occs(occs, 1)[i] == 0 || Occs(occs, 1)[i] == 1
  {
    assert Occurrences(ConditionLast(), 1, occs[1]);
  }

  lemma ConditionLastClauses()
    ensures IteClauses(ConditionLast(), [0, 1, 2, 3], 1, 2, 3, 4)
  {
    var cs := ConditionLast().clauses;
    assert Unassigned(cs[0], {}) == {1, 2, 3} && Unassigned(cs[1], {}) == {1, -2, 4};
    assert Unassigned(cs[2], {}) == {-1, 2, -3} && Unassigned(cs[3], {}) == {-1, -2, -4};
  }

  lemma ConditionNotFirst(di: nat, dj: nat)
    requires (di == 0 || di == 1) && (dj == 0 || dj == 1)
    ensures !IteAt(ConditionLast(), di, dj, 1)
  {
    var b := ConditionLast();
    var c, d := b.clauses[di], b.clauses[dj];
    ExtractAll(c, {});
    var (x, y) := Others(c, 1);
    assert x == if di == 0 then 3 else 4;
    forall z ensures !Reads(b, dj, {1, Neg(x), z}) {
      assert Neg(x) in {1, Neg(x), z} && Neg(x) !in Unassigned(d, {});
    }
  }

  // ---------- XOR gates ----------

  predicate Bit(n: nat, j: nat) {
    if j == 0 then n % 2 == 1 else Bit(n / 2, j - 1)
  }

  predicate Parity(n: nat) {
    if n == 0 then false else (n % 2 == 1) != Parity(n / 2)
  }

  // The k-th number of even parity.
  function EvenCode(k: nat): nat {
    2 * k + if Parity(k) then 1 else 0
  }

  lemma EvenCodeParity(k: nat)
    ensures !Parity(EvenCode(k)) && EvenCode(k) / 2 == k
    ensures Parity(2 * k) == Parity(k) && Parity(2 * k + 1) == !Parity(k)
  {
    assert (2 * k + 1) / 2 == k;
  }

  // The literals with those at the set bits of n negated.
  function Signed(lits: Clause, n: nat): (r: Clause)
    ensures |r| == |lits|
    ensures forall j :: 0 <= j < |lits| ==> r[j] == if Bit(n, j) then Neg(lits[j]) else lits[j]
  {
    seq(|lits|, j requires 0 <= j < |lits| => if Bit(n, j) then Neg(lits[j]) else lits[j])
  }

  // The code with given bits.
  function Code(bits: seq<bool>): (n: nat)
    ensures n < Pow2(|bits|)
  {
    if bits == [] then 0 else (if bits[0] then 1 else 0) + 2 * Code(bits[1..])
  }

  lemma {:induction false} CodeBits(bits: seq<bool>, j: nat)
    requires j < |bits|
    ensures Bit(Code(bits), j) == bits[j]
  {
    if j > 0 {
      CodeBits(bits[1..], j - 1);
    }
  }

  // Numbers below 2^size that differ in exactly one bit have different parity.
  lemma {:induction false} OneBitParity(a: nat, b: nat, size: nat, q: nat)
    requires a < Pow2(size) && b < Pow2(size) && q < size
    requires Bit(a, q) != Bit(b, q)
    requires forall j :: 0 <= j < size && j != q ==> Bit(a, j) == Bit(b, j)
    ensures Parity(a) != Parity(b)
  {
    if q == 0 {
      forall j | 0 <= j < size - 1 ensures Bit(a / 2, j) == Bit(b / 2, j) {
        assert Bit(a, j + 1) == Bit(b, j + 1);
      }
      SameBits(a / 2, b / 2, size - 1);
    } else {
      assert Bit(a, 0) == Bit(b, 0);
      forall j | 0 <= j < size - 1 && j != q - 1 ensures Bit(a / 2, j) == Bit(b / 2, j) {
        assert Bit(a, j + 1) == Bit(b, j + 1);
      }
      OneBitParity(a / 2, b / 2, size - 1, q - 1);
    }
  }

  lemma {:induction false} SameBits(a: nat, b: nat, size: nat)
    requires a < Pow2(size) && b < Pow2(size)
    requires forall j :: 0 <= j < size ==> Bit(a, j) == Bit(b, j)
    ensures a == b
  {
    if size > 0 {
      assert Bit(a, 0) == Bit(b, 0);
      forall j | 0 <= j < size - 1 ensures Bit(a / 2, j) == Bit(b / 2, j) {
        assert Bit(a, j + 1) == Bit(b, j + 1);
      }
      SameBits(a / 2, b / 2, size - 1);
    }
  }

  // Even codes are determined by all bits but one, which can be chosen to make the parity even.
  lemma EvenCompletion(bits: seq<bool>, q: nat) returns (k: nat)
    requires q < |bits|
    ensures k < Pow2(|bits| - 1)
    ensures forall j :: 0 <= j < |bits| && j != q ==> Bit(EvenCode(k), j) == bits[j]
  {
    var n := Code(bits);
    var flipped := bits[q := !bits[q]];
    var n' := Code(flipped);
    forall j | 0 <= j < |bits| ensures Bit(n, j) == bits[j] && Bit(n', j) == flipped[j] {
      CodeBits(bits, j);
      CodeBits(flipped, j);
    }
    OneBitParity(n, n', |bits|, q);
    var e := if Parity(n) then n' else n;
    k := e / 2;
    assert EvenCode(k) == e;
  }

  // gates[k] reads as the literals negated according to the k-th even code, for all codes.
  ghost predicate XorClauses(b: Base, gates: seq<nat>, lits: Clause, q: nat) {
    && q < |lits| && NoDup(lits) && !Tautology(lits) && |gates| == Pow2(|lits| - 1)
    && CodesRead(b, gates, lits)
  }

  ghost predicate CodesRead(b: Base, gates: seq<nat>, lits: Clause) {
    forall k :: 0 <= k < |gates| ==> Reads(b, gates[k], Lits(Signed(lits, EvenCode(k))))
  }

  lemma CodesReadSnoc(b: Base, gates: seq<nat>, lits: Clause, e: nat)
    requires CodesRead(b, gates, lits) && Reads(b, e, Lits(Signed(lits, EvenCode(|gates|))))
    ensures CodesRead(b, gates + [e], lits)
  {
  }

  // Some literal but the pivot of the clause with the k-th even code holds.
  ghost predicate OtherTrue(lits: Clause, q: nat, m: Model, k: nat) {
    exists j :: 0 <= j < |lits| && j != q && True(m, Signed(lits, EvenCode(k))[j])
  }

  // Clause k forces its pivot literal unless it is satisfied or another of its literals holds.
  lemma XorRest(b: Base, gates: seq<nat>, lits: Clause, q: nat, k: nat, m: Model)
    requires b.Valid() && XorClauses(b, gates, lits, q) && k < |gates| && Agrees(m, b.units)
    ensures var l := Signed(lits, EvenCode(k))[q];
      l in b.clauses[gates[k]] && Neg(l) !in b.clauses[gates[k]] &&
      (RestSat(m, b.clauses[gates[k]], l) <==> Satisfied(b.clauses[gates[k]], b.units) || OtherTrue(lits, q, m, k))
  {
    var s, c := Signed(lits, EvenCode(k)), b.clauses[gates[k]];
    var l := s[q];
    SignedDistinct(lits, EvenCode(k));
    assert l in Lits(s) && l in Unassigned(c, b.units);
    assert !Tautology(c);
    ReadsRest(b, gates[k], Lits(s), l, m);
    assert forall x :: x in Lits(s) ==> exists j :: 0 <= j < |s| && s[j] == x;
    assert forall j :: 0 <= j < |s| ==> s[j] in Lits(s);
  }

  lemma SignedDistinct(lits: Clause, n: nat)
    requires NoDup(lits) && !Tautology(lits)
    ensures NoDup(Signed(lits, n))
  {
    var s := Signed(lits, n);
    forall i, j | 0 <= i < j < |s| ensures s[i] != s[j] {
      assert lits[i] in lits && lits[j] in lits;
      assert lits[i] != Neg(lits[j]) && Neg(lits[i]) != lits[j] && Neg(lits[i]) != Neg(lits[j]);
    }
  }

  // In each model exactly one clause has all literals but the pivot false.
  lemma XorSelected(lits: Clause, q: nat, m: Model) returns (k: nat)
    requires q < |lits|
    ensures k < Pow2(|lits| - 1)
    ensures forall k' :: 0 <= k' < Pow2(|lits| - 1) ==> (OtherTrue(lits, q, m, k') <==> k' != k)
  {
    var bits := seq(|lits|, j requires 0 <= j < |lits| => True(m, lits[j]));
    k := EvenCompletion(bits, q);
    forall k' | 0 <= k' < Pow2(|lits| - 1) && k' != k
      ensures OtherTrue(lits, q, m, k')
    {
      var a, b := EvenCode(k), EvenCode(k');
      EvenCodeParity(k);
      EvenCodeParity(k');
      if forall j :: 0 <= j < |lits| && j != q ==> Bit(a, j) == Bit(b, j) {
        if Bit(a, q) == Bit(b, q) {
          SameBits(a, b, |lits|);
        } else {
          OneBitParity(a, b, |lits|, q);
        }
        assert false;
      }
      var j :| 0 <= j < |lits| && j != q && Bit(a, j) != Bit(b, j);
      assert True(m, Signed(lits, b)[j]);
    }
  }

  lemma XorForced(b: Base, gates: seq<nat>, lits: Clause, q: nat, m: Model, k: nat)
    requires b.Valid() && XorClauses(b, gates, lits, q) && Agrees(m, b.units) && k < |gates|
    requires forall k' :: 0 <= k' < |gates| ==> (OtherTrue(lits, q, m, k') <==> k' != k)
    ensures var l := Signed(lits, EvenCode(k))[q];
      && (ForcedBy(b, gates, l, m) <==> !Satisfied(b.clauses[gates[k]], b.units)) && !ForcedBy(b, gates, Neg(l), m)
  {
    var l := Signed(lits, EvenCode(k))[q];
    forall x | x in gates && x < |b.clauses| && !RestSat(m, b.clauses[x], if l in b.clauses[x] then l else Neg(l))
      && Occurs(l, b.clauses[x])
      ensures x == gates[k]
    {
      var k' :| 0 <= k' < |gates| && gates[k'] == x;
      XorRest(b, gates, lits, q, k', m);
      assert Signed(lits, EvenCode(k'))[q] in {l, Neg(l)};
    }
    XorRest(b, gates, lits, q, k, m);
    assert gates[k] in gates;
    forall x | x in gates && x < |b.clauses| && Neg(l) in b.clauses[x] ensures RestSat(m, b.clauses[x], Neg(l)) {
      assert !Tautology(b.clauses[x]);
    }
  }

  lemma XorGateDefines(b: Base, gates: seq<nat>, lits: Clause, q: nat)
    requires b.Valid() && XorClauses(b, gates, lits, q) && NoneSatisfied(b, gates)
    ensures IsGate(b, gates, lits[q])
  {
    var p := lits[q];
    assert Neg(Neg(p)) == p;
    forall m: Model | Agrees(m, b.units) ensures ForcedBy(b, gates, p, m) != ForcedBy(b, gates, Neg(p), m) {
      var k := XorSelected(lits, q, m);
      XorForced(b, gates, lits, q, m, k);
    }
    forall x | x in gates ensures x < |b.clauses| && x !in b.garbage && Occurs(p, b.clauses[x]) {
      var k :| 0 <= k < |gates| && gates[k] == x;
      assert Signed(lits, EvenCode(k))[q] in Lits(Signed(lits, EvenCode(k)));
    }
  }

  // In a model that falsifies all literals of a satisfied clause nothing is forced.
  lemma XorGateSpoiled(b: Base, gates: seq<nat>, lits: Clause, q: nat, k: nat)
    requires b.Valid() && XorClauses(b, gates, lits, q) && k < |gates|
    requires Satisfied(b.clauses[gates[k]], b.units)
    ensures !IsGate(b, gates, lits[q])
  {
    var p, s := lits[q], Signed(lits, EvenCode(k));
    assert Neg(Neg(p)) == p;
    assert forall j :: 0 <= j < |s| ==> s[j] in Lits(s) && s[j] in Unassigned(b.clauses[gates[k]], b.units);
    assert !Tautology(b.clauses[gates[k]]);
    var m := ModelFalsifying(b.units, s);
    var k' := XorSelected(lits, q, m);
    assert !OtherTrue(lits, q, m, k);
    XorForced(b, gates, lits, q, m, k);
  }

  lemma XorGate(b: Base, gates: seq<nat>, lits: Clause, q: nat)
    requires b.Valid() && XorClauses(b, gates, lits, q)
    ensures IsGate(b, gates, lits[q]) <==> NoneSatisfied(b, gates)
  {
    if NoneSatisfied(b, gates) {
      XorGateDefines(b, gates, lits, q);
    } else {
      var k :| 0 <= k < |gates| && gates[k] < |b.clauses| && Satisfied(b.clauses[gates[k]], b.units);
      XorGateSpoiled(b, gates, lits, q, k);
    }
  }

  // A model of the units that falsifies all given literals of unassigned variables.
  lemma {:induction false} ModelFalsifying(units: set<Lit>, s: Clause) returns (m: Model)
    requires Consistent(units) && !Tautology(s)
    requires forall j :: 0 <= j < |s| ==> s[j] !in units && Neg(s[j]) !in units
    ensures Agrees(m, units) && forall j :: 0 <= j < |s| ==> !True(m, s[j])
  {
    if s == [] {
      m := iset v | v in units && v > 0;
    } else {
      var n := |s| - 1;
      assert s == s[..n] + [s[n]];
      var m' := ModelFalsifying(units, s[..n]);
      m := Force(m', Neg(s[n]));
      forall j | 0 <= j < |s| ensures !True(m, s[j]) {
        assert s[j] in s && s[n] in s;
        if s[j] != s[n] {
          assert s[j] != Neg(s[n]);
        }
      }
    }
  }

  // Increment until the parity is even again.
  method NextEven(prev: nat, ghost k: nat) returns (signs: nat)
    requires prev == EvenCode(k)
    ensures signs == EvenCode(k + 1)
  {
    EvenCodeParity(k);
    EvenCodeParity(k + 1);
    signs := prev + 1;
    while Parity(signs)
      invariant EvenCode(k) < signs <= EvenCode(k + 1)
      decreases EvenCode(k + 1) - signs
    {
      assert signs == 2 * k + 1 || signs == 2 * (k + 1);
      signs := signs + 1;
    }
    assert signs == 2 * k + 1 || signs == 2 * (k + 1) || signs == 2 * (k + 1) + 1;
  }

  // Negate the literals at the positions where the two codes differ.
  method FlipLiterals(lits: Clause, prev: nat, signs: nat, ghost lits0: Clause) returns (r: Clause)
    requires lits == Signed(lits0, prev)
    ensures r == Signed(lits0, signs)
  {
    r := lits;
    for j := 0 to |lits|
      invariant |r| == |lits|
      invariant forall i :: 0 <= i < |r| ==> r[i] == Signed(lits0, if i < j then signs else prev)[i]
    {
      if Bit(prev, j) != Bit(signs, j) {
        r := r[j := Neg(r[j])];
      }
    }
  }

  // Find the clause of the next even code.
  method FindNextCode(b: Base, occs: map<Lit, seq<nat>>, lits: Clause, prev: nat, ghost lits0: Clause, ghost k: nat)
    returns (found: bool, e: nat, lits': Clause, signs: nat, ghost k': nat)
    requires b.Valid() && Occurring(b, occs) && NoDup(lits0) && !Tautology(lits0) && lits0 != []
    requires prev == EvenCode(k) && lits == Signed(lits0, prev)
    ensures k' == k + 1 && signs == EvenCode(k') && lits' == Signed(lits0, signs)
    ensures found ==> Reads(b, e, Lits(lits'))
    ensures found || NotFound(b, occs, lits0, k')
  {
    k' := k + 1;
    signs := NextEven(prev, k);
    lits' := FlipLiterals(lits, prev, signs, lits0);
    SignedDistinct(lits0, signs);
    found, e := FindClause(b, occs, lits');
  }

  // Find the clauses of the other even codes, or the first code without one.
  method FindXorClauses(b: Base, occs: map<Lit, seq<nat>>, lits0: Clause, total: nat, ghost d: nat)
    returns (gates: seq<nat>, ghost k: nat)
    requires b.Valid() && Occurring(b, occs) && lits0 != [] && NoDup(lits0) && !Tautology(lits0)
    requires Reads(b, d, Lits(lits0)) && total > 1
    ensures gates != [] ==> |gates| + 1 == total && CodesRead(b, [d] + gates, lits0)
    ensures gates != [] || (k < total && NotFound(b, occs, lits0, k))
  {
    gates, k := [], 0;
    ghost var all := [d];
    SignedZero(lits0);
    var lits, signs, needed := lits0, 0, total - 1;
    while needed != 0
      invariant all == [d] + gates && |gates| + needed + 1 == total
      invariant k == |gates| && signs == EvenCode(k) && lits == Signed(lits0, signs)
      invariant CodesRead(b, all, lits0) && needed >= 0
      decreases needed
    {
      var found, e;
      found, e, lits, signs, k := FindNextCode(b, occs, lits, signs, lits0, k);
      if !found {
        gates := [];
        return;
      }
      CodesReadSnoc(b, all, lits0, e);
      gates, all := gates + [e], all + [e];
      needed := needed - 1;
    }
    assert |gates| == total - 1;
  }

  ghost predicate NotFound(b: Base, occs: map<Lit, seq<nat>>, lits: Clause, k: nat) {
    Complete(b, occs) ==> !CodePresent(b, lits, k)
  }

  ghost predicate CodePresent(b: Base, lits: Clause, k: nat) {
    exists e :: Reads(b, e, Lits(Signed(lits, EvenCode(k))))
  }

  // A clause of the given parity is not there.
  ghost predicate Missing(b: Base, lits: Clause) {
    lits != [] && exists k :: 0 <= k < Pow2(|lits| - 1) && !CodePresent(b, lits, k)
  }

  lemma CodeMissing(b: Base, lits: Clause, k: nat)
    requires lits != [] && k < Pow2(|lits| - 1) && !CodePresent(b, lits, k)
    ensures Missing(b, lits)
  {
  }

  function Flipped(lits: Clause, n: nat): set<Lit> {
    set j | 0 <= j < |lits| && Bit(n, j) :: lits[j]
  }

  // The parity of a code is that of the number of literals it negates.
  lemma {:induction false} FlippedParity(lits: Clause, n: nat)
    requires NoDup(lits) && n < Pow2(|lits|)
    ensures Parity(n) <==> |Flipped(lits, n)| % 2 == 1
  {
    if lits != [] {
      FlippedParity(lits[1..], n / 2);
      FlippedSplit(lits, n);
    } else {
      assert Flipped(lits, n) == {};
    }
  }

  lemma FlippedSplit(lits: Clause, n: nat)
    requires NoDup(lits) && lits != []
    ensures |Flipped(lits, n)| == |Flipped(lits[1..], n / 2)| + if n % 2 == 1 then 1 else 0
  {
    var first, rest := if n % 2 == 1 then {lits[0]} else {}, Flipped(lits[1..], n / 2);
    forall l | l in Flipped(lits, n) ensures l in first + rest {
      var j :| 0 <= j < |lits| && Bit(n, j) && lits[j] == l;
      if j > 0 { assert lits[1..][j - 1] == l && Bit(n / 2, j - 1); }
    }
    forall l | l in rest ensures l in Flipped(lits, n) && l != lits[0] {
      var j :| 0 <= j < |lits| - 1 && Bit(n / 2, j) && lits[1..][j] == l;
      assert lits[j + 1] == l && Bit(n, j + 1);
    }
    assert n % 2 == 1 ==> Bit(n, 0) && lits[0] in Flipped(lits, n);
    assert Flipped(lits, n) == first + rest;
  }

  lemma SignedLits(lits: Clause, n: nat)
    requires NoDup(lits)
    ensures Lits(Signed(lits, n)) == (Lits(lits) - Flipped(lits, n)) + Negations(Flipped(lits, n))
  {
    var s, f := Signed(lits, n), Flipped(lits, n);
    forall j | 0 <= j < |lits| ensures lits[j] in f <==> Bit(n, j) {
    }
    forall l | l in Lits(s) ensures l in (Lits(lits) - f) + Negations(f) {
      var j :| 0 <= j < |s| && s[j] == l;
      assert lits[j] in lits;
    }
    forall l | l in (Lits(lits) - f) + Negations(f) ensures l in Lits(s) {
      if l in Negations(f) {
        var k :| k in f && l == Neg(k);
        var j :| 0 <= j < |lits| && Bit(n, j) && lits[j] == k;
        assert s[j] == l;
      } else {
        var j :| 0 <= j < |lits| && lits[j] == l;
        assert s[j] == l;
      }
    }
  }

  // Which sets of literals have even parity does not depend on the order of the literals.
  lemma Reordered(lits: Clause, lits': Clause, k: nat) returns (k': nat)
    requires NoDup(lits) && NoDup(lits') && Lits(lits) == Lits(lits') && lits != []
    requires k < Pow2(|lits| - 1)
    ensures |lits'| == |lits| && k' < Pow2(|lits| - 1)
    ensures Lits(Signed(lits', EvenCode(k'))) == Lits(Signed(lits, EvenCode(k)))
  {
    NoDupSize(lits);
    NoDupSize(lits');
    var f := Flipped(lits, EvenCode(k));
    var bits := seq(|lits'|, j requires 0 <= j < |lits'| => lits'[j] in f);
    var n := Code(bits);
    forall j | 0 <= j < |lits'| ensures Bit(n, j) == (lits'[j] in f) { CodeBits(bits, j); }
    assert Flipped(lits', n) == f by {
      forall l | l in f ensures l in Flipped(lits', n) {
        assert l in Lits(lits) && l in lits';
      }
    }
    EvenCodeParity(k);
    FlippedParity(lits, EvenCode(k));
    FlippedParity(lits', n);
    k' := n / 2;
    assert EvenCode(k') == n;
    SignedLits(lits, EvenCode(k));
    SignedLits(lits', n);
  }

  // One missing clause refutes every exclusive-or over these literals.
  lemma MissingRefutes(b: Base, lits: Clause, gates: seq<nat>, lits': Clause, q: nat)
    requires Missing(b, lits) && NoDup(lits) && Lits(lits) == Lits(lits')
    ensures !XorClauses(b, gates, lits', q)
  {
    if lits' != [] && NoDup(lits') && |gates| == Pow2(|lits'| - 1) {
      var k :| 0 <= k < Pow2(|lits| - 1) && !CodePresent(b, lits, k);
      var k' := Reordered(lits, lits', k);
      assert !Reads(b, gates[k'], Lits(Signed(lits', EvenCode(k'))));
    }
  }

  // The pivot is the exclusive-or of at least two and at most limit other literals.
  ghost predicate IsXor(b: Base, gates: seq<nat>, lits: Clause, q: nat, p: Lit, limit: nat) {
    XorClauses(b, gates, lits, q) && lits[q] == p && 3 <= |lits| <= limit + 1
  }

  ghost predicate Tried(b: Base, d: nat, limit: nat) {
    d < |b.clauses| && d !in b.garbage && 3 <= |Extract(b.clauses[d], b.units)| <= limit + 1
  }

  lemma NoXorGate(b: Base, occs: map<Lit, seq<nat>>, pivot: Lit, limit: nat, gates: seq<nat>, lits: Clause, q: nat)
    requires b.Valid() && Complete(b, occs)
    requires forall d :: d in Occs(occs, pivot) && Tried(b, d, limit) ==> Missing(b, Extract(b.clauses[d], b.units))
    ensures !IsXor(b, gates, lits, q, pivot, limit)
  {
    if q < |lits| && lits[q] == pivot && |gates| > 0 && NoDup(lits) &&
      Reads(b, gates[0], Lits(Signed(lits, EvenCode(0)))) {
      var d := gates[0];
      SignedZero(lits);
      Listed(b, occs, lits, pivot, d);
      var read := Extract(b.clauses[d], b.units);
      assert NoDup(b.clauses[d]);
      ExtractMeaning(b.clauses[d], b.units);
      NoDupSize(read);
      NoDupSize(lits);
      if Tried(b, d, limit) {
        MissingRefutes(b, read, gates, lits, q);
      }
    }
  }

  lemma SignedZero(lits: Clause)
    ensures EvenCode(0) == 0 && Signed(lits, 0) == lits
  {
    forall j | 0 <= j < |lits| ensures !Bit(0, j) { ZeroBits(j); }
  }

  lemma {:induction false} ZeroBits(j: nat)
    ensures !Bit(0, j)
  {
    if j > 0 { ZeroBits(j - 1); }
  }

  lemma SameMembers(b: Base, g: seq<nat>, h: seq<nat>, p: Lit)
    requires forall x :: x in g <==> x in h
    ensures IsGate(b, g, p) <==> IsGate(b, h, p)
    ensures NoneSatisfied(b, g) <==> NoneSatisfied(b, h)
  {
    forall m: Model
      ensures ForcedBy(b, g, p, m) == ForcedBy(b, h, p, m) && ForcedBy(b, g, Neg(p), m) == ForcedBy(b, h, Neg(p), m)
    {
    }
    assert forall i :: 0 <= i < |g| ==> g[i] in h;
    assert forall i :: 0 <= i < |h| ==> h[i] in g;
  }

  method FindXorGate(b: Base, occs: map<Lit, seq<nat>>, pivot: Lit, limit: nat) returns (gates: seq<nat>)
    requires b.Valid() && Occurring(b, occs) && pivot !in b.units && Neg(pivot) !in b.units
    ensures gates == [] || XorFound(b, gates, pivot, limit)
    ensures gates == [] && Complete(b, occs) ==> forall g, lits, q :: !IsXor(b, g, lits, q, pivot, limit)
  {
    var os := Occs(occs, pivot);
    for i := 0 to |os|
      invariant Complete(b, occs) ==>
        forall k :: 0 <= k < i && Tried(b, os[k], limit) ==> Missing(b, Extract(b.clauses[os[k]], b.units))
    {
      gates := XorFrom(b, occs, pivot, os[i], limit);
      if gates != [] { return; }
    }
    if Complete(b, occs) {
      forall g, lits, q ensures !IsXor(b, g, lits, q, pivot, limit) {
        NoXorGate(b, occs, pivot, limit, g, lits, q);
      }
    }
    gates := [];
  }

  // Live clauses of an exclusive-or, which define the pivot if and only if none is satisfied.
  ghost predicate XorFound(b: Base, gates: seq<nat>, p: Lit, limit: nat) {
    && (IsGate(b, gates, p) <==> NoneSatisfied(b, gates))
    && (forall x :: x in gates ==> x < |b.clauses| && x !in b.garbage && Occurs(p, b.clauses[x]))
    && (exists g, lits, q :: IsXor(b, g, lits, q, p, limit) && forall x :: x in g <==> x in gates)
  }

  lemma XorIsFound(b: Base, d: nat, gates: seq<nat>, lits: Clause, q: nat, p: Lit, limit: nat)
    requires b.Valid() && XorClauses(b, [d] + gates, lits, q) && lits[q] == p
    requires 3 <= |lits| <= limit + 1
    ensures XorFound(b, gates + [d], p, limit)
  {
    var all := [d] + gates;
    XorGate(b, all, lits, q);
    assert forall x :: x in all <==> x in gates + [d];
    SameMembers(b, all, gates + [d], lits[q]);
    forall x | x in all ensures x < |b.clauses| && x !in b.garbage && Occurs(lits[q], b.clauses[x]) {
      var k :| 0 <= k < |all| && all[k] == x;
      assert Reads(b, all[k], Lits(Signed(lits, EvenCode(k))));
      assert Signed(lits, EvenCode(k))[q] in Lits(Signed(lits, EvenCode(k)));
    }
    assert IsXor(b, all, lits, q, lits[q], limit);
  }

  // The clauses of the exclusive-or that one clause with the pivot belongs to.
  method XorFrom(b: Base, occs: map<Lit, seq<nat>>, pivot: Lit, d: nat, limit: nat) returns (gates: seq<nat>)
    requires b.Valid() && Occurring(b, occs) && pivot !in b.units && Neg(pivot) !in b.units
    requires d < |b.clauses| && pivot in b.clauses[d]
    ensures gates == [] || XorFound(b, gates, pivot, limit)
    ensures gates == [] && Complete(b, occs) && Tried(b, d, limit) ==> Missing(b, Extract(b.clauses[d], b.units))
  {
    gates := [];
    var found, lits := GetClause(b, d);
    if found && |lits| >= 3 && |lits| - 1 <= limit {
      assert forall l :: l in lits ==> l in Lits(lits) && l in Unassigned(b.clauses[d], b.units);
      assert !Tautology(b.clauses[d]);
      var total := Pow2(|lits| - 1);
      assert total == 2 * Pow2(|lits| - 2);
      ghost var k;
      gates, k := FindXorClauses(b, occs, lits, total, d);
      if gates != [] {
        ghost var q := PivotIndex(b, d, lits, pivot);
        XorIsFound(b, d, gates, lits, q, pivot, limit);
        gates := gates + [d];
      } else if Complete(b, occs) {
        CodeMissing(b, lits, k);
      }
    }
  }

  lemma PivotIndex(b: Base, d: nat, lits: Clause, pivot: Lit) returns (q: nat)
    requires Reads(b, d, Lits(lits)) && pivot in b.clauses[d]
    requires pivot !in b.units && Neg(pivot) !in b.units
    ensures q < |lits| && lits[q] == pivot
  {
    assert pivot in Unassigned(b.clauses[d], b.units);
    q :| 0 <= q < |lits| && lits[q] == pivot;
  }
}
