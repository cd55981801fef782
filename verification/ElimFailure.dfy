// Inputs on which elimination with an if-then-else or exclusive-or gate loses
// models (src/gates.cpp, src/elim.cpp).  Clause (-1, 2, -3, 9) is satisfied by
// the unit 9, which an earlier pivot assigned without propagating it.  The
// searches for equivalences and AND gates stop before they see 9, and the other
// two ignore it and take the clause for (-1, 2, -3).
module ElimFailure {
  import opened Cnf
  import opened Arithmetic
  import opened Extension
  import opened Resolution
  import opened Propagation
  import opened Gates
  import opened GatesTernaryXor
  import opened GateSearch
  import opened Resolvents
  import opened Removal
  import opened Attempts
  import opened Elim

  // With z = 4 an if-then-else of 2, with z = -3 an exclusive-or of 2 and 3.
  function SixClauses(z: Lit): seq<Clause> {
    [[1, 2, 3], [1, -2, z], [-1, 2, -3, 9], [-1, -2, Neg(z)], [1, 5], [-1, 6]]
  }

  predicate Chosen(z: Lit) { z == 4 || z == -3 }

  // The model that the entries pushed fail to repair.
  ghost function Broken(): Model { iset{3, 9} }

  ghost predicate SixFree(units: set<Lit>) {
    9 in units && forall l: Lit :: -6 <= l <= 6 ==> l !in units
  }

  // Data bases with these clauses, 9 assigned, and otherwise only clauses that
  // have neither 1 nor 5 and hold in that model.
  ghost predicate Spoiled(b: Base, z: Lit) {
    && Chosen(z) && b.Valid() && SixClauses(z) <= b.clauses && SixFree(b.units) && Agrees(Broken(), b.units)
    && (forall i :: 0 <= i < 6 ==> i !in b.garbage)
    && (forall i :: 6 <= i < |b.clauses| ==> Harmless(b, i))
  }

  ghost predicate Harmless(b: Base, i: nat)
    requires i < |b.clauses|
  {
    !Occurs(1, b.clauses[i]) && !Occurs(5, b.clauses[i]) && (i in b.garbage || Sat(Broken(), b.clauses[i]))
  }

  predicate OnPivotOne(q: Lit) { q == 1 || q == -1 }

  // Only the six clauses have the pivot.
  lemma AmongSix(b: Base, z: Lit, q: Lit, x: nat)
    requires Spoiled(b, z) && OnPivotOne(q) && x < |b.clauses| && q in b.clauses[x]
    ensures x < 6 && b.clauses[x] == SixClauses(z)[x] && b.clauses[x][0] == q
    ensures x in PivotSix(q)
  {
    assert x < 6 || Harmless(b, x);
    SixStart(z, q, x);
  }

  lemma SixStart(z: Lit, q: Lit, x: nat)
    requires Chosen(z) && OnPivotOne(q) && x < 6 && q in SixClauses(z)[x]
    ensures SixClauses(z)[x][0] == q && x in PivotSix(q)
  {
  }

  function PivotSix(q: Lit): set<nat> { if q == 1 then {0, 1, 4} else {2, 3, 5} }

  // ---------- The gate search ----------

  lemma LongClauses(z: Lit, y: nat, q: Lit, units: set<Lit>)
    requires Chosen(z) && SixFree(units) && OnPivotOne(q) && y < 4 && q in SixClauses(z)[y]
    ensures |Open(SixClauses(z)[y], q, units)| >= 2
  {
    var c := SixClauses(z)[y];
    assert c[1] in c && c[2] in c;
    assert {c[1], c[2]} <= Open(c, q, units);
    SubsetSize({c[1], c[2]}, Open(c, q, units));
  }

  // The only binary clauses of the pivot are (1, 5) and (-1, 6).
  lemma BinaryClauses(b: Base, z: Lit, y: nat, q: Lit, s: Lit)
    requires Spoiled(b, z) && OnPivotOne(q) && Binary(b, y, q, s)
    ensures (y == 4 && q == 1 && s == 5) || (y == 5 && q == -1 && s == 6)
  {
    AmongSix(b, z, q, y);
    var c := b.clauses[y];
    if y >= 4 {
      assert c[1] in c && c[1] in Open(c, q, b.units);
    } else {
      LongClauses(z, y, q, b.units);
      assert false;
    }
  }

  lemma NotNoticed(b: Base, z: Lit, x: nat, q: Lit)
    requires Spoiled(b, z) && OnPivotOne(q) && x < |b.clauses| && q in b.clauses[x]
    ensures !Noticed(b, x, q)
  {
    AmongSix(b, z, q, x);
    var c := b.clauses[x];
    assert Hidden(c, q, b.units) by {
      if x == 2 { assert Unset(c[1], b.units) && Unset(c[2], b.units); }
    }
    if x < 4 {
      assert Ahead(c, q, b.units, 1);
      forall y, s | Binary(b, y, Neg(q), s) ensures s != Neg(c[1]) {
        BinaryClauses(b, z, y, Neg(q), s);
      }
    }
  }

  lemma NotPaired(b: Base, z: Lit, x: nat, q: Lit, y: nat, r: Lit)
    requires Spoiled(b, z) && OnPivotOne(q) && OnPivotOne(r) && (x != y || q != r)
    ensures !Paired(b, x, q, y, r)
  {
    forall s, t | Binary(b, x, q, s) && Binary(b, y, r, t) ensures Var(s) != Var(t) {
      BinaryClauses(b, z, x, q, s);
      BinaryClauses(b, z, y, r, t);
    }
  }

  // No unit, equivalence or AND gate is found, and nothing is recognised as satisfied.
  lemma SpoiledQuiet(b: Base, z: Lit, occs: map<Lit, seq<nat>>)
    requires Spoiled(b, z) && Connected(b, occs)
    ensures Quiet(b, occs, 1)
  {
    forall q: Lit, x | OnPivotOne(q) && x in Occs(occs, q) ensures !Noticed(b, x, q) {
      assert Occurrences(b, q, occs[q]);
      NotNoticed(b, z, x, q);
    }
    forall x, y ensures !Paired(b, x, 1, y, -1) && (x != y ==> !Paired(b, x, 1, y, 1) && !Paired(b, x, -1, y, -1)) {
      NotPaired(b, z, x, 1, y, -1);
      if x != y {
        NotPaired(b, z, x, 1, y, 1);
        NotPaired(b, z, x, -1, y, -1);
      }
    }
    assert Neg(1) == -1;
  }

  // The literals of a gate clause.
  function Gate(z: Lit, k: nat): set<Lit> {
    if k == 0 then {1, 2, 3} else if k == 1 then {1, -2, z} else if k == 2 then {-1, 2, -3} else {-1, -2, Neg(z)}
  }

  lemma SixUnassigned(z: Lit, units: set<Lit>)
    requires Chosen(z) && SixFree(units)
    ensures forall k :: 0 <= k < 4 ==> Unassigned(SixClauses(z)[k], units) == Gate(z, k)
    ensures Unassigned(SixClauses(z)[4], units) == {1, 5} && Unassigned(SixClauses(z)[5], units) == {-1, 6}
  {
    forall k | 0 <= k < 4 ensures Unassigned(SixClauses(z)[k], units) == Gate(z, k) {
      var c := SixClauses(z)[k];
      assert c[0] in c && c[1] in c && c[2] in c;
    }
    assert 5 in [1, 5] && 6 in [-1, 6];
  }

  // How the clauses read with assigned literals left out.
  lemma SpoiledReads(b: Base, z: Lit)
    requires Spoiled(b, z)
    ensures forall k :: 0 <= k < 4 ==> Reads(b, k, Gate(z, k))
  {
    SixUnassigned(z, b.units);
    assert forall k :: 0 <= k < 4 ==> b.clauses[k] == SixClauses(z)[k];
  }

  // No other clause with the pivot reads as one of them.
  lemma ReadsOnly(b: Base, z: Lit, e: nat, k: nat)
    requires Spoiled(b, z) && k < 4 && Reads(b, e, Gate(z, k))
    ensures e == k
  {
    var q: Lit := if k < 2 then 1 else -1;
    assert q in Gate(z, k) && q in Unassigned(b.clauses[e], b.units);
    AmongSix(b, z, q, e);
    SixUnassigned(z, b.units);
    assert Gate(z, k) == if e < 4 then Gate(z, e) else Unassigned(SixClauses(z)[e], b.units);
    DifferentGates(z, k, e);
  }

  lemma DifferentGates(z: Lit, k: nat, e: nat)
    requires Chosen(z) && k < 4
    ensures e < 4 && e != k ==> Gate(z, k) != Gate(z, e)
    ensures Gate(z, k) != {1, 5} && Gate(z, k) != {-1, 6}
  {
    assert 2 in Gate(z, k) || -2 in Gate(z, k);
    assert (1 in Gate(z, k) <==> k < 2) && (2 in Gate(z, k) <==> k == 0 || k == 2);
    assert e < 4 ==> (1 in Gate(z, e) <==> e < 2) && (2 in Gate(z, e) <==> e == 0 || e == 2);
  }

  // A clause with the pivot that reads as three literals is one of the four.
  lemma ReadsThree(b: Base, z: Lit, e: nat, q: Lit, lits: set<Lit>)
    requires Spoiled(b, z) && Reads(b, e, lits) && OnPivotOne(q) && q in lits && |lits| >= 3
    ensures e < 4 && lits == Gate(z, e)
  {
    assert q in Unassigned(b.clauses[e], b.units);
    AmongSix(b, z, q, e);
    SixUnassigned(z, b.units);
  }

  lemma SpoiledTernary(units: set<Lit>, z: Lit)
    requires SixFree(units) && Chosen(z)
    ensures Extract([1, 2, 3], units) == [1, 2, 3] && Extract([1, -2, z], units) == [1, -2, z]
  {
    ExtractAll([1, 2, 3], units);
    ExtractAll([1, -2, z], units);
  }

  // Clauses 0 and 1 make an if-then-else in either order.
  lemma SpoiledIteAt(b: Base)
    requires Spoiled(b, 4)
    ensures IteAt(b, 0, 1, 1) && IteAt(b, 1, 0, 1)
  {
    SpoiledPresent(b);
    SpoiledTernary(b.units, 4);
    assert b.clauses[0] == [1, 2, 3] && b.clauses[1] == [1, -2, 4];
    assert IteElse(b, 1, 1, 2, 3, 4) && IteElse(b, 0, 1, -2, 4, 3);
  }

  lemma SpoiledPresent(b: Base)
    requires Spoiled(b, 4)
    ensures Present(b, {Neg(1), 2, Neg(3)}) && Present(b, {Neg(1), Neg(-2), Neg(3)})
    ensures Present(b, {Neg(1), -2, Neg(4)}) && Present(b, {Neg(1), Neg(2), Neg(4)})
    ensures Reads(b, 0, {1, Neg(-2), 3}) && Reads(b, 1, {1, Neg(2), 4})
  {
    SpoiledReads(b, 4);
    assert Reads(b, 0, Gate(4, 0)) && Reads(b, 1, Gate(4, 1)) && Reads(b, 2, Gate(4, 2)) && Reads(b, 3, Gate(4, 3));
    assert Gate(4, 0) == {1, Neg(-2), 3} && Gate(4, 1) == {1, Neg(2), 4};
    assert Gate(4, 2) == {Neg(1), 2, Neg(3)} == {Neg(1), Neg(-2), Neg(3)};
    assert Gate(4, 3) == {Neg(1), -2, Neg(4)} == {Neg(1), Neg(2), Neg(4)};
  }

  lemma SpoiledIte(b: Base, occs: map<Lit, seq<nat>>)
    requires Spoiled(b, 4) && Connected(b, occs)
    ensures IteListed(b, Occs(occs, 1), 1)
  {
    var os := Occs(occs, 1);
    SpoiledIteAt(b);
    assert 0 in os && 1 in os by { assert 1 in b.clauses[0] && 1 in b.clauses[1]; }
    BothListed(b, os);
  }

  lemma BothListed(b: Base, os: seq<nat>)
    requires 0 in os && 1 in os && IteAt(b, 0, 1, 1) && IteAt(b, 1, 0, 1)
    ensures IteListed(b, os, 1)
  {
    var i, j :| 0 <= i < |os| && os[i] == 0 && 0 <= j < |os| && os[j] == 1;
    assert if i < j then IteRow(b, os, i, 1) else IteRow(b, os, j, 1);
  }

  // With z = -3 no third variable is left for an if-then-else.
  lemma SpoiledNoIte(b: Base, occs: map<Lit, seq<nat>>)
    requires Spoiled(b, -3) && Connected(b, occs)
    ensures !IteListed(b, Occs(occs, 1), 1)
  {
    var os := Occs(occs, 1);
    forall i, j | 0 <= i < |os| && 0 <= j < |os| ensures !IteAt(b, os[i], os[j], 1) {
      assert Occurrences(b, 1, occs[1]);
      AmongSix(b, -3, 1, os[i]);
      AmongSix(b, -3, 1, os[j]);
      NoIteAt(b, os[i], os[j]);
    }
  }

  lemma NoIteAt(b: Base, di: nat, dj: nat)
    requires Spoiled(b, -3) && di in {0, 1, 4} && dj in {0, 1, 4}
    ensures !IteAt(b, di, dj, 1)
  {
    SpoiledTernary(b.units, -3);
    ExtractShorter([1, 5], b.units);
    assert b.clauses[0] == [1, 2, 3] && b.clauses[1] == [1, -2, -3] && b.clauses[4] == [1, 5];
    if di != 4 && dj != 4 {
      var (x, y) := Others(Extract(b.clauses[di], b.units), 1);
      NoThird(b, dj, x, y);
    }
  }

  lemma NoThird(b: Base, dj: nat, x: Lit, y: Lit)
    requires Spoiled(b, -3) && (dj == 0 || dj == 1) && Var(x) == 2 && Var(y) == 3
    ensures forall z :: !IteElse(b, dj, 1, x, y, z)
  {
    SpoiledReads(b, -3);
    forall z | Reads(b, dj, {1, Neg(x), z}) ensures Var(z) in {1, 2, 3} {
      assert z in Gate(-3, dj);
    }
  }

  // The signs of the four even codes over three literals.
  lemma EvenSigns(c: Clause)
    requires |c| == 3
    ensures Signed(c, EvenCode(0)) == c && Signed(c, EvenCode(1)) == [Neg(c[0]), Neg(c[1]), c[2]]
    ensures Signed(c, EvenCode(2)) == [Neg(c[0]), c[1], Neg(c[2])]
    ensures Signed(c, EvenCode(3)) == [c[0], Neg(c[1]), Neg(c[2])]
  {
    SignedZero(c);
    assert Parity(1) && Parity(2) && !Parity(3);
    assert EvenCode(1) == 3 && EvenCode(2) == 5 && EvenCode(3) == 6;
    assert Bit(3, 0) && Bit(3, 1) && !Bit(3, 2);
    assert Bit(5, 0) && !Bit(5, 1) && Bit(5, 2);
    assert !Bit(6, 0) && Bit(6, 1) && Bit(6, 2);
  }

  lemma FourCodes(b: Base, g: seq<nat>, c: Clause)
    requires |c| == 3 && |g| == 4 && Reads(b, g[0], {c[0], c[1], c[2]})
    requires Reads(b, g[1], {Neg(c[0]), Neg(c[1]), c[2]})
    requires Reads(b, g[2], {Neg(c[0]), c[1], Neg(c[2])})
    requires Reads(b, g[3], {c[0], Neg(c[1]), Neg(c[2])})
    ensures CodesRead(b, g, c)
  {
    EvenSigns(c);
    forall k | 0 <= k < 4 ensures Reads(b, g[k], Lits(Signed(c, EvenCode(k)))) {
      var s := Signed(c, EvenCode(k));
      assert Lits(s) == {s[0], s[1], s[2]};
    }
  }

  lemma SpoiledXor(b: Base, limit: nat)
    requires Spoiled(b, -3) && limit >= 2
    ensures HasXor(b, 1, limit)
  {
    var c, g := [1, 2, 3], [0, 3, 2, 1];
    SpoiledReads(b, -3);
    assert Reads(b, 0, Gate(-3, 0)) && Reads(b, 1, Gate(-3, 1)) && Reads(b, 2, Gate(-3, 2)) && Reads(b, 3, Gate(-3, 3));
    FourCodes(b, g, c);
    ThreeLiterals(b, g, c);
    assert IsXor(b, g, c, 0, 1, limit);
  }

  lemma ThreeLiterals(b: Base, g: seq<nat>, c: Clause)
    requires c == [1, 2, 3] && |g| == 4 && CodesRead(b, g, c)
    ensures XorClauses(b, g, c, 0)
  {
    assert Pow2(2) == 4;
    assert !Tautology(c) by {
      forall l | l in c ensures Neg(l) !in c {
      }
    }
  }

  // ---------- The gate found ----------

  // Every if-then-else found consists of the four clauses.
  lemma IteIsFour(b: Base, gates: seq<nat>)
    requires Spoiled(b, 4) && IteFound(b, gates, 1)
    ensures (set x | x in gates) == {0, 1, 2, 3}
  {
    var x, y, w :| IteClauses(b, gates, 1, x, y, w);
    IteFour(b, gates, x, y, w);
    FourAreAll(gates);
  }

  lemma IteFour(b: Base, gates: seq<nat>, x: Lit, y: Lit, w: Lit)
    requires Spoiled(b, 4) && IteClauses(b, gates, 1, x, y, w)
    ensures |gates| == 4 && forall t :: 0 <= t < 4 ==> t in gates
  {
    IteHalf(b, gates[0], gates[1], 1, x, y, w);
    IteHalf(b, gates[2], gates[3], -1, x, Neg(y), Neg(w));
    BothHalves(gates);
  }

  lemma BothHalves(g: seq<nat>)
    requires |g| == 4 && {g[0], g[1]} == {0, 1} && {g[2], g[3]} == {2, 3}
    ensures forall t :: 0 <= t < 4 ==> t in g
  {
    assert 0 in {g[0], g[1]} && 1 in {g[0], g[1]} && 2 in {g[2], g[3]} && 3 in {g[2], g[3]};
  }

  lemma IteHalf(b: Base, i: nat, j: nat, q: Lit, x: Lit, y: Lit, w: Lit)
    requires Spoiled(b, 4) && OnPivotOne(q) && Var(x) != 1 && Var(y) != 1 && Var(w) != 1
    requires Var(x) != Var(y) && Var(x) != Var(w) && Reads(b, i, {q, x, y}) && Reads(b, j, {q, Neg(x), w})
    ensures {i, j} == if q == 1 then {0, 1} else {2, 3}
  {
    Three(q, x, y);
    Three(q, Neg(x), w);
    ReadsThree(b, 4, i, q, {q, x, y});
    ReadsThree(b, 4, j, q, {q, Neg(x), w});
    OppositeGates(i, j, q, x);
  }

  lemma Three(p: Lit, x: Lit, y: Lit)
    requires Var(x) != Var(p) && Var(y) != Var(p) && Var(x) != Var(y)
    ensures |{p, x, y}| == 3
  {
  }

  lemma OppositeGates(i: nat, j: nat, q: Lit, x: Lit)
    requires i < 4 && j < 4 && OnPivotOne(q) && q in Gate(4, i) && q in Gate(4, j)
    requires x in Gate(4, i) && Neg(x) in Gate(4, j) && Var(x) != 1
    ensures {i, j} == if q == 1 then {0, 1} else {2, 3}
  {
  }

  // The code of a gate clause of the exclusive-or in a permutation of another one.
  lemma CodeOf(d: nat, lits: Clause, t: nat) returns (k: nat)
    requires d < 2 && t < 4 && NoDup(lits) && Lits(lits) == Gate(-3, d)
    ensures |lits| == 3 && k < Pow2(2) && Lits(Signed(lits, EvenCode(k))) == Gate(-3, t)
  {
    var c := if d == 0 then [1, 2, 3] else [1, -2, -3];
    CodeSigns(c, d, t);
    assert Pow2(2) == 4;
    k := Reordered(c, lits, CodeNumber(d, t));
  }

  lemma CodeSigns(c: Clause, d: nat, t: nat)
    requires d < 2 && t < 4 && c == if d == 0 then [1, 2, 3] else [1, -2, -3]
    ensures Lits(c) == Gate(-3, d) && Lits(Signed(c, EvenCode(CodeNumber(d, t)))) == Gate(-3, t)
  {
    EvenSigns(c);
    var s := Signed(c, EvenCode(CodeNumber(d, t)));
    assert Lits(c) == {c[0], c[1], c[2]} && Lits(s) == {s[0], s[1], s[2]};
  }

  function CodeNumber(d: nat, t: nat): nat {
    if t == d then 0 else if t < 2 then 3 else if (t == 2) == (d == 0) then 2 else 1
  }

  // Every exclusive-or found consists of the four clauses.
  lemma XorIsFour(b: Base, gates: seq<nat>, limit: nat)
    requires Spoiled(b, -3) && XorFound(b, gates, 1, limit)
    ensures (set x | x in gates) == {0, 1, 2, 3}
  {
    var g, lits, q :| IsXor(b, g, lits, q, 1, limit) && forall x :: x in g <==> x in gates;
    XorFour(b, g, lits, q, limit);
    FourAreAll(g);
    assert (set x | x in gates) == (set x | x in g);
  }

  lemma XorFour(b: Base, g: seq<nat>, lits: Clause, q: nat, limit: nat)
    requires Spoiled(b, -3) && IsXor(b, g, lits, q, 1, limit)
    ensures |g| == 4 && forall t :: 0 <= t < 4 ==> t in g
  {
    XorStart(b, g, lits, q, limit);
    forall t | 0 <= t < 4 ensures t in g {
      var k := CodeOf(g[0], lits, t);
      assert Reads(b, g[k], Gate(-3, t));
      ReadsOnly(b, -3, g[k], t);
    }
  }

  lemma XorStart(b: Base, g: seq<nat>, lits: Clause, q: nat, limit: nat)
    requires Spoiled(b, -3) && IsXor(b, g, lits, q, 1, limit)
    ensures |lits| == 3 && |g| == Pow2(2) == 4 && g[0] < 2 && Lits(lits) == Gate(-3, g[0])
  {
    SignedZero(lits);
    NoDupSize(lits);
    assert lits[q] in Lits(lits) && Reads(b, g[0], Lits(lits));
    ReadsThree(b, -3, g[0], 1, Lits(lits));
    assert 1 in Gate(-3, g[0]);
    var k := CodeOf(g[0], lits, 0);
  }

  lemma FourAreAll(g: seq<nat>)
    requires |g| == 4 && forall t :: 0 <= t < 4 ==> t in g
    ensures (set x | x in g) == {0, 1, 2, 3}
  {
    var s := set x | x in g;
    assert s == {g[0], g[1], g[2], g[3]};
    assert {0, 1, 2, 3} <= s;
    assert |s - {0, 1, 2, 3}| == |s| - 4;
  }

  // The searches needed are switched on.
  predicate Looking(opts: Options, z: Lit) {
    opts.subst && if z == 4 then opts.ites else opts.xors && opts.xorLimit >= 2
  }

  function KindOf(z: Lit): GateKind { if z == 4 then IfThenElse else ExclusiveOr }

  lemma SpoiledKind(b: Base, z: Lit, occs: map<Lit, seq<nat>>, opts: Options)
    requires Spoiled(b, z) && Connected(b, occs) && Looking(opts, z)
    ensures SearchedGate(b, occs, 1, opts) == KindOf(z)
  {
    if z == 4 {
      SpoiledIte(b, occs);
    } else {
      SpoiledNoIte(b, occs);
      SpoiledXor(b, opts.xorLimit);
    }
  }

  lemma SpoiledFour(b: Base, z: Lit, gates: seq<nat>, opts: Options)
    requires Spoiled(b, z) && gates != [] && GateFound(b, gates, 1, KindOf(z), opts)
    ensures (set x | x in gates) == {0, 1, 2, 3} && !IsGate(b, gates, 1)
  {
    if z == 4 {
      IteIsFour(b, gates);
    } else {
      XorIsFour(b, gates, opts.xorLimit);
    }
    HasSatisfied(b, z, gates);
  }

  lemma HasSatisfied(b: Base, z: Lit, gates: seq<nat>)
    requires Spoiled(b, z) && 2 in (set x | x in gates)
    ensures !NoneSatisfied(b, gates)
  {
    assert Satisfied(b.clauses[2], b.units) by { assert b.clauses[2][3] in b.clauses[2]; }
    var k :| 0 <= k < |gates| && gates[k] == 2;
  }

  // The whole search ends with clauses that do not define the pivot.
  method SpoiledGate(b: Base, z: Lit, occs: map<Lit, seq<nat>>, opts: Options)
    returns (gates: seq<nat>, kind: GateKind)
    requires Spoiled(b, z) && Connected(b, occs) && Looking(opts, z)
    ensures (set x | x in gates) == {0, 1, 2, 3} && kind == KindOf(z) && !IsGate(b, gates, 1)
  {
    SpoiledQuiet(b, z, occs);
    var db, unsat;
    db, unsat, gates, kind := SearchGates(b, occs, 1, opts);
    SpoiledSearch(b, db, z, occs, gates, kind, opts);
  }

  lemma SpoiledSearch(b: Base, b': Base, z: Lit, occs: map<Lit, seq<nat>>, gates: seq<nat>, kind: GateKind,
        opts: Options)
    requires Spoiled(b, z) && Connected(b, occs) && Looking(opts, z) && Quiet(b, occs, 1)
    requires Searched(b, b', occs, 1, opts, gates, kind)
    ensures b' == b && (set x | x in gates) == {0, 1, 2, 3} && kind == KindOf(z) && !IsGate(b, gates, 1)
  {
    SpoiledKind(b, z, occs, opts);
    SpoiledFour(b, z, gates, opts);
  }

  // ---------- The resolvents ----------

  // The live clauses with q.
  ghost predicate Having(b: Base, q: Lit, ids: set<nat>) {
    forall x: nat :: x in ids <==> x < |b.clauses| && x !in b.garbage && q in b.clauses[x]
  }

  lemma ListHas(b: Base, occs: map<Lit, seq<nat>>, q: Lit, ids: set<nat>)
    requires Connected(b, occs) && Having(b, q, ids) && Neg(q) !in b.units
    requires Distinct(Occs(occs, q)) && forall x :: x in Occs(occs, q) ==> x !in b.garbage
    ensures Elements(Occs(occs, q)) == ids && |Occs(occs, q)| == |ids|
  {
    var os := Occs(occs, q);
    assert q in occs ==> Occurrences(b, q, occs[q]);
    assert Elements(os) == ids;
    DistinctSize(os);
  }

  lemma SixHave(b: Base, z: Lit, q: Lit)
    requires Spoiled(b, z) && OnPivotOne(q)
    ensures Having(b, q, PivotSix(q)) && |PivotSix(q)| == 3
  {
    forall x: nat | x < |b.clauses| && x !in b.garbage && q in b.clauses[x] ensures x in PivotSix(q) {
      AmongSix(b, z, q, x);
    }
    forall x | x in PivotSix(q) ensures x < |b.clauses| && x !in b.garbage && q in b.clauses[x] {
      assert b.clauses[x] == SixClauses(z)[x] && b.clauses[x][0] == q;
    }
  }

  // The pivot with its clauses and the gate, in a data base where at most the
  // satisfied clause is gone and all clauses added hold in the model.
  ghost predicate Steady(b: Base, now: Base) {
    && b.clauses <= now.clauses && now.units == b.units && b.garbage <= now.garbage <= b.garbage + {2}
    && forall i :: |b.clauses| <= i < |now.clauses| ==> Sat(Broken(), now.clauses[i])
  }

  ghost predicate PivotOne(b: Base, z: Lit, t: Pivot) {
    && Spoiled(b, z) && Steady(b, t.b) && t.p == 1 && t.gate == {0, 1, 2, 3}
    && Elements(t.ps) == {0, 1, 4} && Elements(t.ns) == {2, 3, 5}
  }

  predicate HasResolvent(ci: nat, di: nat) {
    (ci == 0 && di == 5) || (ci == 1 && di == 5) || (ci == 4 && di == 3)
  }

  lemma OpenSix(z: Lit, units: set<Lit>)
    requires Chosen(z) && SixFree(units)
    ensures Open(SixClauses(z)[0], 1, units) == {2, 3} && Open(SixClauses(z)[1], 1, units) == {-2, z}
    ensures Open(SixClauses(z)[4], 1, units) == {5} && Open(SixClauses(z)[5], -1, units) == {6}
    ensures Open(SixClauses(z)[3], -1, units) == {-2, Neg(z)}
  {
    assert [1, 2, 3][1] == 2 && [1, 2, 3][2] == 3 && [1, -2, z][1] == -2 && [1, -2, z][2] == z;
    assert [-1, -2, Neg(z)][1] == -2 && [-1, -2, Neg(z)][2] == Neg(z) && [1, 5][1] == 5 && [-1, 6][1] == 6;
  }

  function MergeSix(z: Lit, ci: nat): set<Lit> {
    if ci == 0 then {2, 3, 6} else if ci == 1 then {-2, z, 6} else {5, -2, Neg(z)}
  }

  lemma PairMerge(b: Base, z: Lit, now: Base, ci: nat, di: nat)
    requires Spoiled(b, z) && Steady(b, now) && HasResolvent(ci, di)
    ensures !Stuck(now, 1, ci, di) && Merge(now, 1, ci, di) == MergeSix(z, ci)
    ensures Merge(now, 1, ci, di) != Open(now.clauses[ci], 1, now.units)
    ensures Merge(now, 1, ci, di) != Open(now.clauses[di], -1, now.units)
  {
    assert now.clauses[ci] == SixClauses(z)[ci] && now.clauses[di] == SixClauses(z)[di];
    OpenSix(z, now.units);
    SixNotStuck(z, now.units, ci, di);
    var here, other := if ci == 4 then -2 else 6, if ci == 0 then 2 else if ci == 1 then -2 else 5;
    assert here in Merge(now, 1, ci, di) && here !in Open(now.clauses[ci], 1, now.units);
    assert other in Merge(now, 1, ci, di) && other !in Open(now.clauses[di], -1, now.units);
  }

  lemma MergeSizes(z: Lit, ci: nat)
    requires Chosen(z)
    ensures |MergeSix(z, ci)| == 3 && (-2 in MergeSix(z, ci) || 3 in MergeSix(z, ci))
  {
  }

  lemma SixNotStuck(z: Lit, units: set<Lit>, ci: nat, di: nat)
    requires Chosen(z) && SixFree(units) && HasResolvent(ci, di)
    ensures !RestSatisfied(SixClauses(z)[ci], 1, units) && !RestSatisfied(SixClauses(z)[di], -1, units)
    ensures !Clash(SixClauses(z)[ci], 1, SixClauses(z)[di])
  {
  }

  // The only other pair wanted removes the satisfied clause.
  lemma SatisfiedPair(b: Base, z: Lit, now: Base, e: Effect)
    requires Spoiled(b, z) && Steady(b, now) && 4 !in now.garbage && 2 !in now.garbage && Resolves(now, e, 1, 4, 2)
    ensures e.Changed? && e.unit == 0 && e.base == now.(garbage := now.garbage + {2})
  {
    var c, d := now.clauses[4], now.clauses[2];
    assert c == [1, 5] && d == [-1, 2, -3, 9];
    assert d[3] == 9 && 9 in now.units;
    assert RestSatisfied(d, -1, now.units) && Stuck(now, 1, 4, 2);
    assert !RestSatisfied(c, 1, now.units) && !Clash(c, 1, d);
  }

  lemma OnlyResolvent(b: Base, p: Lit, ci: nat, di: nat, e: Effect)
    requires ci < |b.clauses| && di < |b.clauses| && Resolves(b, e, p, ci, di) && !Stuck(b, p, ci, di)
    requires |Merge(b, p, ci, di)| > 1 && Merge(b, p, ci, di) != Open(b.clauses[ci], p, b.units)
    requires Merge(b, p, ci, di) != Open(b.clauses[di], Neg(p), b.units)
    ensures e.NewResolvent? && Lits(e.clause) == Merge(b, p, ci, di)
  {
  }

  lemma ResolventPair(b: Base, z: Lit, now: Base, ci: nat, di: nat, e: Effect)
    requires Spoiled(b, z) && Steady(b, now) && HasResolvent(ci, di) && Resolves(now, e, 1, ci, di)
    ensures e.NewResolvent? && Sat(Broken(), e.clause)
  {
    PairMerge(b, z, now, ci, di);
    MergeSizes(z, ci);
    OnlyResolvent(now, 1, ci, di, e);
    HoldsInBroken(e.clause);
  }

  lemma HoldsInBroken(c: Clause)
    requires -2 in Lits(c) || 3 in Lits(c)
    ensures Sat(Broken(), c)
  {
    assert True(Broken(), -2) && True(Broken(), 3);
  }

  lemma WantedPair(b: Base, z: Lit, t: Pivot, now: Base, i: nat, j: nat)
    requires PivotOne(b, z, t) && Steady(b, now) && i < |t.ps| && j < |t.ns| && t.Wanted(now, t.ps[i], t.ns[j])
    ensures HasResolvent(t.ps[i], t.ns[j]) || (t.ps[i] == 4 && t.ns[j] == 2)
  {
    assert t.ps[i] in Elements(t.ps) && t.ns[j] in Elements(t.ns);
  }

  lemma CountSteadyStep(b: Base, z: Lit, t: Pivot, now: Base, now': Base, i: nat, j: nat, counted: bool)
    requires PivotOne(b, z, t) && Steady(b, now) && t.In(i, j) && t.b.clauses <= now.clauses
    requires t.CountStep(now, now', i, j, counted)
    ensures Steady(b, now') && (counted ==> HasResolvent(t.ps[i], t.ns[j]))
  {
    var ci, di := t.ps[i], t.ns[j];
    if t.Wanted(now, ci, di) {
      WantedPair(b, z, t, now, i, j);
      var e :| Resolves(now, e, 1, ci, di) && CountEffect(now, e, now', counted);
      if HasResolvent(ci, di) {
        ResolventPair(b, z, now, ci, di, e);
      } else {
        SatisfiedPair(b, z, now, e);
      }
    }
  }

  lemma AddSteadyStep(b: Base, z: Lit, t: Pivot, now: Base, now': Base, i: nat, j: nat)
    requires PivotOne(b, z, t) && Steady(b, now) && t.In(i, j) && t.b.clauses <= now.clauses
    requires t.AddStep(now, now', i, j)
    ensures Steady(b, now')
  {
    var ci, di := t.ps[i], t.ns[j];
    if t.Wanted(now, ci, di) {
      WantedPair(b, z, t, now, i, j);
      var e :| Resolves(now, e, 1, ci, di) && AddEffect(now, e, now');
      if HasResolvent(ci, di) {
        ResolventPair(b, z, now, ci, di, e);
      } else {
        SatisfiedPair(b, z, now, e);
      }
    }
  }

  // The pairs counted have a resolvent.
  ghost predicate OnlyResolvents(t: Pivot, r: set<(nat, nat)>) {
    forall k: nat, l: nat :: (k, l) in r ==> k < |t.ps| && l < |t.ns| && HasResolvent(t.ps[k], t.ns[l])
  }

  lemma {:induction false} CountSteady(b: Base, z: Lit, t: Pivot, i: nat, j: nat, now: Base, r: set<(nat, nat)>)
    requires PivotOne(b, z, t) && t.CountRun(i, j, now, r)
    ensures Steady(b, now) && OnlyResolvents(t, r)
    decreases i, j
  {
    if j > 0 {
      assert t.CountAfter(i, j - 1, now, r);
      var b0, r0, counted :| t.CountLast(b0, r0, i, j - 1, now, r, counted);
      CountSteady(b, z, t, i, j - 1, b0, r0);
      CountSteadyStep(b, z, t, b0, now, i, j - 1, counted);
    } else if i > 0 {
      CountSteady(b, z, t, i - 1, |t.ns|, now, r);
    }
  }

  lemma {:induction false} AddSteady(b: Base, z: Lit, t: Pivot, i: nat, j: nat, now: Base)
    requires PivotOne(b, z, t) && t.AddRun(i, j, now)
    ensures Steady(b, now)
    decreases i, j
  {
    if j > 0 {
      assert t.AddAfter(i, j - 1, now);
      var b0 :| t.AddLast(b0, i, j - 1, now);
      AddSteady(b, z, t, i, j - 1, b0);
      AddSteadyStep(b, z, t, b0, now, i, j - 1);
    } else if i > 0 {
      AddSteady(b, z, t, i - 1, |t.ns|, now);
    }
  }

  lemma FewResolvents(b: Base, z: Lit, t: Pivot, r: set<(nat, nat)>)
    requires PivotOne(b, z, t) && OnlyResolvents(t, r) && |t.ps| == |t.ns| == 3 && Distinct(t.ps) && Distinct(t.ns)
    ensures |r| <= 4
  {
    var i :| 0 <= i < 3 && t.ps[i] == 4;
    var j :| 0 <= j < 3 && t.ns[j] == 5;
    var k :| 0 <= k < 3 && t.ns[k] == 3;
    var all: set<(nat, nat)> := {(0, j), (1, j), (2, j), (i, k)};
    forall x | x in r ensures x in all {
      assert (x.0, x.1) in r;
    }
    assert |all| <= 4 && |all - r| == |all| - |r|;
  }

  // Counting never stops early.
  lemma NotTooMuch(b: Base, z: Lit, t: Pivot, i: nat, j: nat, now: Base, r: set<(nat, nat)>, bound: int, limit: nat)
    requires PivotOne(b, z, t) && |t.ps| == |t.ns| == 3 && Distinct(t.ps) && Distinct(t.ns) && bound >= 4 && limit >= 3
    ensures !t.TooMuch(i, j, now, r, bound, limit)
  {
    if t.In(i, j) && t.CountRun(i, j + 1, now, r) {
      CountSteady(b, z, t, i, j + 1, now, r);
      FewResolvents(b, z, t, r);
      if (i, j) in r {
        PairMerge(b, z, now, t.ps[i], t.ns[j]);
        MergeSizes(z, t.ps[i]);
      }
    }
  }

  // ---------- The attempt ----------

  lemma StartLists(a: Attempt, ps: set<nat>, ns: set<nat>)
    requires a.Starts() && Having(a.before, a.pivot, ps) && Having(a.before, Neg(a.pivot), ns) && |ps| == |ns|
    ensures a.p == a.pivot && Elements(a.Positive()) == ps && Elements(a.Negative()) == ns
    ensures |a.Positive()| == |a.Negative()| == |ps|
  {
    assert Neg(Neg(a.pivot)) == a.pivot;
    ListHas(a.before, a.occs, a.pivot, ps);
    ListHas(a.before, a.occs, Neg(a.pivot), ns);
  }

  lemma SpoiledStarts(a: Attempt, z: Lit)
    requires Spoiled(a.before, z) && a.Starts() && a.pivot == 1
    ensures a.p == 1 && Elements(a.Positive()) == {0, 1, 4} && Elements(a.Negative()) == {2, 3, 5}
    ensures |a.Positive()| == |a.Negative()| == 3
  {
    SixHave(a.before, z, 1);
    SixHave(a.before, z, -1);
    StartLists(a, PivotSix(1), PivotSix(-1));
  }

  lemma SpoiledSearches(a: Attempt, z: Lit, opts: Options)
    requires Spoiled(a.before, z) && Looking(opts, z)
    requires a.Starts() && a.p == 1 && a.Positive() != [] && a.Searches(opts)
    ensures a.searched == a.before && (set x | x in a.gates) == {0, 1, 2, 3}
  {
    SpoiledQuiet(a.before, z, a.occs);
    SpoiledSearch(a.before, a.searched, z, a.occs, a.gates, a.kind, opts);
  }

  // Limits that do not matter for three clauses of either sign and resolvents of size three.
  predicate Ample(opts: Options) {
    opts.bound >= -1 && opts.clauseLimit >= 3 && opts.occLimit >= 3
  }

  lemma NeverStops(b: Base, z: Lit, t: Pivot, now: Base, r: set<(nat, nat)>, bound: int, limit: nat)
    requires PivotOne(b, z, t) && |t.ps| == |t.ns| == 3 && Distinct(t.ps) && Distinct(t.ns) && bound >= 4 && limit >= 3
    ensures !t.Stopped(now, r, bound, limit)
  {
    forall i: nat, j: nat ensures !t.TooMuch(i, j, now, r, bound, limit) {
      NotTooMuch(b, z, t, i, j, now, r, bound, limit);
    }
  }

  lemma SpoiledTried(a: Attempt, z: Lit, opts: Options)
    requires Spoiled(a.before, z) && a.Ok({}, opts) && a.pivot == 1 && opts.occLimit >= 3
    ensures a.end != PassedOver && a.end != TooFrequent && a.Starts() && a.Searches(opts)
  {
    if a.end != PassedOver { SpoiledStarts(a, z); }
  }

  lemma SpoiledCounting(a: Attempt, z: Lit, opts: Options)
    requires Spoiled(a.before, z) && a.Starts() && a.Searches(opts) && a.pivot == 1 && Looking(opts, z)
    ensures a.searched == a.before && a.p == 1 && PivotOne(a.before, z, a.Counting())
    ensures |a.Positive()| == |a.Negative()| == 3
  {
    SpoiledStarts(a, z);
    SpoiledSearches(a, z, opts);
  }

  lemma SpoiledEnd(a: Attempt, z: Lit, opts: Options)
    requires Spoiled(a.before, z) && a.Ok({}, opts) && a.pivot == 1 && Looking(opts, z) && Ample(opts)
    ensures a.end == Eliminated && PivotOne(a.before, z, a.Counting()) && |a.Positive()| == 3
  {
    SpoiledTried(a, z, opts);
    SpoiledCounting(a, z, opts);
    NeverBounded(a.before, z, a.Counting(), a.counted, a.r, opts.bound, opts.clauseLimit);
    GoesOn(a, opts);
  }

  lemma NeverBounded(b: Base, z: Lit, t: Pivot, now: Base, r: set<(nat, nat)>, extra: int, limit: nat)
    requires PivotOne(b, z, t) && |t.ps| == |t.ns| == 3 && Distinct(t.ps) && Distinct(t.ns) && extra >= -1 && limit >= 3
    ensures !t.NotBounded(now, r, extra, limit)
  {
    NeverStops(b, z, t, now, r, |t.ps| + |t.ns| + extra, limit);
  }

  lemma GoesOn(a: Attempt, opts: Options)
    requires a.Ok({}, opts) && a.end != PassedOver && a.end != TooFrequent && Unset(a.p, a.searched.units)
    requires !a.Counting().NotBounded(a.counted, a.r, opts.bound, opts.clauseLimit)
    ensures a.end == Eliminated
  {
  }

  lemma SpoiledEliminated(a: Attempt, z: Lit, opts: Options)
    requires Spoiled(a.before, z) && a.Ok({}, opts) && a.pivot == 1 && Looking(opts, z) && Ample(opts)
    ensures a.end == Eliminated && PivotOne(a.before, z, a.Adding()) && Steady(a.before, a.added)
  {
    SpoiledEnd(a, z, opts);
    CountSteady(a.before, z, a.Counting(), 3, 0, a.counted, a.r);
    AddSteady(a.before, z, a.Adding(), 3, 0, a.added);
  }

  // In that model the clauses left and those saved hold, but not (1, 5).
  lemma SpoiledAttempt(a: Attempt, z: Lit, opts: Options)
    requires Spoiled(a.before, z) && a.Ok({}, opts) && a.pivot == 1 && Looking(opts, z) && Ample(opts)
    ensures a.end == Eliminated && Models(Broken(), a.after.Formula())
    ensures Replay(a.Entries(), Broken()) == Broken() && !Models(Broken(), a.before.Formula())
  {
    SpoiledEliminated(a, z, opts);
    BrokenLeft(a.before, z, a.Adding(), a.added);
    FormulaModels(a.after, Broken());
    BrokenEntries(a.before, z, a.Adding(), a.added, a.ep, a.en);
    ReplaySatisfied(a.Entries(), Broken());
    BrokenFails(a.before, z);
  }

  lemma BrokenFails(b: Base, z: Lit)
    requires Spoiled(b, z)
    ensures !Models(Broken(), b.Formula())
  {
    FormulaModels(b, Broken());
    assert b.clauses[4] == [1, 5] && !Sat(Broken(), b.clauses[4]);
  }

  lemma BrokenLeft(b: Base, z: Lit, t: Pivot, added: Base)
    requires PivotOne(b, z, t) && Steady(b, added)
    ensures WithoutPivot(added, t).Live(Broken())
  {
    var now := WithoutPivot(added, t);
    assert forall i :: 0 <= i < 6 ==> i in now.garbage by {
      assert forall i :: 0 <= i < 6 ==> i in Elements(t.ps) || i in Elements(t.ns);
    }
    forall i | 6 <= i < |b.clauses| && i !in now.garbage ensures Sat(Broken(), now.clauses[i]) {
      assert Harmless(b, i) && now.clauses[i] == b.clauses[i];
    }
  }

  lemma SixHold(z: Lit, x: nat)
    requires x < 4
    ensures Sat(Broken(), SixClauses(z)[x])
  {
    assert True(Broken(), 3) && True(Broken(), -2) && True(Broken(), -1);
    var c, l := SixClauses(z)[x], if x == 0 then 3 else if x == 1 then -2 else -1;
    assert if x == 0 then c[2] == l else if x == 1 then c[1] == l else c[0] == l;
  }

  lemma SavedHold(b: Base, z: Lit, t: Pivot, added: Base, os: seq<nat>, c: Clause)
    requires PivotOne(b, z, t) && Steady(b, added) && c in ClausesOf(added, Saved(added, t.gate, os))
    ensures Sat(Broken(), c)
  {
    var x :| x in Saved(added, t.gate, os) && x < |added.clauses| && added.clauses[x] == c;
    assert x in {0, 1, 2, 3} && added.clauses[x] == SixClauses(z)[x];
    SixHold(z, x);
  }

  lemma BrokenEntries(b: Base, z: Lit, t: Pivot, added: Base, ep: seq<Entry>, en: seq<Entry>)
    requires PivotOne(b, z, t) && Steady(b, added) && EntriesOf(added, t, ep, en)
    ensures forall i :: 0 <= i < |ep + en| ==> Sat(Broken(), (ep + en)[i].clause)
  {
    forall i | 0 <= i < |ep + en| ensures Sat(Broken(), (ep + en)[i].clause) {
      if i < |ep| {
        assert ep[i].clause in EntryClauses(ep);
        SavedHold(b, z, t, added, t.ps, ep[i].clause);
      } else {
        assert en[i - |ep|].clause in EntryClauses(en);
        SavedHold(b, z, t, added, t.ns, en[i - |ep|].clause);
      }
    }
  }

  lemma ReplaySatisfied(es: seq<Entry>, m: Model)
    requires forall i :: 0 <= i < |es| ==> Sat(m, es[i].clause)
    ensures Replay(es, m) == m
  {
    if es != [] {
      ReplaySatisfied(es[..|es| - 1], m);
    }
  }

  // ---------- The method ----------

  // The clauses with 9 assigned and nothing else.
  lemma SpoiledExample(z: Lit)
    requires Chosen(z)
    ensures Spoiled(Base(SixClauses(z), {}, {9}), z)
  {
    SixValid(z);
  }

  lemma SixValid(z: Lit)
    requires Chosen(z)
    ensures forall i :: 0 <= i < 6 ==> NoDup(SixClauses(z)[i]) && !Tautology(SixClauses(z)[i])
  {
    forall i, l | 0 <= i < 6 && l in SixClauses(z)[i] ensures Neg(l) !in SixClauses(z)[i] {
    }
  }

  lemma SpoiledSatisfiable(b: Base, z: Lit)
    requires Spoiled(b, z)
    ensures !Unsatisfiable(b.Formula())
  {
    var m: Model := iset{3, 5, 9};
    forall i | 0 <= i < |b.clauses| && i !in b.garbage ensures Sat(m, b.clauses[i]) {
      if i < 6 {
        SixSatisfiable(z, i);
      } else {
        assert Harmless(b, i);
        var l :| l in b.clauses[i] && True(Broken(), l);
        assert True(m, l);
      }
    }
    FormulaModels(b, m);
  }

  lemma SixSatisfiable(z: Lit, i: nat)
    requires i < 6
    ensures Sat(iset{3, 5, 9}, SixClauses(z)[i])
  {
    var m: Model, c := iset{3, 5, 9}, SixClauses(z)[i];
    assert True(m, -1) && True(m, -2) && True(m, 3) && True(m, 5);
    var l := if i == 0 then c[2] else if i == 1 || i == 4 then c[1] else c[0];
    assert l in c && True(m, l);
  }

  // Eliminating the pivot loses models: what is pushed does not repair every model of what is left.
  method EliminationFails(e: Eliminator, z: Lit, opts: Options) returns (ghost es: seq<Entry>)
    requires e.Valid() && !e.unsat && Spoiled(e.db, z) && Looking(opts, z) && Ample(opts)
    modifies e
    ensures !e.unsat && e.pushed == old(e.pushed) + es && Without(e.db, 1)
    ensures !Reconstructs(old(e.db).Formula(), es, e.db.Formula())
  {
    SpoiledSatisfiable(e.db, z);
    var eliminated, kind;
    ghost var a;
    eliminated, kind, a := e.TryToEliminateVariable(1, opts);
    SpoiledAttempt(a, z, opts);
    es := a.Entries();
  }
}
