// Resolution on a pivot variable (src/elim.cpp): classifying a resolvent, its
// effect on the clause data base, and why replaying the clauses of an
// eliminated pivot repairs models.
module Resolution {
  import opened Cnf
  import opened Extension

  // ---------- Specification ----------

  // Some literal of c other than p holds.
  ghost predicate RestSat(m: Model, c: Clause, p: Lit) {
    exists l :: l in c && l != p && True(m, l)
  }

  // The literals of c other than p that are not assigned at the root level.
  function Open(c: Clause, p: Lit, units: set<Lit>): set<Lit> {
    set l | l in c && l != p && l !in units && Neg(l) !in units
  }

  predicate RestSatisfied(c: Clause, p: Lit, units: set<Lit>) {
    exists l :: l in c && l != p && l in units
  }

  predicate Occurs(p: Lit, c: Clause) {
    p in c || Neg(p) in c
  }

  lemma OpenRestSat(m: Model, c: Clause, p: Lit, units: set<Lit>)
    requires Agrees(m, units) && !RestSatisfied(c, p, units)
    ensures RestSat(m, c, p) <==> exists l :: l in Open(c, p, units) && True(m, l)
  {
    if RestSat(m, c, p) {
      var l :| l in c && l != p && True(m, l);
      assert l in Open(c, p, units);
    }
  }

  ghost predicate Forced(m: Model, cs: set<Clause>, p: Lit) {
    exists c :: c in cs && !RestSat(m, c, p)
  }

  ghost predicate ExactlyOneForced(m: Model, pos: set<Clause>, neg: set<Clause>, p: Lit) {
    Forced(m, pos, p) != Forced(m, neg, Neg(p))
  }

  // ---------- Reconstruction ----------

  ghost predicate PivotEntries(es: seq<Entry>, p: Lit) {
    forall i :: 0 <= i < |es| ==> es[i].wit == [p] && p in es[i].clause && Neg(p) !in es[i].clause
  }

  function EntryClauses(es: seq<Entry>): set<Clause> {
    set i | 0 <= i < |es| :: es[i].clause
  }

  // Entries with the same pivot: it is made true when one of the clauses is falsified.
  lemma {:induction false} ReplayPivot(es: seq<Entry>, p: Lit, m: Model)
    requires PivotEntries(es, p)
    ensures Replay(es, m) == if Forced(m, EntryClauses(es), p) then Force(m, p) else m
  {
    if es != [] {
      var n := |es| - 1;
      var init, e := es[..n], es[n];
      assert EntryClauses(es) == EntryClauses(init) + {e.clause};
      ReplayPivot(init, p, Apply(e, m));
      ForceOne(m, p);
      if !True(m, p) {
        assert Sat(m, e.clause) <==> RestSat(m, e.clause, p);
        if !RestSat(m, e.clause, p) {
          assert Force(Force(m, p), p) == Force(m, p);
        }
      } else {
        assert Force(m, p) == m;
        assert Sat(m, e.clause);
      }
    }
  }

  lemma ForceOne(m: Model, p: Lit)
    ensures ForceAll(m, [p]) == Force(m, p)
  {
    assert [p][..0] == [];
  }

  lemma SatSplit(m: Model, c: Clause, p: Lit)
    requires p in c
    ensures Sat(m, c) <==> True(m, p) || RestSat(m, c, p)
  {
  }

  ghost predicate AllRestSat(m: Model, cs: set<Clause>, p: Lit) {
    forall c :: c in cs ==> RestSat(m, c, p)
  }

  ghost predicate PivotClauses(cs: set<Clause>, p: Lit) {
    forall c :: c in cs ==> p in c && Neg(p) !in c
  }

  // Replaying first the entries with the negated pivot and then those with the
  // pivot satisfies every clause with the pivot variable and changes nothing else.
  lemma PivotRepaired(m: Model, pos: set<Clause>, neg: set<Clause>, ep: seq<Entry>, en: seq<Entry>, p: Lit)
    requires PivotClauses(pos, p) && PivotClauses(neg, Neg(p))
    requires PivotEntries(ep, p) && PivotEntries(en, Neg(p))
    requires Forced(m, EntryClauses(ep), p) ==> AllRestSat(m, neg, Neg(p))
    requires !Forced(m, EntryClauses(ep), p) ==> AllRestSat(m, pos, p)
    requires !Forced(m, EntryClauses(ep), p) && !Forced(m, EntryClauses(en), Neg(p)) ==> AllRestSat(m, neg, Neg(p))
    ensures Models(Replay(ep + en, m), pos + neg)
    ensures forall l: Lit :: l != p && l != Neg(p) ==> True(Replay(ep + en, m), l) == True(m, l)
  {
    ReplayConcat(ep, en, m);
    var m1 := Replay(en, m);
    var m2 := Replay(ep, m1);
    ReplayPivot(en, Neg(p), m);
    ReplayPivot(ep, p, m1);
    assert forall l: Lit :: l != p && l != Neg(p) ==> True(m1, l) == True(m, l);
    assert forall l: Lit :: l != p && l != Neg(p) ==> True(m2, l) == True(m, l);
    SameRest(m, m1, EntryClauses(ep), p);
    assert Forced(m1, EntryClauses(ep), p) == Forced(m, EntryClauses(ep), p);
    SameRest(m, m2, pos, p);
    SameRest(m, m2, neg, Neg(p));
    forall c | c in pos + neg ensures Sat(m2, c) {
    }
  }

  lemma SameRest(m: Model, m': Model, cs: set<Clause>, p: Lit)
    requires forall c :: c in cs ==> Neg(p) !in c
    requires forall l: Lit :: l != p && l != Neg(p) ==> True(m', l) == True(m, l)
    ensures forall c :: c in cs ==> RestSat(m', c, p) == RestSat(m, c, p)
    ensures Forced(m', cs, p) == Forced(m, cs, p)
  {
    forall c | c in cs ensures RestSat(m', c, p) == RestSat(m, c, p) {
    }
  }

  // ---------- Models of a clause data base ----------

  // The literal of the pivot variable in c.
  function PivotIn(c: Clause, p: Lit): Lit {
    if p in c then p else Neg(p)
  }

  // ---------- Scanning the antecedents of a resolution ----------

  // The first i literals of c have been scanned and the unassigned ones except p collected.
  ghost predicate Scanned(c: Clause, i: nat, p: Lit, units: set<Lit>, open: set<Lit>)
    requires i <= |c|
  {
    && (forall k :: 0 <= k < i && c[k] != p ==> c[k] !in units && (c[k] in open || Neg(c[k]) in units))
    && (forall l :: l in open ==> l in c && l != p && l !in units && Neg(l) !in units)
    && (forall k :: i <= k < |c| ==> c[k] !in open)
  }

  lemma ScannedAll(c: Clause, p: Lit, units: set<Lit>, open: set<Lit>)
    requires Scanned(c, |c|, p, units, open)
    ensures open == Open(c, p, units) && !RestSatisfied(c, p, units)
  {
    assert forall l :: l in c ==> exists k :: 0 <= k < |c| && c[k] == l;
  }

  // First antecedent: collect and mark its unassigned literals except the pivot.
  method CollectFirst(c: Clause, pivot: Lit, units: set<Lit>)
    returns (satisfied: bool, s: nat, clause: Clause, marks: set<Lit>)
    requires NoDup(c) && pivot in c
    ensures satisfied == RestSatisfied(c, pivot, units)
    ensures marks == Lits(clause) <= Lits(c)
    ensures !satisfied ==> Lits(clause) == Open(c, pivot, units) && NoDup(clause) && s == |clause| + 1
  {
    satisfied, s, clause, marks := false, 0, [], {};
    var i := 0;
    while i < |c|
      invariant 0 <= i <= |c| && Scanned(c, i, pivot, units, marks)
      invariant Lits(clause) == marks && NoDup(clause)
      invariant s == |clause| + if exists k :: 0 <= k < i && c[k] == pivot then 1 else 0
    {
      var lit := c[i];
      if lit == pivot {
        s := s + 1;
      } else if lit in units {
        satisfied := true;
        break;
      } else if Neg(lit) !in units {
        LitsSnoc(clause, lit);
        marks := marks + {lit};
        clause := clause + [lit];
        s := s + 1;
      }
      i := i + 1;
    }
    if !satisfied {
      ScannedAll(c, pivot, units, marks);
    }
  }

  method AddUnmarked(clause: Clause, lit: Lit, marks: set<Lit>, ghost open: set<Lit>) returns (r: Clause)
    requires Lits(clause) == marks + open && NoDup(clause) && lit !in open
    ensures Lits(r) == marks + (open + {lit}) && NoDup(r)
  {
    r := clause;
    if lit !in marks {
      LitsSnoc(clause, lit);
      assert lit !in Lits(clause);
      r := clause + [lit];
    }
  }

  // Second antecedent: add its unmarked literals, stopping at a clashing one.
  method CollectSecond(d: Clause, negPivot: Lit, units: set<Lit>, first: Clause, marks: set<Lit>)
    returns (satisfied: bool, tautological: bool, t: nat, clause: Clause)
    requires NoDup(d) && negPivot in d && NoDup(first) && marks == Lits(first)
    ensures satisfied ==> RestSatisfied(d, negPivot, units)
    ensures tautological ==> exists l :: l in first && Neg(l) in d
    ensures !satisfied && !tautological ==>
      && !RestSatisfied(d, negPivot, units)
      && (forall l :: l in Open(d, negPivot, units) ==> Neg(l) !in first)
      && Lits(clause) == Lits(first) + Open(d, negPivot, units) && NoDup(clause)
      && t == |Open(d, negPivot, units)| + 1
  {
    satisfied, tautological, t, clause := false, false, 0, first;
    ghost var open: set<Lit> := {};
    ghost var j :| 0 <= j < |d| && d[j] == negPivot;
    var i := 0;
    while i < |d|
      invariant 0 <= i <= |d| && Scanned(d, i, negPivot, units, open)
      invariant forall l :: l in open ==> Neg(l) !in marks
      invariant Lits(clause) == marks + open && NoDup(clause)
      invariant t == |open| + if j < i then 1 else 0
    {
      var lit := d[i];
      assert lit == negPivot <==> i == j;
      if lit == negPivot {
        t := t + 1;
      } else if lit in units {
        satisfied := true;
        break;
      } else if Neg(lit) in units {
        // falsified at the root level
      } else if Neg(lit) in marks {
        tautological := true;
        assert Neg(lit) in Lits(first) && Neg(Neg(lit)) in d;
        break;
      } else {
        clause := AddUnmarked(clause, lit, marks, open);
        open := open + {lit};
        t := t + 1;
      }
      i := i + 1;
    }
    if !satisfied && !tautological {
      ScannedAll(d, negPivot, units, open);
    }
  }

  // What resolving two clauses on a pivot amounts to.
  datatype Outcome =
    | FirstSatisfied | SecondSatisfied | Tautological
    | EmptyResolvent | UnitResolvent
    | SubsumesBoth | SubsumesFirst | SubsumesSecond
    | Resolvent

  ghost predicate Clash(c: Clause, p: Lit, d: Clause) {
    exists l :: l in c && l != p && Neg(l) in d
  }

  ghost predicate OutcomeMeaning(o: Outcome, r: Clause, c: Clause, p: Lit, d: Clause, units: set<Lit>) {
    var first, second := Open(c, p, units), Open(d, Neg(p), units);
    match o
    case FirstSatisfied => RestSatisfied(c, p, units)
    case SecondSatisfied => RestSatisfied(d, Neg(p), units)
    case Tautological => Clash(c, p, d)
    case _ =>
      && !RestSatisfied(c, p, units) && !RestSatisfied(d, Neg(p), units)
      && Lits(r) == first + second && NoDup(r) && !Tautology(r)
      && (match o
          case EmptyResolvent => r == []
          case UnitResolvent => |r| == 1
          case SubsumesBoth => |r| > 1 && Lits(r) == first == second
          case SubsumesFirst => |r| > 1 && Lits(r) == first && Lits(r) != second
          case SubsumesSecond => |r| > 1 && Lits(r) == second && Lits(r) != first
          case _ => |r| > 1 && Lits(r) != first && Lits(r) != second)
  }

  method Classify(c: Clause, pivot: Lit, d: Clause, units: set<Lit>) returns (o: Outcome, clause: Clause)
    requires NoDup(c) && !Tautology(c) && pivot in c
    requires NoDup(d) && !Tautology(d) && Neg(pivot) in d
    ensures OutcomeMeaning(o, clause, c, pivot, d, units)
  {
    var satisfied, s, first, marks := CollectFirst(c, pivot, units);
    if satisfied { return FirstSatisfied, []; }
    var tautological, t;
    satisfied, tautological, t, clause := CollectSecond(d, Neg(pivot), units, first, marks);
    if satisfied { return SecondSatisfied, []; }
    if tautological {
      ghost var l :| l in first && Neg(l) in d;
      assert l in Lits(first);
      return Tautological, [];
    }
    assert !Tautology(clause) by { NoClash(c, pivot, d, units, first, clause); }
    var size := |clause|;
    ResolventSizes(first, clause, Open(d, Neg(pivot), units));
    if size == 0 {
      o := EmptyResolvent;
    } else if size == 1 {
      o := UnitResolvent;
    } else if s > size && t > size {
      o := SubsumesBoth;
    } else if s > size {
      o := SubsumesFirst;
    } else if t > size {
      o := SubsumesSecond;
    } else {
      o := Resolvent;
    }
  }

  lemma NoClash(c: Clause, p: Lit, d: Clause, units: set<Lit>, first: Clause, clause: Clause)
    requires !Tautology(c) && !Tautology(d)
    requires Lits(first) == Open(c, p, units)
    requires Lits(clause) == Lits(first) + Open(d, Neg(p), units)
    requires forall l :: l in Open(d, Neg(p), units) ==> Neg(l) !in first
    ensures !Tautology(clause)
  {
    forall l | l in clause ensures Neg(l) !in clause {
      assert l in Lits(clause) && Neg(Neg(l)) == l;
      assert Neg(l) in clause <==> Neg(l) in Lits(clause);
    }
  }

  // Comparing sizes detects that one antecedent without its pivot is the resolvent.
  lemma ResolventSizes(first: Clause, clause: Clause, second: set<Lit>)
    requires NoDup(first) && NoDup(clause) && Lits(clause) == Lits(first) + second
    ensures |first| + 1 > |clause| <==> Lits(clause) == Lits(first)
    ensures |second| + 1 > |clause| <==> Lits(clause) == second
  {
    NoDupSize(first);
    NoDupSize(clause);
    if |first| >= |clause| { SubsetOfSameSize(Lits(first), Lits(clause)); }
    if |second| >= |clause| { SubsetOfSameSize(second, Lits(clause)); }
  }

  // An antecedent without its pivot and without falsified literals.
  method Strengthened(c: Clause, pivot: Lit, units: set<Lit>) returns (r: Clause)
    requires NoDup(c) && pivot in c && !RestSatisfied(c, pivot, units)
    ensures Lits(r) == Open(c, pivot, units) && NoDup(r)
  {
    var satisfied, s, marks;
    satisfied, s, r, marks := CollectFirst(c, pivot, units);
  }

  // ---------- What a resolution does to the clause data base ----------

  datatype Base = Base(clauses: seq<Clause>, garbage: set<nat>, units: set<Lit>) {
    ghost predicate Valid() {
      && Consistent(units) && (forall i :: i in garbage ==> i < |clauses|)
      && (forall i :: 0 <= i < |clauses| ==> NoDup(clauses[i]) && !Tautology(clauses[i]))
    }

    function Formula(): Formula {
      (set i | 0 <= i < |clauses| && i !in garbage :: clauses[i]) + set u | u in units :: [u]
    }

    // Models of the live clauses and the root-level units.
    ghost predicate Live(m: Model) {
      Agrees(m, units) && forall i :: 0 <= i < |clauses| && i !in garbage ==> Sat(m, clauses[i])
    }

    // Models of the live clauses without the variable of p and the root-level units.
    ghost predicate Other(m: Model, p: Lit) {
      && Agrees(m, units)
      && forall i :: 0 <= i < |clauses| && i !in garbage && !Occurs(p, clauses[i]) ==> Sat(m, clauses[i])
    }

    // Every model of the clauses without p satisfies c without its literal of p's variable.
    ghost predicate RestImplied(c: Clause, p: Lit) {
      forall m: Model :: Other(m, p) ==> RestSat(m, c, PivotIn(c, p))
    }

    // A removed clause is no longer needed.
    ghost predicate Gone(c: Clause, p: Lit) {
      if Occurs(p, c) then RestImplied(c, p) else forall m: Model :: Other(m, p) ==> Sat(m, c)
    }

    // Every model of the clauses without p satisfies the resolvent of c and d.
    ghost predicate Resolved(c: Clause, p: Lit, d: Clause) {
      forall m: Model :: Other(m, p) ==> RestSat(m, c, p) || RestSat(m, d, Neg(p))
    }
  }

  // Clause c is marked as garbage.
  function Remove(b: Base, c: nat): Base {
    b.(garbage := b.garbage + {c})
  }

  // Clauses and units added do not have the pivot variable, and clauses
  // removed are implied, without their pivot, by the others without it.
  ghost predicate Extends(b: Base, b': Base, p: Lit) {
    && b.clauses <= b'.clauses && b.garbage <= b'.garbage && b.units <= b'.units
    && (forall i :: |b.clauses| <= i < |b'.clauses| ==> !Occurs(p, b'.clauses[i]))
    && p !in b'.units && Neg(p) !in b'.units
    && (forall i :: i in b'.garbage && i !in b.garbage ==> i < |b'.clauses| && b'.Gone(b'.clauses[i], p))
  }

  lemma ExtendsOther(b: Base, b': Base, p: Lit, m: Model)
    requires Extends(b, b', p) && b'.Other(m, p)
    ensures b.Other(m, p)
  {
    forall i | 0 <= i < |b.clauses| && i !in b.garbage && !Occurs(p, b.clauses[i]) ensures Sat(m, b.clauses[i]) {
      assert b'.clauses[i] == b.clauses[i];
    }
  }

  lemma ExtendsTransitive(a: Base, b: Base, c: Base, p: Lit)
    requires Extends(a, b, p) && Extends(b, c, p)
    ensures Extends(a, c, p)
  {
    forall i | i in c.garbage && i !in a.garbage ensures i < |c.clauses| && c.Gone(c.clauses[i], p) {
      if i in b.garbage {
        assert b.Gone(b.clauses[i], p) && c.clauses[i] == b.clauses[i];
        forall m: Model | c.Other(m, p) ensures b.Other(m, p) {
          ExtendsOther(b, c, p, m);
        }
      }
    }
    forall i | |a.clauses| <= i < |c.clauses| ensures !Occurs(p, c.clauses[i]) {
      if i < |b.clauses| { assert c.clauses[i] == b.clauses[i]; }
    }
  }

  lemma OutcomeImplies(o: Outcome, r: Clause, c: Clause, p: Lit, d: Clause, units: set<Lit>, m: Model)
    requires OutcomeMeaning(o, r, c, p, d, units) && Agrees(m, units)
    requires !Tautology(c) && !Tautology(d) && p in c && Neg(p) in d
    ensures o.FirstSatisfied? ==> RestSat(m, c, p)
    ensures o.SecondSatisfied? ==> RestSat(m, d, Neg(p))
    ensures o.Tautological? ==> RestSat(m, c, p) || RestSat(m, d, Neg(p))
    ensures o !in {FirstSatisfied, SecondSatisfied, Tautological} ==>
      (Sat(m, r) <==> RestSat(m, c, p) || RestSat(m, d, Neg(p)))
  {
    match o
    case FirstSatisfied =>
    case SecondSatisfied =>
    case Tautological =>
      var l :| l in c && l != p && Neg(l) in d;
      assert Neg(l) != Neg(p);
    case _ =>
      OpenRestSat(m, c, p, units);
      OpenRestSat(m, d, Neg(p), units);
      assert forall l :: l in r <==> l in Lits(r);
  }

  lemma ExtendsNegated(b: Base, b': Base, p: Lit)
    requires b.Valid() && Extends(b, b', p)
    ensures Extends(b, b', Neg(p))
  {
    assert Neg(Neg(p)) == p;
    forall m: Model ensures b'.Other(m, p) == b'.Other(m, Neg(p)) {
    }
    forall i | i in b'.garbage && i !in b.garbage ensures b'.Gone(b'.clauses[i], Neg(p)) {
      assert b'.Gone(b'.clauses[i], p);
      if Occurs(p, b'.clauses[i]) {
        assert i < |b.clauses| && b'.clauses[i] == b.clauses[i] && !Tautology(b.clauses[i]);
        assert PivotIn(b.clauses[i], p) == PivotIn(b.clauses[i], Neg(p));
      }
    }
  }

  lemma ResolvedNegated(b: Base, c: Clause, p: Lit, d: Clause)
    requires b.Resolved(c, p, d)
    ensures b.Resolved(d, Neg(p), c)
  {
    assert Neg(Neg(p)) == p;
    forall m: Model ensures b.Other(m, p) == b.Other(m, Neg(p)) {
    }
  }

  // The effect of resolving clauses ci (with p) and di (with -p) on the data base,
  // unless the resolvent has to be added by the caller.
  ghost predicate ResolutionStep(b: Base, b': Base, p: Lit, ci: nat, di: nat)
    requires ci < |b.clauses| && di < |b.clauses|
  {
    && b'.Valid() && Extends(b, b', p)
    && b'.Resolved(b.clauses[ci], p, b.clauses[di])
    && (forall m: Model :: b.Live(m) <==> b'.Live(m))
  }

  ghost predicate Resolvable(b: Base, p: Lit, ci: nat, di: nat) {
    && b.Valid() && ci < |b.clauses| && di < |b.clauses| && ci !in b.garbage && di !in b.garbage
    && p in b.clauses[ci] && Neg(p) in b.clauses[di] && p !in b.units && Neg(p) !in b.units
  }

  // Resolving the two clauses will never add a clause.
  ghost predicate Stuck(b: Base, p: Lit, ci: nat, di: nat)
    requires ci < |b.clauses| && di < |b.clauses|
  {
    || ci in b.garbage || di in b.garbage
    || RestSatisfied(b.clauses[ci], p, b.units) || RestSatisfied(b.clauses[di], Neg(p), b.units)
    || Clash(b.clauses[ci], p, b.clauses[di])
  }

  // The unassigned literals of both clauses without the pivot.
  function Merge(b: Base, p: Lit, ci: nat, di: nat): set<Lit>
    requires ci < |b.clauses| && di < |b.clauses|
  {
    Open(b.clauses[ci], p, b.units) + Open(b.clauses[di], Neg(p), b.units)
  }

  // At most one clause is new, with exactly those literals.
  ghost predicate AtMostOne(b: Base, b': Base, p: Lit, ci: nat, di: nat)
    requires ci < |b.clauses| && di < |b.clauses|
  {
    && |b'.clauses| <= |b.clauses| + 1
    && (|b'.clauses| > |b.clauses| ==>
          var r := b'.clauses[|b.clauses|]; !Stuck(b, p, ci, di) && NoDup(r) && Lits(r) == Merge(b, p, ci, di))
  }

  lemma StuckNegated(b: Base, p: Lit, ci: nat, di: nat)
    requires ci < |b.clauses| && di < |b.clauses|
    ensures Stuck(b, p, ci, di) <==> Stuck(b, Neg(p), di, ci)
    ensures Merge(b, p, ci, di) == Merge(b, Neg(p), di, ci)
  {
    assert Neg(Neg(p)) == p;
    ClashNegated(b.clauses[ci], p, b.clauses[di]);
    ClashNegated(b.clauses[di], Neg(p), b.clauses[ci]);
  }

  lemma ClashNegated(c: Clause, p: Lit, d: Clause)
    ensures Clash(c, p, d) ==> Clash(d, Neg(p), c)
  {
    if Clash(c, p, d) {
      var l :| l in c && l != p && Neg(l) in d;
      assert Neg(Neg(l)) == l && Neg(l) != Neg(p);
    }
  }

  lemma StuckKept(b: Base, b': Base, p: Lit, ci: nat, di: nat)
    requires ci < |b.clauses| && di < |b.clauses|
    requires b.clauses <= b'.clauses && b.garbage <= b'.garbage && b.units <= b'.units
    ensures Stuck(b, p, ci, di) ==> Stuck(b', p, ci, di)
    ensures |Merge(b', p, ci, di)| <= |Merge(b, p, ci, di)|
  {
    assert b'.clauses[ci] == b.clauses[ci] && b'.clauses[di] == b.clauses[di];
    SubsetSize(Merge(b', p, ci, di), Merge(b, p, ci, di));
  }

  lemma NotStuck(b: Base, p: Lit, ci: nat, di: nat, o: Outcome, r: Clause)
    requires Resolvable(b, p, ci, di)
    requires OutcomeMeaning(o, r, b.clauses[ci], p, b.clauses[di], b.units)
    requires o !in {FirstSatisfied, SecondSatisfied, Tautological}
    ensures !Stuck(b, p, ci, di) && Lits(r) == Merge(b, p, ci, di) && NoDup(r)
  {
    var c, d := b.clauses[ci], b.clauses[di];
    forall l | l in c && l != p ensures Neg(l) !in d {
      assert Neg(l) == Neg(p) || Neg(l) !in d || (l in Lits(r) && Neg(l) in Lits(r)) by {
        assert Neg(Neg(l)) == l;
      }
    }
  }

  // After a unit resolvent one of the clauses is satisfied.
  lemma UnitStuck(b: Base, p: Lit, ci: nat, di: nat, r: Clause)
    requires Resolvable(b, p, ci, di)
    requires OutcomeMeaning(UnitResolvent, r, b.clauses[ci], p, b.clauses[di], b.units)
    ensures Stuck(b.(units := b.units + {r[0]}), p, ci, di)
  {
    assert r[0] in Lits(r);
  }

  // A satisfied antecedent is removed.
  lemma SatisfiedStep(b: Base, p: Lit, ci: nat, di: nat, x: nat)
    requires Resolvable(b, p, ci, di) && (x == ci || x == di)
    requires RestSatisfied(b.clauses[x], PivotIn(b.clauses[x], p), b.units)
    ensures ResolutionStep(b, b.(garbage := b.garbage + {x}), p, ci, di)
  {
    var b' := b.(garbage := b.garbage + {x});
    var c := b.clauses[x];
    assert PivotIn(c, p) == if x == ci then p else Neg(p) by {
      assert !Tautology(b.clauses[ci]) && !Tautology(b.clauses[di]);
    }
    forall m: Model | Agrees(m, b.units) ensures RestSat(m, c, PivotIn(c, p)) && Sat(m, c) {
    }
    forall m: Model ensures b.Live(m) <==> b'.Live(m) {
    }
  }

  lemma TautologicalStep(b: Base, p: Lit, ci: nat, di: nat)
    requires Resolvable(b, p, ci, di) && Clash(b.clauses[ci], p, b.clauses[di])
    ensures ResolutionStep(b, b, p, ci, di)
  {
    forall m: Model ensures RestSat(m, b.clauses[ci], p) || RestSat(m, b.clauses[di], Neg(p)) {
      var l :| l in b.clauses[ci] && l != p && Neg(l) in b.clauses[di];
      assert Neg(l) != Neg(p);
    }
  }

  lemma LiveResolvent(b: Base, p: Lit, ci: nat, di: nat, m: Model)
    requires Resolvable(b, p, ci, di) && b.Live(m)
    ensures RestSat(m, b.clauses[ci], p) || RestSat(m, b.clauses[di], Neg(p))
  {
    assert Sat(m, b.clauses[ci]) && Sat(m, b.clauses[di]);
  }

  lemma UnitStep(b: Base, p: Lit, ci: nat, di: nat, r: Clause)
    requires Resolvable(b, p, ci, di)
    requires OutcomeMeaning(UnitResolvent, r, b.clauses[ci], p, b.clauses[di], b.units)
    ensures ResolutionStep(b, b.(units := b.units + {r[0]}), p, ci, di)
  {
    var u, c, d := r[0], b.clauses[ci], b.clauses[di];
    var b' := b.(units := b.units + {u});
    assert u in Lits(r);
    assert u in Open(c, p, b.units) || u in Open(d, Neg(p), b.units);
    assert !Tautology(c) && !Tautology(d);
    forall m: Model | Agrees(m, b.units)
      ensures RestSat(m, c, p) || RestSat(m, d, Neg(p)) <==> True(m, u)
    {
      OutcomeImplies(UnitResolvent, r, c, p, d, b.units, m);
    }
    forall m: Model ensures b.Live(m) <==> b'.Live(m) {
      if b.Live(m) {
        LiveResolvent(b, p, ci, di, m);
      }
    }
  }

  // Self-subsuming resolution: clause x loses its pivot, other antecedents
  // in gone are subsumed by the strengthened clause as well.
  lemma StrengthenStep(b: Base, p: Lit, ci: nat, di: nat, o: Outcome, r: Clause, gone: set<nat>, s: Clause)
    requires Resolvable(b, p, ci, di)
    requires OutcomeMeaning(o, r, b.clauses[ci], p, b.clauses[di], b.units)
    requires (o == SubsumesFirst && gone == {ci}) || (o == SubsumesSecond && gone == {di}) ||
      (o == SubsumesBoth && gone == {ci, di})
    requires Lits(s) == Lits(r) && NoDup(s)
    ensures ResolutionStep(b, Base(b.clauses + [s], b.garbage + gone, b.units), p, ci, di)
  {
    var c, d := b.clauses[ci], b.clauses[di];
    var b' := Base(b.clauses + [s], b.garbage + gone, b.units);
    assert !Tautology(c) && !Tautology(d);
    assert forall l :: l in s <==> l in Lits(s);
    assert forall l :: l in r <==> l in Lits(r);
    assert !Occurs(p, s) && !Tautology(s);
    forall m: Model | Agrees(m, b.units) ensures Sat(m, s) <==> RestSat(m, c, p) || RestSat(m, d, Neg(p)) {
      OutcomeImplies(o, r, c, p, d, b.units, m);
    }
    forall x, m: Model | x in gone && Agrees(m, b.units) && Sat(m, s)
      ensures RestSat(m, b.clauses[x], PivotIn(b.clauses[x], p)) && Sat(m, b.clauses[x])
    {
      OpenRestSat(m, c, p, b.units);
      OpenRestSat(m, d, Neg(p), b.units);
    }
    assert b'.clauses[|b.clauses|] == s;
    forall m: Model | b'.Other(m, p) ensures Sat(m, s) {
    }
    forall m: Model ensures b.Live(m) <==> b'.Live(m) {
      if b.Live(m) {
        LiveResolvent(b, p, ci, di, m);
      }
      if b'.Live(m) {
        assert Sat(m, b'.clauses[|b.clauses|]);
        forall i | 0 <= i < |b.clauses| && i !in b.garbage ensures Sat(m, b.clauses[i]) {
          assert b'.clauses[i] == b.clauses[i];
        }
      }
    }
  }

  // Progress made while resolving on p keeps the models.
  ghost predicate SameModels(b: Base, now: Base, p: Lit) {
    now.Valid() && Extends(b, now, p) && forall m: Model :: b.Live(m) <==> now.Live(m)
  }

  predicate Distinct(os: seq<nat>) {
    forall i, j :: 0 <= i < j < |os| ==> os[i] != os[j]
  }

  // The occurrence list of a literal.
  function Occs(occs: map<Lit, seq<nat>>, l: Lit): seq<nat> {
    if l in occs then occs[l] else []
  }

  function Elements(os: seq<nat>): set<nat> { set x | x in os }

  lemma {:induction false} DistinctSize(os: seq<nat>)
    requires Distinct(os)
    ensures |Elements(os)| == |os|
  {
    if os != [] {
      var n := |os| - 1;
      DistinctSize(os[..n]);
      assert os == os[..n] + [os[n]] && os[n] !in os[..n];
      assert Elements(os) == Elements(os[..n]) + {os[n]};
    }
  }

  // The listed clauses are clauses with p.
  ghost predicate Occurrences(b: Base, p: Lit, os: seq<nat>) {
    forall i :: 0 <= i < |os| ==> os[i] < |b.clauses| && p in b.clauses[os[i]]
  }

  lemma ExtendsSelf(b: Base, p: Lit)
    requires p !in b.units && Neg(p) !in b.units
    ensures Extends(b, b, p)
  {
  }

  lemma SameOccurrences(b: Base, now: Base, p: Lit, ci: nat, di: nat)
    requires Extends(b, now, p) && now.Valid() && ci < |b.clauses| && di < |b.clauses|
    requires p in b.clauses[ci] && Neg(p) in b.clauses[di]
    ensures Resolvable(now.(garbage := {}), p, ci, di)
  {
    assert now.clauses[ci] == b.clauses[ci] && now.clauses[di] == b.clauses[di];
  }

  lemma ResolventStep(b: Base, p: Lit, ci: nat, di: nat, r: Clause)
    requires Resolvable(b, p, ci, di)
    requires OutcomeMeaning(Resolvent, r, b.clauses[ci], p, b.clauses[di], b.units)
    ensures ResolutionStep(b, b.(clauses := b.clauses + [r]), p, ci, di)
  {
    var c, d, b' := b.clauses[ci], b.clauses[di], b.(clauses := b.clauses + [r]);
    assert !Tautology(c) && !Tautology(d);
    assert forall l :: l in r <==> l in Lits(r);
    assert !Occurs(p, r);
    assert b'.clauses[|b.clauses|] == r;
    forall m: Model | Agrees(m, b.units) ensures Sat(m, r) <==> RestSat(m, c, p) || RestSat(m, d, Neg(p)) {
      OutcomeImplies(Resolvent, r, c, p, d, b.units, m);
    }
    forall m: Model ensures b.Live(m) <==> b'.Live(m) {
      if b.Live(m) {
        LiveResolvent(b, p, ci, di, m);
      }
      if b'.Live(m) {
        forall i | 0 <= i < |b.clauses| && i !in b.garbage ensures Sat(m, b.clauses[i]) {
          assert b'.clauses[i] == b.clauses[i];
        }
      }
    }
  }

  lemma StepNegated(b: Base, b': Base, p: Lit, ci: nat, di: nat)
    requires b.Valid() && ci < |b.clauses| && di < |b.clauses|
    requires ResolutionStep(b, b', p, ci, di)
    ensures ResolutionStep(b, b', Neg(p), di, ci)
  {
    ExtendsNegated(b, b', p);
    ResolvedNegated(b', b.clauses[ci], p, b.clauses[di]);
  }

  function ClausesOf(b: Base, ids: set<nat>): set<Clause> {
    set x | x in ids && x < |b.clauses| :: b.clauses[x]
  }

  lemma EntryClausesSnoc(es: seq<Entry>, e: Entry)
    ensures EntryClauses(es + [e]) == EntryClauses(es) + {e.clause}
  {
    forall c | c in EntryClauses(es) + {e.clause} ensures c in EntryClauses(es + [e]) {
      if c in EntryClauses(es) {
        var i :| 0 <= i < |es| && es[i].clause == c;
        assert (es + [e])[i].clause == c;
      } else {
        assert (es + [e])[|es|].clause == c;
      }
    }
  }

  function LiveOf(b: Base, os: seq<nat>): set<nat> {
    set x | x in os && x !in b.garbage
  }

  // The live clauses with p are all listed.
  ghost predicate AllOccurrences(b: Base, p: Lit, os: seq<nat>) {
    Occurrences(b, p, os) && forall i :: 0 <= i < |b.clauses| && i !in b.garbage && p in b.clauses[i] ==> i in os
  }

  lemma FormulaModels(b: Base, m: Model)
    ensures Models(m, b.Formula()) <==> b.Live(m)
  {
    if Models(m, b.Formula()) {
      forall u | u in b.units ensures True(m, u) {
        assert [u] in b.Formula();
      }
      forall i | 0 <= i < |b.clauses| && i !in b.garbage ensures Sat(m, b.clauses[i]) {
        assert b.clauses[i] in b.Formula();
      }
    }
    if b.Live(m) {
      forall c | c in b.Formula() ensures Sat(m, c) {
        if c in (set u | u in b.units :: [u]) {
          var u :| u in b.units && c == [u];
          assert u in c;
        }
      }
    }
  }

  // Removing one clause that a witness repairs; k is the clause in its current order.
  lemma ClauseRemoval(b: Base, c: nat, w: seq<Lit>, k: Clause)
    requires c < |b.clauses| && forall l :: l in k <==> l in b.clauses[c]
    requires forall m: Model :: b.(garbage := b.garbage + {c}).Live(m) && !Sat(m, b.clauses[c]) ==>
      b.Live(ForceAll(m, w))
    ensures Reconstructs(b.Formula(), [Entry(w, k)], b.(garbage := b.garbage + {c}).Formula())
  {
    var b' := b.(garbage := b.garbage + {c});
    forall m: Model | Models(m, b'.Formula()) ensures Models(if Sat(m, k) then m else ForceAll(m, w), b.Formula()) {
      FormulaModels(b', m);
      assert Sat(m, k) <==> Sat(m, b.clauses[c]);
      FormulaModels(b, if Sat(m, k) then m else ForceAll(m, w));
    }
    RemovalReconstructs(b.Formula(), b'.Formula(), k, w);
  }

  lemma SameLists(b: Base, b1: Base, p: Lit, ps: seq<nat>, ns: seq<nat>)
    requires Extends(b, b1, p) && AllOccurrences(b, p, ps) && AllOccurrences(b, Neg(p), ns)
    ensures AllOccurrences(b1, p, ps) && AllOccurrences(b1, Neg(p), ns)
  {
    assert forall i :: 0 <= i < |b.clauses| ==> b1.clauses[i] == b.clauses[i];
  }

  lemma Disjoint(b: Base, p: Lit, ps: seq<nat>, ns: seq<nat>)
    requires b.Valid() && Occurrences(b, p, ps) && Occurrences(b, Neg(p), ns)
    ensures forall x :: x in ps ==> x !in ns
  {
    forall x | x in ps ensures x !in ns {
      assert !Tautology(b.clauses[x]);
    }
  }

  // After removal exactly the clauses without the pivot variable are live.
  lemma NothingLeft(b: Base, b1: Base, p: Lit, ps: seq<nat>, ns: seq<nat>, b2: Base)
    requires Extends(b, b1, p) && AllOccurrences(b1, p, ps) && AllOccurrences(b1, Neg(p), ns)
    requires b2 == b1.(garbage := b1.garbage + (set x | x in ps) + (set x | x in ns))
    ensures forall m: Model :: b2.Live(m) <==> b1.Other(m, p)
    ensures forall c :: c in b2.Formula() ==> !Occurs(p, c)
  {
    forall i | 0 <= i < |b1.clauses| ensures i !in b2.garbage <==> i !in b1.garbage && !Occurs(p, b1.clauses[i]) {
      if i in ps { assert p in b1.clauses[i]; }
    }
    forall m: Model ensures b2.Live(m) <==> b1.Other(m, p) {
    }
  }
}
