// The binary implication graph (src/decompose.cpp): literals are connected by
// the binary clauses in their watch lists.
module ImplicationGraph {
  import opened Cnf

  type Graph = iset<(Lit, Lit)>

  // Literal a implies b by a binary clause.
  ghost predicate Edge(g: Graph, a: Lit, b: Lit) {
    (a, b) in g
  }

  // Edges come in contraposed pairs and are implications of the formula.
  ghost predicate WellFormed(g: Graph, f: Formula) {
    && (forall a, b :: Edge(g, a, b) ==> Edge(g, Neg(b), Neg(a)))
    && (forall a, b :: Edge(g, a, b) ==> Entails(f, [Neg(a), b]))
  }

  // ---------- Watch lists ----------

  function Blits(watches: map<Lit, seq<Lit>>, l: Lit): seq<Lit> {
    if l in watches then watches[l] else []
  }

  // The edges between active literals given by the binary clauses in the watch lists.
  ghost function GraphOf(watches: map<Lit, seq<Lit>>, active: set<nat>): Graph {
    iset a: Lit, b: Lit | b in Blits(watches, Neg(a)) && Var(a) in active && Var(b) in active :: (a, b)
  }

  // Each binary clause is in the lists of both its literals and belongs to the formula.
  ghost predicate WatchesOk(watches: map<Lit, seq<Lit>>, f: Formula) {
    forall a, b :: b in Blits(watches, a) ==> a in Blits(watches, b) && Entails(f, [a, b])
  }

  lemma GraphWellFormed(watches: map<Lit, seq<Lit>>, active: set<nat>, f: Formula)
    requires WatchesOk(watches, f)
    ensures WellFormed(GraphOf(watches, active), f)
  {
    var g := GraphOf(watches, active);
    forall a, b | Edge(g, a, b) ensures Edge(g, Neg(b), Neg(a)) && Entails(f, [Neg(a), b]) {
      EdgeOf(watches, active, a, b);
      EdgeOf(watches, active, Neg(b), Neg(a));
      assert Neg(Neg(b)) == b;
    }
  }

  lemma EdgeOf(watches: map<Lit, seq<Lit>>, active: set<nat>, a: Lit, b: Lit)
    ensures Edge(GraphOf(watches, active), a, b) <==>
      b in Blits(watches, Neg(a)) && Var(a) in active && Var(b) in active
  {
  }

  ghost predicate Path(g: Graph, p: seq<Lit>) {
    forall i :: 0 < i < |p| ==> Edge(g, p[i - 1], p[i])
  }

  ghost predicate Reach(g: Graph, a: Lit, b: Lit) {
    exists p: seq<Lit> :: |p| > 0 && p[0] == a && p[|p| - 1] == b && Path(g, p)
  }

  ghost predicate Equiv(g: Graph, a: Lit, b: Lit) {
    Reach(g, a, b) && Reach(g, b, a)
  }

  lemma ReachSelf(g: Graph, a: Lit)
    ensures Reach(g, a, a)
  {
    var p := [a];
    assert |p| > 0 && p[0] == a && p[|p| - 1] == a && Path(g, p);
  }

  lemma ReachStep(g: Graph, a: Lit, b: Lit, c: Lit)
    requires Reach(g, a, b) && Edge(g, b, c)
    ensures Reach(g, a, c)
  {
    var p: seq<Lit> :| |p| > 0 && p[0] == a && p[|p| - 1] == b && Path(g, p);
    var q := p + [c];
    assert |q| > 0 && q[0] == a && q[|q| - 1] == c && Path(g, q);
  }

  lemma ReachEdge(g: Graph, a: Lit, b: Lit)
    requires Edge(g, a, b)
    ensures Reach(g, a, b)
  {
    ReachSelf(g, a);
    ReachStep(g, a, a, b);
  }

  lemma ReachTrans(g: Graph, a: Lit, b: Lit, c: Lit)
    requires Reach(g, a, b) && Reach(g, b, c)
    ensures Reach(g, a, c)
  {
    var p: seq<Lit> :| |p| > 0 && p[0] == a && p[|p| - 1] == b && Path(g, p);
    var q: seq<Lit> :| |q| > 0 && q[0] == b && q[|q| - 1] == c && Path(g, q);
    var r := p + q[1..];
    forall i | 0 < i < |r| ensures Edge(g, r[i - 1], r[i]) {
      if i >= |p| {
        assert r[i] == q[i - |p| + 1] && r[i - 1] == q[i - |p|];
      }
    }
    assert r[|r| - 1] == c;
  }

  // A set that no edge leaves contains everything reachable from it.
  lemma {:induction false} ReachClosed(g: Graph, s: set<Lit>, p: seq<Lit>)
    requires |p| > 0 && p[0] in s && Path(g, p)
    requires forall a, b :: a in s && Edge(g, a, b) ==> b in s
    ensures p[|p| - 1] in s
  {
    if |p| > 1 {
      var q := p[..|p| - 1];
      assert Path(g, q);
      ReachClosed(g, s, q);
      assert Edge(g, p[|p| - 2], p[|p| - 1]);
    }
  }

  lemma StaysInside(g: Graph, s: set<Lit>, a: Lit, b: Lit)
    requires Reach(g, a, b) && a in s && forall x, y :: x in s && Edge(g, x, y) ==> y in s
    ensures b in s
  {
    var p: seq<Lit> :| |p| > 0 && p[0] == a && p[|p| - 1] == b && Path(g, p);
    ReachClosed(g, s, p);
  }

  // The graph is skew-symmetric.
  lemma {:induction false} PathSkew(g: Graph, f: Formula, p: seq<Lit>)
    requires WellFormed(g, f) && |p| > 0 && Path(g, p)
    ensures Reach(g, Neg(p[|p| - 1]), Neg(p[0]))
  {
    var n := |p| - 1;
    if n == 0 {
      ReachSelf(g, Neg(p[0]));
    } else {
      var q := p[..n];
      assert Path(g, q);
      PathSkew(g, f, q);
      assert Edge(g, p[n - 1], p[n]);
      ReachEdge(g, Neg(p[n]), Neg(p[n - 1]));
      ReachTrans(g, Neg(p[n]), Neg(p[n - 1]), Neg(p[0]));
    }
  }

  lemma ReachSkew(g: Graph, f: Formula, a: Lit, b: Lit)
    requires WellFormed(g, f) && Reach(g, a, b)
    ensures Reach(g, Neg(b), Neg(a))
  {
    var p: seq<Lit> :| |p| > 0 && p[0] == a && p[|p| - 1] == b && Path(g, p);
    PathSkew(g, f, p);
  }

  // Reachable literals are implied in every model.
  lemma {:induction false} PathImplies(g: Graph, f: Formula, p: seq<Lit>, m: Model)
    requires WellFormed(g, f) && |p| > 0 && Path(g, p) && Models(m, f) && True(m, p[0])
    ensures True(m, p[|p| - 1])
  {
    var n := |p| - 1;
    if n > 0 {
      var q := p[..n];
      assert Path(g, q);
      PathImplies(g, f, q, m);
      assert Edge(g, p[n - 1], p[n]);
      assert Entails(f, [Neg(p[n - 1]), p[n]]);
      assert Sat(m, [Neg(p[n - 1]), p[n]]);
      Negation(m, p[n - 1]);
    }
  }

  lemma ReachImplies(g: Graph, f: Formula, a: Lit, b: Lit, m: Model)
    requires WellFormed(g, f) && Reach(g, a, b) && Models(m, f) && True(m, a)
    ensures True(m, b)
  {
    var p: seq<Lit> :| |p| > 0 && p[0] == a && p[|p| - 1] == b && Path(g, p);
    PathImplies(g, f, p, m);
  }

  // Literals of one component have the same value in every model.
  lemma EquivSameValue(g: Graph, f: Formula, a: Lit, b: Lit, m: Model)
    requires WellFormed(g, f) && Equiv(g, a, b) && Models(m, f)
    ensures True(m, a) == True(m, b)
  {
    if True(m, a) { ReachImplies(g, f, a, b, m); }
    if True(m, b) { ReachImplies(g, f, b, a, m); }
  }

  lemma ComplementaryUnsat(g: Graph, f: Formula, a: Lit)
    requires WellFormed(g, f) && Equiv(g, a, Neg(a))
    ensures Unsatisfiable(f)
  {
    forall m: Model ensures !Models(m, f) {
      Negation(m, a);
      if Models(m, f) { EquivSameValue(g, f, a, Neg(a), m); }
    }
  }

  // A component with any complementary pair contains the negation of each of its literals.
  lemma ComplementSuffices(g: Graph, f: Formula, a: Lit, x: Lit)
    requires WellFormed(g, f) && Equiv(g, a, x) && Equiv(g, a, Neg(x))
    ensures Equiv(g, a, Neg(a))
  {
    assert Neg(Neg(x)) == x;
    ReachSkew(g, f, a, x);            // -x reaches -a
    ReachSkew(g, f, x, a);            // -a reaches -x
    ReachTrans(g, a, Neg(x), Neg(a));
    ReachTrans(g, Neg(a), Neg(x), a);
  }

  lemma EquivSkew(g: Graph, f: Formula, a: Lit, b: Lit)
    requires WellFormed(g, f) && Equiv(g, a, b)
    ensures Equiv(g, Neg(a), Neg(b))
  {
    ReachSkew(g, f, a, b);
    ReachSkew(g, f, b, a);
  }
}
