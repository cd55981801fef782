// Equivalent literals (src/decompose.cpp): Tarjan's algorithm with an explicit
// working stack computes the strongly connected components of the binary
// implication graph.
module Decompose {
  import opened Cnf
  import opened ImplicationGraph

  // Depth first search indices, minimum reachable indices, completely
  // traversed literals, the component stack and the last index used.
  datatype Dfs = Dfs(idx: map<Lit, nat>, min: map<Lit, nat>, done: set<Lit>, scc: seq<Lit>, count: nat)

  // For the proof: a literal being visited with its children still on the
  // working stack; the search tree; the first minimum of finished literals.
  datatype Frame = Frame(node: Lit, pending: seq<Lit>)
  datatype Tree = Tree(frames: seq<Frame>, par: map<Lit, Lit>, low: map<Lit, nat>)

  // The working stack consists of the literals being visited, each followed by its pending children.
  function Flat(frames: seq<Frame>): seq<Lit> {
    if frames == [] then []
    else
      var n := |frames| - 1;
      Flat(frames[..n]) + [frames[n].node] + frames[n].pending
  }

  ghost predicate On(s: Dfs, x: Lit) {
    x in s.idx && x !in s.done
  }

  ghost predicate Gray(t: Tree, x: Lit) {
    exists j :: 0 <= j < |t.frames| && t.frames[j].node == x
  }

  ghost predicate Black(s: Dfs, t: Tree, x: Lit) {
    On(s, x) && !Gray(t, x)
  }

  ghost predicate StackOk(s: Dfs) {
    && s.idx.Keys == s.min.Keys && s.done <= s.idx.Keys && (forall x :: x in s.idx ==> 0 < s.idx[x] <= s.count)
    && (forall i :: 0 <= i < |s.scc| ==> On(s, s.scc[i]))
    && (forall x :: On(s, x) ==> x in s.scc)
    && (forall i, j :: 0 <= i < j < |s.scc| ==> s.idx[s.scc[i]] < s.idx[s.scc[j]])
  }

  ghost predicate DoneClosed(g: Graph, s: Dfs) {
    forall x, y :: x in s.done && Edge(g, x, y) ==> y in s.done
  }

  ghost predicate FrameOk(g: Graph, s: Dfs, fr: Frame) {
    && On(s, fr.node) && fr.node in s.min && s.min[fr.node] == s.idx[fr.node]
    && (forall k :: 0 <= k < |fr.pending| ==>
          Edge(g, fr.node, fr.pending[k]) && (fr.pending[k] in s.idx ==> s.idx[fr.pending[k]] > s.idx[fr.node]))
    && (forall c :: Edge(g, fr.node, c) ==> c in s.idx || c in fr.pending)
  }

  ghost predicate FramesOk(g: Graph, s: Dfs, t: Tree) {
    && (forall j :: 0 <= j < |t.frames| ==> FrameOk(g, s, t.frames[j]))
    && (forall j, k :: 0 <= j < k < |t.frames| ==> s.idx[t.frames[j].node] < s.idx[t.frames[k].node])
    && (forall x :: On(s, x) ==> |t.frames| > 0 && s.idx[x] >= s.idx[t.frames[0].node])
  }

  // A literal being visited reaches everything put on the component stack after it.
  ghost predicate GrayReach(g: Graph, s: Dfs, t: Tree) {
    forall j, x ::
      0 <= j < |t.frames| && t.frames[j].node in s.idx && On(s, x) &&
      s.idx[x] >= s.idx[t.frames[j].node] ==>
      Reach(g, t.frames[j].node, x)
  }

  // Literal x reaches the literal with index n on the component stack.
  ghost predicate Hits(g: Graph, s: Dfs, x: Lit, n: nat) {
    exists z :: On(s, z) && s.idx[z] == n && Reach(g, x, z)
  }

  // A finished literal still on the component stack.
  ghost predicate Finished(g: Graph, s: Dfs, t: Tree, x: Lit) {
    && x in s.idx && x in t.low && x in s.min && t.low[x] < s.idx[x] && s.min[x] <= t.low[x]
    && (forall y :: Edge(g, x, y) ==> y in s.idx && (On(s, y) ==> t.low[x] <= s.idx[y]))
    && Hits(g, s, x, t.low[x]) && Hits(g, s, x, s.min[x])
  }

  ghost predicate BlackOk(g: Graph, s: Dfs, t: Tree) {
    forall x :: Black(s, t, x) ==> Finished(g, s, t, x)
  }

  ghost predicate ParentOk(g: Graph, s: Dfs, t: Tree, x: Lit) {
    && x in s.idx && x in t.par && On(s, t.par[x]) && s.idx[t.par[x]] < s.idx[x] && Edge(g, t.par[x], x)
    && (Black(s, t, x) && Black(s, t, t.par[x]) && x in t.low && t.par[x] in t.low ==> t.low[t.par[x]] <= t.low[x])
  }

  ghost predicate TreeOk(g: Graph, s: Dfs, t: Tree) {
    forall j, x ::
      0 <= j < |t.frames| && t.frames[j].node in s.idx && On(s, x) &&
      s.idx[x] > s.idx[t.frames[j].node] ==>
      ParentOk(g, s, t, x) && s.idx[t.par[x]] >= s.idx[t.frames[j].node]
  }

  // Each literal being visited is a child of the one before.
  ghost predicate Chain(t: Tree) {
    forall j :: 0 < j < |t.frames| ==> t.frames[j].node in t.par && t.par[t.frames[j].node] == t.frames[j - 1].node
  }

  ghost predicate Invariant(g: Graph, s: Dfs, t: Tree) {
    && StackOk(s) && DoneClosed(g, s) && FramesOk(g, s, t) && GrayReach(g, s, t)
    && BlackOk(g, s, t) && TreeOk(g, s, t) && Chain(t)
  }

  // ---------- First visit of a literal ----------

  function Enter(s: Dfs, c: Lit): Dfs {
    Dfs(s.idx[c := s.count + 1], s.min[c := s.count + 1], s.done, s.scc + [c], s.count + 1)
  }

  // The top of the working stack is taken off the children of the last literal being visited.
  function PopPending(t: Tree): Tree
    requires t.frames != [] && t.frames[|t.frames| - 1].pending != []
  {
    var n := |t.frames| - 1;
    var fr := t.frames[n];
    t.(frames := t.frames[..n] + [fr.(pending := fr.pending[..|fr.pending| - 1])])
  }

  // The literal on top is visited as a child of the last one, or as root.
  function Visit(t: Tree, c: Lit, kids: seq<Lit>): Tree {
    if t.frames == [] then Tree([Frame(c, kids)], t.par, t.low)
    else Tree(t.frames + [Frame(c, kids)], t.par[c := t.frames[|t.frames| - 1].node], t.low)
  }

  // The literal c is about to be visited: all but c is as required.
  ghost predicate FramesBut(g: Graph, s: Dfs, t: Tree, c: Lit) {
    && c !in s.idx && (t.frames != [] ==> Edge(g, t.frames[|t.frames| - 1].node, c))
    && (forall j :: 0 <= j < |t.frames| ==> FrameBut(g, s, t.frames[j], c))
    && (forall j, k :: 0 <= j < k < |t.frames| ==> s.idx[t.frames[j].node] < s.idx[t.frames[k].node])
    && (forall x :: On(s, x) ==> |t.frames| > 0 && s.idx[x] >= s.idx[t.frames[0].node])
  }

  ghost predicate FrameBut(g: Graph, s: Dfs, fr: Frame, but: Lit) {
    && On(s, fr.node) && fr.node in s.min && s.min[fr.node] == s.idx[fr.node]
    && (forall k :: 0 <= k < |fr.pending| ==>
          Edge(g, fr.node, fr.pending[k]) && (fr.pending[k] in s.idx ==> s.idx[fr.pending[k]] > s.idx[fr.node]))
    && (forall c :: Edge(g, fr.node, c) ==> c in s.idx || c in fr.pending || c == but)
  }

  lemma EnterStack(s: Dfs, c: Lit)
    requires StackOk(s) && c !in s.idx
    ensures StackOk(Enter(s, c))
  {
    var s' := Enter(s, c);
    forall i | 0 <= i < |s'.scc| ensures On(s', s'.scc[i]) {
      assert i < |s.scc| ==> On(s, s.scc[i]);
    }
    forall x | On(s', x) ensures x in s'.scc {
      assert x != c ==> On(s, x);
    }
  }

  lemma HitsMore(g: Graph, s: Dfs, s': Dfs, x: Lit, n: nat)
    requires Hits(g, s, x, n)
    requires forall z :: On(s, z) && s.idx[z] == n ==> On(s', z) && s'.idx[z] == n
    ensures Hits(g, s', x, n)
  {
  }

  // All is as required but for the literal c, about to be visited.
  ghost predicate Prepared(g: Graph, s: Dfs, t: Tree, c: Lit) {
    && FramesBut(g, s, t, c) && StackOk(s) && DoneClosed(g, s) && GrayReach(g, s, t)
    && BlackOk(g, s, t) && TreeOk(g, s, t) && Chain(t)
  }

  lemma EnterInvariant(g: Graph, s: Dfs, t: Tree, c: Lit, kids: seq<Lit>)
    requires Prepared(g, s, t, c)
    requires forall k :: 0 <= k < |kids| ==> Edge(g, c, kids[k]) && kids[k] !in s.idx && kids[k] != c
    requires forall y :: Edge(g, c, y) ==> y in s.idx || y == c || y in kids
    ensures Invariant(g, Enter(s, c), Visit(t, c, kids))
  {
    var s', t' := Enter(s, c), Visit(t, c, kids);
    EnterStack(s, c);
    EnterFrames(g, s, t, c, kids);
    EnterReach(g, s, t, c, kids);
    EnterBlack(g, s, t, c, kids);
    EnterTree(g, s, t, c, kids);
    EnterChain(g, s, t, c, kids);
  }

  lemma EnterChain(g: Graph, s: Dfs, t: Tree, c: Lit, kids: seq<Lit>)
    requires FramesBut(g, s, t, c) && Chain(t)
    ensures Chain(Visit(t, c, kids))
  {
    var t' := Visit(t, c, kids);
    forall j | 0 < j < |t'.frames|
      ensures t'.frames[j].node in t'.par && t'.par[t'.frames[j].node] == t'.frames[j - 1].node
    {
      assert t'.frames[j - 1] == t.frames[j - 1];
      if j < |t.frames| { assert FrameBut(g, s, t.frames[j], c); }
    }
  }

  lemma OldFrame(g: Graph, s: Dfs, fr: Frame, c: Lit)
    requires FrameBut(g, s, fr, c) && c !in s.idx && s.done <= s.idx.Keys
    requires forall x :: x in s.idx ==> s.idx[x] <= s.count
    ensures FrameOk(g, Enter(s, c), fr)
  {
  }

  lemma NewFrame(g: Graph, s: Dfs, c: Lit, kids: seq<Lit>)
    requires c !in s.idx && s.done <= s.idx.Keys
    requires forall k :: 0 <= k < |kids| ==> Edge(g, c, kids[k]) && kids[k] !in s.idx && kids[k] != c
    requires forall y :: Edge(g, c, y) ==> y in s.idx || y == c || y in kids
    ensures FrameOk(g, Enter(s, c), Frame(c, kids))
  {
  }

  lemma EnterFrames(g: Graph, s: Dfs, t: Tree, c: Lit, kids: seq<Lit>)
    requires FramesBut(g, s, t, c) && s.done <= s.idx.Keys
    requires forall x :: x in s.idx ==> s.idx[x] <= s.count
    requires forall k :: 0 <= k < |kids| ==> Edge(g, c, kids[k]) && kids[k] !in s.idx && kids[k] != c
    requires forall y :: Edge(g, c, y) ==> y in s.idx || y == c || y in kids
    ensures FramesOk(g, Enter(s, c), Visit(t, c, kids))
  {
    var s', t' := Enter(s, c), Visit(t, c, kids);
    NewFrame(g, s, c, kids);
    forall j | 0 <= j < |t.frames| ensures t'.frames[j] == t.frames[j] && FrameOk(g, s', t.frames[j]) {
      OldFrame(g, s, t.frames[j], c);
    }
    assert t'.frames[|t.frames|] == Frame(c, kids);
    forall x | On(s', x) ensures s'.idx[x] >= s'.idx[t'.frames[0].node] {
      if t.frames != [] { assert FrameBut(g, s, t.frames[0], c); }
      assert x != c ==> On(s, x);
    }
  }

  lemma EnterReach(g: Graph, s: Dfs, t: Tree, c: Lit, kids: seq<Lit>)
    requires FramesBut(g, s, t, c) && StackOk(s) && GrayReach(g, s, t)
    ensures GrayReach(g, Enter(s, c), Visit(t, c, kids))
  {
    var s', t' := Enter(s, c), Visit(t, c, kids);
    forall j, x | 0 <= j < |t'.frames| && On(s', x) && t'.frames[j].node in s'.idx &&
      s'.idx[x] >= s'.idx[t'.frames[j].node]
      ensures Reach(g, t'.frames[j].node, x)
    {
      if j == |t.frames| {
        assert x == c;
        ReachSelf(g, c);
      } else {
        assert FrameBut(g, s, t.frames[j], c);
        if x == c {
          var top := t.frames[|t.frames| - 1].node;
          assert FrameBut(g, s, t.frames[|t.frames| - 1], c);
          assert Reach(g, t.frames[j].node, top);
          ReachStep(g, t.frames[j].node, top, c);
        } else {
          assert On(s, x);
        }
      }
    }
  }

  lemma EnterBlack(g: Graph, s: Dfs, t: Tree, c: Lit, kids: seq<Lit>)
    requires c !in s.idx && BlackOk(g, s, t)
    ensures BlackOk(g, Enter(s, c), Visit(t, c, kids))
  {
    var s', t' := Enter(s, c), Visit(t, c, kids);
    forall x | Black(s', t', x) ensures Finished(g, s', t', x) {
      assert t'.frames[|t.frames|].node == c;
      assert forall j :: 0 <= j < |t.frames| ==> t'.frames[j] == t.frames[j];
      assert x != c && Black(s, t, x);
      assert Finished(g, s, t, x);
      HitsMore(g, s, s', x, t.low[x]);
      HitsMore(g, s, s', x, s.min[x]);
    }
  }

  lemma EnterParent(g: Graph, s: Dfs, t: Tree, c: Lit, kids: seq<Lit>, x: Lit)
    requires c !in s.idx && x != c && ParentOk(g, s, t, x)
    ensures ParentOk(g, Enter(s, c), Visit(t, c, kids), x) && Visit(t, c, kids).par[x] == t.par[x]
  {
    var s', t' := Enter(s, c), Visit(t, c, kids);
    assert forall j :: 0 <= j < |t.frames| ==> t'.frames[j] == t.frames[j];
    assert Black(s', t', x) ==> Black(s, t, x);
    assert Black(s', t', t.par[x]) ==> Black(s, t, t.par[x]);
  }

  lemma NewParent(g: Graph, s: Dfs, t: Tree, c: Lit, kids: seq<Lit>)
    requires FramesBut(g, s, t, c) && t.frames != []
    requires forall x :: x in s.idx ==> s.idx[x] <= s.count
    ensures ParentOk(g, Enter(s, c), Visit(t, c, kids), c)
    ensures Visit(t, c, kids).par[c] == t.frames[|t.frames| - 1].node
  {
    var t' := Visit(t, c, kids);
    assert FrameBut(g, s, t.frames[|t.frames| - 1], c);
    assert t'.frames[|t.frames|].node == c && Gray(t', c);
  }

  lemma EnterTree(g: Graph, s: Dfs, t: Tree, c: Lit, kids: seq<Lit>)
    requires FramesBut(g, s, t, c) && TreeOk(g, s, t)
    requires forall x :: x in s.idx ==> s.idx[x] <= s.count
    ensures TreeOk(g, Enter(s, c), Visit(t, c, kids))
  {
    var s', t' := Enter(s, c), Visit(t, c, kids);
    assert t'.frames[|t.frames|].node == c;
    forall j, x | 0 <= j < |t'.frames| && t'.frames[j].node in s'.idx && On(s', x) &&
      s'.idx[x] > s'.idx[t'.frames[j].node]
      ensures ParentOk(g, s', t', x) && s'.idx[t'.par[x]] >= s'.idx[t'.frames[j].node]
    {
      assert t'.frames[j] == t.frames[j] && FrameBut(g, s, t.frames[j], c);
      if x == c {
        NewParent(g, s, t, c, kids);
        assert FrameBut(g, s, t.frames[|t.frames| - 1], c);
      } else {
        assert On(s, x) && ParentOk(g, s, t, x);
        EnterParent(g, s, t, c, kids, x);
      }
    }
  }

  // ---------- Entries of literals visited before ----------

  ghost function Top(t: Tree): Frame
    requires t.frames != []
  {
    t.frames[|t.frames| - 1]
  }

  lemma PopSame(t: Tree)
    requires t.frames != [] && Top(t).pending != []
    ensures |PopPending(t).frames| == |t.frames| && PopPending(t).par == t.par
    ensures PopPending(t).low == t.low
    ensures forall j :: 0 <= j < |t.frames| ==> PopPending(t).frames[j].node == t.frames[j].node
    ensures forall j :: 0 <= j < |t.frames| - 1 ==> PopPending(t).frames[j] == t.frames[j]
    ensures forall x :: Gray(PopPending(t), x) <==> Gray(t, x)
  {
    var t' := PopPending(t);
    forall x ensures Gray(t', x) <==> Gray(t, x) {
      if Gray(t, x) {
        var j :| 0 <= j < |t.frames| && t.frames[j].node == x;
        assert t'.frames[j].node == x;
      }
      if Gray(t', x) {
        var j :| 0 <= j < |t'.frames| && t'.frames[j].node == x;
        assert t.frames[j].node == x;
      }
    }
  }

  lemma PopFrames(g: Graph, s: Dfs, t: Tree)
    requires FramesOk(g, s, t) && t.frames != [] && Top(t).pending != []
    ensures
      var c := Top(t).pending[|Top(t).pending| - 1];
      var t' := PopPending(t);
      && (forall j :: 0 <= j < |t'.frames| ==>
           FrameBut(g, s, t'.frames[j], c) && (c in s.idx ==> FrameOk(g, s, t'.frames[j])))
      && Edge(g, Top(t).node, c)
  {
    var fr := Top(t);
    var m := |fr.pending| - 1;
    var t' := PopPending(t);
    PopSame(t);
    assert FrameOk(g, s, fr);
    assert forall y :: y in fr.pending ==> y in fr.pending[..m] || y == fr.pending[m] by {
      assert fr.pending == fr.pending[..m] + [fr.pending[m]];
    }
    forall j | 0 <= j < |t'.frames|
      ensures FrameBut(g, s, t'.frames[j], fr.pending[m]) && (fr.pending[m] in s.idx ==> FrameOk(g, s, t'.frames[j]))
    {
      assert FrameOk(g, s, t.frames[j]);
    }
  }

  // The same literals are being visited.
  ghost predicate SameNodes(t: Tree, t': Tree) {
    && |t'.frames| == |t.frames| && t'.par == t.par && t'.low == t.low
    && (forall j :: 0 <= j < |t.frames| ==> t'.frames[j].node == t.frames[j].node)
    && (forall x :: Gray(t', x) <==> Gray(t, x))
  }

  lemma SameReach(g: Graph, s: Dfs, t: Tree, t': Tree)
    requires GrayReach(g, s, t) && SameNodes(t, t')
    ensures GrayReach(g, s, t')
  {
  }

  lemma SameBlack(g: Graph, s: Dfs, t: Tree, t': Tree)
    requires BlackOk(g, s, t) && SameNodes(t, t')
    ensures BlackOk(g, s, t')
  {
    forall x | Black(s, t', x) ensures Finished(g, s, t', x) {
      assert Black(s, t, x) && Finished(g, s, t, x);
    }
  }

  lemma SameTree(g: Graph, s: Dfs, t: Tree, t': Tree)
    requires TreeOk(g, s, t) && SameNodes(t, t')
    ensures TreeOk(g, s, t')
  {
    forall j, x | 0 <= j < |t'.frames| && t'.frames[j].node in s.idx && On(s, x) && s.idx[x] > s.idx[t'.frames[j].node]
      ensures ParentOk(g, s, t', x) && s.idx[t'.par[x]] >= s.idx[t'.frames[j].node] {
      assert t.frames[j].node == t'.frames[j].node && ParentOk(g, s, t, x);
    }
  }

  lemma PopInvariant(g: Graph, s: Dfs, t: Tree)
    requires Invariant(g, s, t) && t.frames != [] && Top(t).pending != []
    ensures
      var c := Top(t).pending[|Top(t).pending| - 1];
      (c in s.idx && Invariant(g, s, PopPending(t))) || (c !in s.idx && Prepared(g, s, PopPending(t), c))
    ensures SameNodes(t, PopPending(t))
  {
    var t', c := PopPending(t), Top(t).pending[|Top(t).pending| - 1];
    PopSame(t);
    PoppedFrames(g, s, t, t', c);
    SameReach(g, s, t, t');
    SameBlack(g, s, t, t');
    SameTree(g, s, t, t');
  }

  lemma PoppedFrames(g: Graph, s: Dfs, t: Tree, t': Tree, c: Lit)
    requires FramesOk(g, s, t) && Chain(t) && t.frames != [] && Top(t).pending != []
    requires t' == PopPending(t) && c == Top(t).pending[|Top(t).pending| - 1] && SameNodes(t, t')
    ensures Chain(t') && if c in s.idx then FramesOk(g, s, t') else FramesBut(g, s, t', c)
  {
    PopFrames(g, s, t);
    PopOrder(g, s, t, t');
  }

  lemma PopOrder(g: Graph, s: Dfs, t: Tree, t': Tree)
    requires FramesOk(g, s, t) && SameNodes(t, t') && Chain(t)
    requires forall j :: 0 <= j < |t'.frames| ==> t'.frames[j].node in s.idx
    ensures forall j, k :: 0 <= j < k < |t'.frames| ==> s.idx[t'.frames[j].node] < s.idx[t'.frames[k].node]
    ensures forall x :: On(s, x) ==> |t'.frames| > 0 && s.idx[x] >= s.idx[t'.frames[0].node]
    ensures Chain(t')
  {
    forall j, k | 0 <= j < k < |t'.frames| ensures s.idx[t'.frames[j].node] < s.idx[t'.frames[k].node] {
      assert t'.frames[j].node == t.frames[j].node && t'.frames[k].node == t.frames[k].node;
    }
  }

  // ---------- A smaller minimum ----------

  function WithMin(s: Dfs, c: Lit, n: nat): Dfs {
    s.(min := s.min[c := n])
  }

  lemma MinBlack(g: Graph, s: Dfs, t: Tree, c: Lit, n: nat)
    requires BlackOk(g, s, t) && Black(s, t, c) && c in s.min && n <= s.min[c]
    requires Hits(g, s, c, n)
    ensures BlackOk(g, WithMin(s, c, n), t)
  {
    var s' := WithMin(s, c, n);
    forall x | Black(s', t, x) ensures Finished(g, s', t, x) {
      assert Black(s, t, x) && Finished(g, s, t, x);
      HitsMore(g, s, s', x, t.low[x]);
      HitsMore(g, s, s', x, s.min[x]);
      HitsMore(g, s, s', c, n);
    }
  }

  lemma MinFrames(g: Graph, s: Dfs, t: Tree, c: Lit, n: nat)
    requires FramesOk(g, s, t) && !Gray(t, c)
    ensures FramesOk(g, WithMin(s, c, n), t)
  {
    var s' := WithMin(s, c, n);
    assert forall x :: On(s', x) <==> On(s, x);
    forall j | 0 <= j < |t.frames| ensures FrameOk(g, s', t.frames[j]) {
      assert FrameOk(g, s, t.frames[j]) && t.frames[j].node != c;
    }
  }

  lemma MinParent(g: Graph, s: Dfs, t: Tree, c: Lit, n: nat, x: Lit)
    requires ParentOk(g, s, t, x)
    ensures ParentOk(g, WithMin(s, c, n), t, x)
  {
    var s' := WithMin(s, c, n);
    assert Black(s', t, x) <==> Black(s, t, x);
    assert Black(s', t, t.par[x]) <==> Black(s, t, t.par[x]);
  }

  lemma MinTree(g: Graph, s: Dfs, t: Tree, c: Lit, n: nat)
    requires TreeOk(g, s, t)
    ensures TreeOk(g, WithMin(s, c, n), t)
  {
    var s' := WithMin(s, c, n);
    forall j, x | 0 <= j < |t.frames| && t.frames[j].node in s'.idx && On(s', x) && s'.idx[x] > s'.idx[t.frames[j].node]
      ensures ParentOk(g, s', t, x) && s'.idx[t.par[x]] >= s'.idx[t.frames[j].node] {
      assert On(s, x) && ParentOk(g, s, t, x);
      MinParent(g, s, t, c, n, x);
    }
  }

  lemma MinStack(s: Dfs, c: Lit, n: nat)
    requires StackOk(s) && c in s.min
    ensures StackOk(WithMin(s, c, n))
  {
    assert forall x :: On(WithMin(s, c, n), x) <==> On(s, x);
  }

  lemma MinReach(g: Graph, s: Dfs, t: Tree, c: Lit, n: nat)
    requires GrayReach(g, s, t)
    ensures GrayReach(g, WithMin(s, c, n), t)
  {
    var s' := WithMin(s, c, n);
    forall j, x | 0 <= j < |t.frames| && t.frames[j].node in s'.idx && On(s', x) &&
      s'.idx[x] >= s'.idx[t.frames[j].node]
      ensures Reach(g, t.frames[j].node, x) {
      assert On(s, x);
    }
  }

  // A finished literal may find a smaller minimum later.
  lemma LowerMin(g: Graph, s: Dfs, t: Tree, c: Lit, n: nat)
    requires Invariant(g, s, t) && Black(s, t, c) && n <= s.min[c] && Hits(g, s, c, n)
    ensures Invariant(g, WithMin(s, c, n), t)
  {
    MinStack(s, c, n);
    MinFrames(g, s, t, c, n);
    MinReach(g, s, t, c, n);
    MinBlack(g, s, t, c, n);
    MinTree(g, s, t, c, n);
  }

  // ---------- Last visit: the literal stays on the component stack ----------

  ghost function Close(t: Tree, n: nat): Tree
    requires t.frames != []
  {
    Tree(t.frames[..|t.frames| - 1], t.par, t.low[Top(t).node := n])
  }

  // The minimum over the children on the component stack.
  ghost predicate IsMin(g: Graph, s: Dfs, p: Lit, n: nat) {
    forall y :: Edge(g, p, y) && On(s, y) ==> y in s.min && n <= s.min[y]
  }

  lemma MinBelow(g: Graph, s: Dfs, t: Tree, y: Lit)
    requires FramesOk(g, s, t) && BlackOk(g, s, t) && On(s, y)
    ensures y in s.min && s.min[y] <= s.idx[y]
  {
    if Gray(t, y) {
      var j :| 0 <= j < |t.frames| && t.frames[j].node == y;
      assert FrameOk(g, s, t.frames[j]);
    } else {
      assert Finished(g, s, t, y);
    }
  }

  lemma CloseGray(t: Tree, n: nat)
    requires t.frames != []
    ensures forall x :: Gray(Close(t, n), x) ==> Gray(t, x)
    ensures forall x :: Gray(t, x) && x != Top(t).node ==> Gray(Close(t, n), x)
  {
    var t' := Close(t, n);
    forall x | Gray(t, x) && x != Top(t).node ensures Gray(t', x) {
      var j :| 0 <= j < |t.frames| && t.frames[j].node == x;
      assert t'.frames[j].node == x;
    }
    forall x | Gray(t', x) ensures Gray(t, x) {
      var j :| 0 <= j < |t'.frames| && t'.frames[j].node == x;
      assert t.frames[j].node == x;
    }
  }

  lemma TopNotBelow(g: Graph, s: Dfs, t: Tree, n: nat)
    requires FramesOk(g, s, t) && t.frames != []
    ensures !Gray(Close(t, n), Top(t).node)
  {
    var t' := Close(t, n);
    forall j | 0 <= j < |t'.frames| ensures t'.frames[j].node != Top(t).node {
      assert t'.frames[j] == t.frames[j] && FrameOk(g, s, t.frames[j]) && FrameOk(g, s, Top(t));
      assert s.idx[t.frames[j].node] < s.idx[t.frames[|t.frames| - 1].node];
    }
  }

  lemma CloseFinished(g: Graph, s: Dfs, t: Tree, n: nat)
    requires FramesOk(g, s, t) && BlackOk(g, s, t) && t.frames != [] && Top(t).pending == []
    requires n < s.idx[Top(t).node] && IsMin(g, s, Top(t).node, n) && Hits(g, s, Top(t).node, n)
    ensures Finished(g, WithMin(s, Top(t).node, n), Close(t, n), Top(t).node)
  {
    var p := Top(t).node;
    var s' := WithMin(s, p, n);
    assert FrameOk(g, s, Top(t));
    HitsMore(g, s, s', p, n);
    forall y | Edge(g, p, y) ensures y in s.idx && (On(s, y) ==> n <= s.idx[y]) {
      if On(s, y) { MinBelow(g, s, t, y); }
    }
  }

  lemma CloseBlack(g: Graph, s: Dfs, t: Tree, n: nat)
    requires FramesOk(g, s, t) && BlackOk(g, s, t) && t.frames != [] && Top(t).pending == []
    requires n < s.idx[Top(t).node] && IsMin(g, s, Top(t).node, n) && Hits(g, s, Top(t).node, n)
    ensures BlackOk(g, WithMin(s, Top(t).node, n), Close(t, n))
  {
    var p := Top(t).node;
    var s', t' := WithMin(s, p, n), Close(t, n);
    CloseGray(t, n);
    CloseFinished(g, s, t, n);
    forall x | Black(s', t', x) ensures Finished(g, s', t', x) {
      if x != p {
        assert Black(s, t, x) && Finished(g, s, t, x);
        HitsMore(g, s, s', x, t.low[x]);
        HitsMore(g, s, s', x, s.min[x]);
      }
    }
  }

  lemma CloseFrames(g: Graph, s: Dfs, t: Tree, n: nat)
    requires FramesOk(g, s, t) && t.frames != [] && n < s.idx[Top(t).node]
    requires Hits(g, s, Top(t).node, n)
    ensures FramesOk(g, WithMin(s, Top(t).node, n), Close(t, n))
  {
    var s', t' := WithMin(s, Top(t).node, n), Close(t, n);
    assert forall x :: On(s', x) <==> On(s, x);
    var z :| On(s, z) && s.idx[z] == n && Reach(g, Top(t).node, z);
    assert |t.frames| > 1 by { assert s.idx[z] >= s.idx[t.frames[0].node]; }
    TopNotBelow(g, s, t, n);
    forall j | 0 <= j < |t'.frames| ensures FrameOk(g, s', t'.frames[j]) {
      assert t'.frames[j] == t.frames[j] && FrameOk(g, s, t.frames[j]);
      assert Gray(t', t'.frames[j].node);
    }
  }

  lemma CloseReach(g: Graph, s: Dfs, t: Tree, n: nat)
    requires GrayReach(g, s, t) && t.frames != []
    ensures GrayReach(g, WithMin(s, Top(t).node, n), Close(t, n))
  {
    var s', t' := WithMin(s, Top(t).node, n), Close(t, n);
    forall j, x | 0 <= j < |t'.frames| && t'.frames[j].node in s'.idx && On(s', x) &&
      s'.idx[x] >= s'.idx[t'.frames[j].node]
      ensures Reach(g, t'.frames[j].node, x) {
      assert On(s, x) && t.frames[j] == t'.frames[j];
    }
  }

  lemma CloseParent(g: Graph, s: Dfs, t: Tree, n: nat, x: Lit)
    requires FramesOk(g, s, t) && BlackOk(g, s, t) && Chain(t) && |t.frames| > 1
    requires IsMin(g, s, Top(t).node, n) && ParentOk(g, s, t, x) && On(s, x)
    ensures ParentOk(g, WithMin(s, Top(t).node, n), Close(t, n), x)
  {
    var p := Top(t).node;
    var s', t' := WithMin(s, p, n), Close(t, n);
    CloseGray(t, n);
    assert t.par[p] == t.frames[|t.frames| - 2].node && Gray(t', t.par[p]) by {
      assert t'.frames[|t.frames| - 2].node == t.par[p];
    }
    if Black(s', t', x) && Black(s', t', t.par[x]) {
      assert x != p;
      assert Black(s, t, x) && Finished(g, s, t, x);
    }
  }

  lemma CloseTree(g: Graph, s: Dfs, t: Tree, n: nat)
    requires FramesOk(g, s, t) && BlackOk(g, s, t) && Chain(t) && TreeOk(g, s, t)
    requires |t.frames| > 1 && IsMin(g, s, Top(t).node, n)
    ensures TreeOk(g, WithMin(s, Top(t).node, n), Close(t, n))
  {
    var s', t' := WithMin(s, Top(t).node, n), Close(t, n);
    forall j, x | 0 <= j < |t'.frames| && t'.frames[j].node in s'.idx && On(s', x) &&
      s'.idx[x] > s'.idx[t'.frames[j].node]
      ensures ParentOk(g, s', t', x) && s'.idx[t'.par[x]] >= s'.idx[t'.frames[j].node] {
      assert t.frames[j] == t'.frames[j] && On(s, x) && ParentOk(g, s, t, x);
      CloseParent(g, s, t, n, x);
    }
  }

  lemma CloseInvariant(g: Graph, s: Dfs, t: Tree, n: nat)
    requires Invariant(g, s, t) && t.frames != [] && Top(t).pending == []
    requires Top(t).node in s.idx && n < s.idx[Top(t).node] && IsMin(g, s, Top(t).node, n)
    requires Hits(g, s, Top(t).node, n)
    ensures Invariant(g, WithMin(s, Top(t).node, n), Close(t, n))
  {
    TwoFrames(g, s, t, n);
    MinStack(s, Top(t).node, n);
    CloseFrames(g, s, t, n);
    CloseReach(g, s, t, n);
    CloseBlack(g, s, t, n);
    CloseTree(g, s, t, n);
    CloseChain(t, n);
    assert DoneClosed(g, WithMin(s, Top(t).node, n));
  }

  lemma TwoFrames(g: Graph, s: Dfs, t: Tree, n: nat)
    requires FramesOk(g, s, t) && t.frames != [] && Top(t).node in s.idx
    requires n < s.idx[Top(t).node] && Hits(g, s, Top(t).node, n)
    ensures |t.frames| > 1
  {
    var z :| On(s, z) && s.idx[z] == n && Reach(g, Top(t).node, z);
    assert s.idx[z] >= s.idx[t.frames[0].node];
  }

  lemma CloseChain(t: Tree, n: nat)
    requires Chain(t) && t.frames != []
    ensures Chain(Close(t, n))
  {
    var t' := Close(t, n);
    assert forall j :: 0 <= j < |t'.frames| ==> t'.frames[j] == t.frames[j];
  }

  // ---------- Last visit: the literal is the entry to its component ----------

  ghost function Component(s: Dfs, p: Lit): (c: set<Lit>)
    requires p in s.idx
    ensures forall x :: x in c <==> On(s, x) && s.idx[x] >= s.idx[p]
  {
    set x | x in s.idx && On(s, x) && s.idx[x] >= s.idx[p]
  }

  // Finished literals above the entry have no minimum below it.
  lemma {:induction false} LowChain(g: Graph, s: Dfs, t: Tree, x: Lit)
    requires StackOk(s) && FramesOk(g, s, t) && BlackOk(g, s, t) && TreeOk(g, s, t)
    requires t.frames != []
    requires Top(t).node in s.idx && IsMin(g, s, Top(t).node, s.idx[Top(t).node]) && On(s, x)
    requires s.idx[x] > s.idx[Top(t).node]
    ensures Black(s, t, x) && x in t.low && t.low[x] >= s.idx[Top(t).node]
    decreases s.idx[x]
  {
    var p := Top(t).node;
    AboveTop(g, s, t, x);
    assert Finished(g, s, t, x) && ParentOk(g, s, t, x) && s.idx[t.par[x]] >= s.idx[t.frames[|t.frames| - 1].node];
    assert On(s, p) by { assert FrameOk(g, s, Top(t)); }
    if t.par[x] != p {
      if s.idx[t.par[x]] == s.idx[p] { SameIndex(s, t.par[x], p); }
      LowChain(g, s, t, t.par[x]);
    }
  }

  lemma SameIndex(s: Dfs, x: Lit, y: Lit)
    requires StackOk(s) && On(s, x) && On(s, y) && s.idx[x] == s.idx[y]
    ensures x == y
  {
    var i :| 0 <= i < |s.scc| && s.scc[i] == x;
    var j :| 0 <= j < |s.scc| && s.scc[j] == y;
  }

  lemma AboveTop(g: Graph, s: Dfs, t: Tree, x: Lit)
    requires FramesOk(g, s, t) && t.frames != [] && Top(t).node in s.idx && On(s, x)
    requires s.idx[x] > s.idx[Top(t).node]
    ensures Black(s, t, x)
  {
    forall j | 0 <= j < |t.frames| ensures t.frames[j].node != x {
      assert FrameOk(g, s, t.frames[j]);
      assert j < |t.frames| - 1 ==> s.idx[t.frames[j].node] < s.idx[t.frames[|t.frames| - 1].node];
    }
  }

  // No edge leaves the component except to traversed literals.
  lemma ComponentClosed(g: Graph, s: Dfs, t: Tree, x: Lit, y: Lit)
    requires StackOk(s) && FramesOk(g, s, t) && BlackOk(g, s, t) && TreeOk(g, s, t)
    requires t.frames != [] && Top(t).pending == []
    requires Top(t).node in s.idx && IsMin(g, s, Top(t).node, s.idx[Top(t).node])
    requires x in Component(s, Top(t).node) && Edge(g, x, y)
    ensures y in s.done || y in Component(s, Top(t).node)
  {
    var p := Top(t).node;
    assert FrameOk(g, s, Top(t));
    if s.idx[x] == s.idx[p] {
      SameIndex(s, x, p);
      if On(s, y) { MinBelow(g, s, t, y); }
    } else {
      LowChain(g, s, t, x);
      assert Finished(g, s, t, x);
    }
  }

  // Every literal of the component reaches the entry.
  lemma {:induction false} ReachesEntry(g: Graph, s: Dfs, t: Tree, x: Lit)
    requires StackOk(s) && FramesOk(g, s, t) && BlackOk(g, s, t) && TreeOk(g, s, t)
    requires t.frames != []
    requires Top(t).node in s.idx && IsMin(g, s, Top(t).node, s.idx[Top(t).node])
    requires x in Component(s, Top(t).node)
    ensures Reach(g, x, Top(t).node)
    decreases s.idx[x]
  {
    var p := Top(t).node;
    assert FrameOk(g, s, Top(t));
    if s.idx[x] == s.idx[p] {
      SameIndex(s, x, p);
      ReachSelf(g, p);
    } else {
      LowChain(g, s, t, x);
      assert Finished(g, s, t, x);
      var z :| On(s, z) && s.idx[z] == t.low[x] && Reach(g, x, z);
      ReachesEntry(g, s, t, z);
      ReachTrans(g, x, z, p);
    }
  }

  // The component is exactly the equivalence class of the entry.
  lemma ComponentIsClass(g: Graph, s: Dfs, t: Tree)
    requires Invariant(g, s, t) && t.frames != [] && Top(t).pending == []
    requires Top(t).node in s.idx && IsMin(g, s, Top(t).node, s.idx[Top(t).node])
    ensures forall x :: x in Component(s, Top(t).node) <==> Equiv(g, Top(t).node, x)
  {
    var p := Top(t).node;
    var comp := Component(s, p);
    assert FrameOk(g, s, Top(t));
    forall x ensures x in comp <==> Equiv(g, p, x) {
      if x in comp {
        ReachesEntry(g, s, t, x);
        assert Reach(g, t.frames[|t.frames| - 1].node, x);
      }
      if Equiv(g, p, x) {
        ClosedUnion(g, s, t);
        StaysInside(g, s.done + comp, p, x);
        if x in s.done { StaysInside(g, s.done, x, p); }
      }
    }
  }

  lemma ClosedUnion(g: Graph, s: Dfs, t: Tree)
    requires Invariant(g, s, t) && t.frames != [] && Top(t).pending == []
    requires Top(t).node in s.idx && IsMin(g, s, Top(t).node, s.idx[Top(t).node])
    ensures forall x, y :: x in s.done + Component(s, Top(t).node) && Edge(g, x, y) ==>
      y in s.done + Component(s, Top(t).node)
  {
    forall x, y | x in s.done + Component(s, Top(t).node) && Edge(g, x, y)
      ensures y in s.done + Component(s, Top(t).node)
    {
      if x !in s.done { ComponentClosed(g, s, t, x, y); }
    }
  }

  // The component is taken off the stack.
  ghost predicate Left(s: Dfs, p: Lit, s': Dfs) {
    && p in s.idx && s'.idx == s.idx && s'.min == s.min && s'.count == s.count && s'.done == s.done + Component(s, p)
    && |s'.scc| <= |s.scc| && s'.scc == s.scc[..|s'.scc|]
    && (forall i :: 0 <= i < |s.scc| ==> (i < |s'.scc| <==> s.scc[i] !in Component(s, p)))
  }

  ghost function Leave(t: Tree): Tree
    requires t.frames != []
  {
    t.(frames := t.frames[..|t.frames| - 1])
  }

  // What is left on the stack is what was below the entry.
  lemma LeftOn(s: Dfs, p: Lit, s': Dfs)
    requires Left(s, p, s')
    ensures forall x :: On(s', x) <==> On(s, x) && s.idx[x] < s.idx[p]
  {
  }

  lemma LeaveStack(s: Dfs, p: Lit, s': Dfs)
    requires StackOk(s) && Left(s, p, s')
    ensures StackOk(s')
  {
    LeftOn(s, p, s');
    forall i | 0 <= i < |s'.scc| ensures On(s', s'.scc[i]) && s'.scc[i] == s.scc[i] {
      assert s.scc[i] !in Component(s, p) && On(s, s.scc[i]);
    }
    forall x | On(s', x) ensures x in s'.scc {
      var i :| 0 <= i < |s.scc| && s.scc[i] == x;
      assert s'.scc[i] == x;
    }
  }

  lemma LeaveGray(g: Graph, s: Dfs, t: Tree, s': Dfs)
    requires FramesOk(g, s, t) && t.frames != [] && Left(s, Top(t).node, s')
    ensures forall x :: On(s', x) ==> (Gray(Leave(t), x) <==> Gray(t, x))
    ensures forall j :: 0 <= j < |Leave(t).frames| ==> Leave(t).frames[j] == t.frames[j] && On(s', t.frames[j].node)
  {
    var t' := Leave(t);
    LeftOn(s, Top(t).node, s');
    forall j | 0 <= j < |t'.frames| ensures t'.frames[j] == t.frames[j] && On(s', t.frames[j].node) {
      assert FrameOk(g, s, t.frames[j]) && s.idx[t.frames[j].node] < s.idx[t.frames[|t.frames| - 1].node];
    }
    forall x | On(s', x) ensures Gray(t', x) <==> Gray(t, x) {
      if Gray(t, x) {
        var j :| 0 <= j < |t.frames| && t.frames[j].node == x;
        assert j < |t.frames| - 1 && t'.frames[j].node == x;
      }
    }
  }

  lemma LeaveFrames(g: Graph, s: Dfs, t: Tree, s': Dfs)
    requires FramesOk(g, s, t) && t.frames != [] && Left(s, Top(t).node, s')
    ensures FramesOk(g, s', Leave(t))
  {
    LeaveGray(g, s, t, s');
    LeftOn(s, Top(t).node, s');
    var t' := Leave(t);
    forall j | 0 <= j < |t'.frames| ensures FrameOk(g, s', t'.frames[j]) {
      assert FrameOk(g, s, t.frames[j]);
    }
    forall x | On(s', x) ensures |t'.frames| > 0 && s'.idx[x] >= s'.idx[t'.frames[0].node] {
      assert On(s, x) && s.idx[x] >= s.idx[t.frames[0].node];
    }
  }

  lemma LeaveReach(g: Graph, s: Dfs, t: Tree, s': Dfs)
    requires FramesOk(g, s, t) && GrayReach(g, s, t) && t.frames != []
    requires Left(s, Top(t).node, s')
    ensures GrayReach(g, s', Leave(t))
  {
    LeaveGray(g, s, t, s');
    LeftOn(s, Top(t).node, s');
    var t' := Leave(t);
    forall j, x | 0 <= j < |t'.frames| && t'.frames[j].node in s'.idx && On(s', x) &&
      s'.idx[x] >= s'.idx[t'.frames[j].node]
      ensures Reach(g, t'.frames[j].node, x) {
      assert On(s, x) && t.frames[j] == t'.frames[j];
    }
  }

  lemma LeaveBlack(g: Graph, s: Dfs, t: Tree, s': Dfs)
    requires FramesOk(g, s, t) && BlackOk(g, s, t) && t.frames != [] && Left(s, Top(t).node, s')
    ensures BlackOk(g, s', Leave(t))
  {
    LeaveGray(g, s, t, s');
    LeftOn(s, Top(t).node, s');
    var t' := Leave(t);
    forall x | Black(s', t', x) ensures Finished(g, s', t', x) {
      assert Black(s, t, x) && Finished(g, s, t, x);
      HitsMore(g, s, s', x, t.low[x]);
      HitsMore(g, s, s', x, s.min[x]);
    }
  }

  lemma LeaveTree(g: Graph, s: Dfs, t: Tree, s': Dfs)
    requires FramesOk(g, s, t) && TreeOk(g, s, t) && t.frames != [] && Left(s, Top(t).node, s')
    ensures TreeOk(g, s', Leave(t))
  {
    LeaveGray(g, s, t, s');
    LeftOn(s, Top(t).node, s');
    var t' := Leave(t);
    forall j, x | 0 <= j < |t'.frames| && t'.frames[j].node in s'.idx && On(s', x) &&
      s'.idx[x] > s'.idx[t'.frames[j].node]
      ensures ParentOk(g, s', t', x) && s'.idx[t'.par[x]] >= s'.idx[t'.frames[j].node] {
      assert On(s, x) && t.frames[j] == t'.frames[j] && ParentOk(g, s, t, x);
      assert On(s', t.par[x]);
    }
  }

  lemma LeaveInvariant(g: Graph, s: Dfs, t: Tree, s': Dfs)
    requires Invariant(g, s, t) && t.frames != [] && Top(t).pending == []
    requires Left(s, Top(t).node, s')
    requires IsMin(g, s, Top(t).node, s.idx[Top(t).node])
    ensures Invariant(g, s', Leave(t))
  {
    LeaveStack(s, Top(t).node, s');
    LeaveFrames(g, s, t, s');
    LeaveReach(g, s, t, s');
    LeaveBlack(g, s, t, s');
    LeaveTree(g, s, t, s');
    LeaveRest(g, s, t, s');
  }

  lemma LeaveRest(g: Graph, s: Dfs, t: Tree, s': Dfs)
    requires Invariant(g, s, t) && t.frames != [] && Top(t).pending == []
    requires Left(s, Top(t).node, s')
    requires IsMin(g, s, Top(t).node, s.idx[Top(t).node])
    ensures DoneClosed(g, s') && Chain(Leave(t))
  {
    ClosedUnion(g, s, t);
    assert forall j :: 0 <= j < |Leave(t).frames| ==> Leave(t).frames[j] == t.frames[j];
  }

  // ---------- The search ----------

  // Children of p that are active, as the search sees them.
  ghost predicate Sees(watches: map<Lit, seq<Lit>>, active: set<nat>, g: Graph) {
    g == GraphOf(watches, active)
  }

  // Unvisited children in the order of the watch list.
  method Children(watches: map<Lit, seq<Lit>>, active: set<nat>, idx: map<Lit, nat>, p: Lit, ghost g: Graph)
    returns (kids: seq<Lit>)
    requires Sees(watches, active, g) && Var(p) in active
    ensures forall k :: 0 <= k < |kids| ==> Edge(g, p, kids[k]) && kids[k] !in idx
    ensures forall y :: Edge(g, p, y) ==> y in idx || y in kids
  {
    var ws := Blits(watches, Neg(p));
    kids := [];
    for i := 0 to |ws|
      invariant forall k :: 0 <= k < |kids| ==> Edge(g, p, kids[k]) && kids[k] !in idx
      invariant forall k :: 0 <= k < i && Var(ws[k]) in active ==> ws[k] in idx || ws[k] in kids
    {
      var child := ws[i];
      if Var(child) in active && child !in idx {
        kids := kids + [child];
      }
    }
  }

  // The smallest minimum of p and its children that are not traversed.
  method NewMin(watches: map<Lit, seq<Lit>>, active: set<nat>, s: Dfs, p: Lit, ghost g: Graph) returns (n: nat)
    requires Sees(watches, active, g) && Var(p) in active && p in s.min
    requires forall y :: Edge(g, p, y) ==> y in s.min && y in s.idx
    ensures n <= s.min[p] && IsMin(g, s, p, n)
    ensures n == s.min[p] || exists y :: Edge(g, p, y) && On(s, y) && y in s.min && s.min[y] == n
  {
    var ws := Blits(watches, Neg(p));
    n := s.min[p];
    for i := 0 to |ws|
      invariant n <= s.min[p]
      invariant forall k :: 0 <= k < i && Var(ws[k]) in active && ws[k] !in s.done ==>
        ws[k] in s.min && n <= s.min[ws[k]]
      invariant n == s.min[p] || exists y :: Edge(g, p, y) && On(s, y) && y in s.min && s.min[y] == n
    {
      var child := ws[i];
      if Var(child) in active {
        assert Edge(g, p, child);
        if child !in s.done && n > s.min[child] { n := s.min[child]; }
      }
    }
    forall y | Edge(g, p, y) && On(s, y) ensures n <= s.min[y] {
      assert y in ws;
    }
  }

  // The minimum found is the index of a literal on the component stack that is reached.
  lemma OwnHits(g: Graph, s: Dfs, t: Tree, y: Lit)
    requires FramesOk(g, s, t) && BlackOk(g, s, t) && On(s, y)
    ensures y in s.min && Hits(g, s, y, s.min[y])
  {
    if Gray(t, y) {
      var j :| 0 <= j < |t.frames| && t.frames[j].node == y;
      assert FrameOk(g, s, t.frames[j]);
      ReachSelf(g, y);
    } else {
      assert Finished(g, s, t, y);
    }
  }

  lemma MinHits(g: Graph, s: Dfs, t: Tree, p: Lit, n: nat)
    requires FramesOk(g, s, t) && BlackOk(g, s, t) && On(s, p) && p in s.min
    requires n == s.min[p] || exists y :: Edge(g, p, y) && On(s, y) && y in s.min && s.min[y] == n
    ensures Hits(g, s, p, n)
  {
    OwnHits(g, s, t, p);
    if n != s.min[p] {
      var y :| Edge(g, p, y) && On(s, y) && y in s.min && s.min[y] == n;
      OwnHits(g, s, t, y);
      var z :| On(s, z) && s.idx[z] == n && Reach(g, y, z);
      ReachEdge(g, p, y);
      ReachTrans(g, p, y, z);
    }
  }

  lemma {:induction false} FlatTop(frames: seq<Frame>)
    requires frames != []
    ensures var n := |frames| - 1;
      Flat(frames) == Flat(frames[..n]) + [frames[n].node] + frames[n].pending && |Flat(frames)| > 0
    ensures var fr := frames[|frames| - 1];
      Flat(frames)[|Flat(frames)| - 1] == if fr.pending == [] then fr.node else fr.pending[|fr.pending| - 1]
  {
  }

  // Taking the top entry off the working stack.
  lemma FlatPop(t: Tree)
    requires t.frames != [] && Top(t).pending != []
    ensures Flat(PopPending(t).frames) == Flat(t.frames)[..|Flat(t.frames)| - 1]
  {
    var n := |t.frames| - 1;
    var fr := t.frames[n];
    var fs := PopPending(t).frames;
    FlatTop(t.frames);
    FlatTop(fs);
    assert fs[..n] == t.frames[..n];
    assert fr.pending == fr.pending[..|fr.pending| - 1] + [fr.pending[|fr.pending| - 1]];
  }

  // The entry that is visited stays, followed by its children.
  lemma FlatVisit(t: Tree, c: Lit, kids: seq<Lit>)
    ensures Flat(Visit(t, c, kids).frames) == Flat(t.frames) + [c] + kids
  {
    var fs := Visit(t, c, kids).frames;
    FlatTop(fs);
    assert fs[..|fs| - 1] == t.frames;
  }

  lemma FlatDrop(t: Tree)
    requires t.frames != [] && Top(t).pending == []
    ensures Flat(t.frames[..|t.frames| - 1]) == Flat(t.frames)[..|Flat(t.frames)| - 1]
  {
    FlatTop(t.frames);
  }

  // ---------- Components and representatives ----------

  // The component is the upper part of the stack from the entry on.
  lemma ComponentPart(s: Dfs, p: Lit, k: nat)
    requires StackOk(s) && k < |s.scc| && s.scc[k] == p
    ensures forall i :: 0 <= i < |s.scc| ==> (i >= k <==> s.scc[i] in Component(s, p))
    ensures forall x :: x in Component(s, p) ==> x in s.scc[k..]
    ensures forall i :: 0 <= i < |s.scc| && s.scc[i] == p ==> i == k
  {
    forall i | 0 <= i < |s.scc| ensures i >= k <==> s.scc[i] in Component(s, p) {
      assert On(s, s.scc[i]);
    }
    forall x | x in Component(s, p) ensures x in s.scc[k..] {
      var i :| 0 <= i < |s.scc| && s.scc[i] == x;
      assert i >= k && s.scc[k..][i - k] == x;
    }
  }

  // Whether the negation of the entry is in its component, and the literal with the smallest variable.
  method ScanComponent(s: Dfs, p: Lit) returns (unsat: bool, repr: Lit)
    requires StackOk(s) && On(s, p)
    ensures unsat <==> Neg(p) in Component(s, p)
    ensures !unsat ==> repr in Component(s, p) && forall x :: x in Component(s, p) ==> Var(repr) <= Var(x)
  {
    ghost var k :| 0 <= k < |s.scc| && s.scc[k] == p;
    var n;
    unsat, repr, n := ScanLoop(s.scc, p, k);
    ComponentPart(s, p, k);
    ScanFound(s.scc, Component(s, p), p, k, n, unsat, repr);
  }

  // What the scan says about the part of the stack from the entry on.
  lemma ScanFound(scc: seq<Lit>, comp: set<Lit>, p: Lit, k: nat, n: nat, unsat: bool, repr: Lit)
    requires k < |scc|
    requires forall i :: 0 <= i < |scc| ==> (i >= k <==> scc[i] in comp)
    requires forall x :: x in comp ==> x in scc[k..]
    requires k <= n < |scc| && if unsat then scc[n] == Neg(p) else ScanDone(scc, p, n, repr)
    requires scc[k] == p && forall i :: 0 <= i < |scc| && scc[i] == p ==> i == k
    ensures unsat <==> Neg(p) in comp
    ensures !unsat ==> repr in comp && forall x :: x in comp ==> Var(repr) <= Var(x)
  {
    if !unsat {
      forall x | x in comp ensures x != Neg(p) && Var(repr) <= Var(x) {
        var i :| 0 <= i < |scc[k..]| && scc[k..][i] == x;
        assert scc[k + i] == x;
      }
    }
  }

  ghost predicate ScanDone(scc: seq<Lit>, p: Lit, n: nat, repr: Lit) {
    && n < |scc| && scc[n] == p && (exists i :: n <= i < |scc| && scc[i] == repr)
    && forall i :: n <= i < |scc| ==> scc[i] != Neg(p) && Var(repr) <= Var(scc[i])
  }

  // From the top of the stack down to the entry.
  method ScanLoop(scc: seq<Lit>, p: Lit, ghost k: nat) returns (unsat: bool, repr: Lit, n: nat)
    requires k < |scc| && scc[k] == p
    ensures k <= n < |scc| && if unsat then scc[n] == Neg(p) else ScanDone(scc, p, n, repr)
  {
    repr, n := p, |scc|;
    while n == |scc| || scc[n] != p
      invariant k <= n <= |scc| && (repr == p || exists i :: n <= i < |scc| && scc[i] == repr)
      invariant Var(repr) <= Var(p)
      invariant forall i :: n <= i < |scc| ==> scc[i] != Neg(p) && Var(repr) <= Var(scc[i])
      decreases n
    {
      n := n - 1;
      var other := scc[n];
      if other == Neg(p) { return true, p, n; }
      if Var(other) < Var(repr) { repr := other; }
    }
    unsat := false;
  }

  // Take the component off the stack and assign representatives; frozen literals represent themselves.
  method PopComponent(s: Dfs, p: Lit, repr: Lit, frozen: set<nat>, reprs: map<Lit, Lit>)
    returns (s': Dfs, reprs': map<Lit, Lit>)
    requires StackOk(s) && On(s, p)
    ensures Left(s, p, s')
    ensures Represented(reprs, reprs', Component(s, p), repr, frozen)
  {
    ghost var k :| 0 <= k < |s.scc| && s.scc[k] == p;
    var n, done;
    ghost var taken;
    n, done, reprs', taken := PopLoop(s.scc, p, s.done, repr, frozen, reprs, k);
    AllTaken(s, p, k, n, taken);
    s' := Popped(s, n, done);
    PoppedLeft(s, p, n, done);
  }

  // Pop literals until the entry has been popped.
  method PopLoop(scc: seq<Lit>, p: Lit, done0: set<Lit>, repr: Lit, frozen: set<nat>, reprs: map<Lit, Lit>,
        ghost k: nat)
    returns (n: nat, done: set<Lit>, r: map<Lit, Lit>, ghost taken: set<Lit>)
    requires k < |scc| && scc[k] == p
    ensures k <= n < |scc| && scc[n] == p && TakenFrom(scc, n, taken) && done == done0 + taken
    ensures Represented(reprs, r, taken, repr, frozen)
  {
    n, done, r, taken := |scc|, done0, reprs, {};
    while n == |scc| || scc[n] != p
      invariant k <= n <= |scc| && done == done0 + taken && TakenFrom(scc, n, taken)
      invariant Represented(reprs, r, taken, repr, frozen)
      decreases n
    {
      n := n - 1;
      TakeOne(scc, n + 1, taken);
      done, r := PopOne(scc[n], repr, frozen, done, r, reprs, taken);
      taken := taken + {scc[n]};
    }
  }

  function Popped(s: Dfs, n: nat, done: set<Lit>): Dfs
    requires n <= |s.scc|
  {
    s.(scc := s.scc[..n], done := done)
  }

  lemma PoppedLeft(s: Dfs, p: Lit, k: nat, done: set<Lit>)
    requires StackOk(s) && k < |s.scc| && s.scc[k] == p && p in s.idx
    requires done == s.done + Component(s, p)
    ensures Left(s, p, Popped(s, k, done))
  {
    ComponentPart(s, p, k);
  }

  method PopOne(other: Lit, repr: Lit, frozen: set<nat>, done: set<Lit>, r: map<Lit, Lit>, ghost reprs: map<Lit, Lit>,
        ghost taken: set<Lit>)
    returns (done': set<Lit>, r': map<Lit, Lit>)
    requires Represented(reprs, r, taken, repr, frozen)
    ensures done' == done + {other} && Represented(reprs, r', taken + {other}, repr, frozen)
  {
    done' := done + {other};
    r' := r[other := if Var(other) in frozen then other else repr];
  }

  ghost predicate Represented(reprs: map<Lit, Lit>, reprs': map<Lit, Lit>, taken: set<Lit>, repr: Lit,
        frozen: set<nat>)
  {
    && (forall x :: x in reprs' <==> x in reprs || x in taken)
    && (forall x :: x in taken ==> reprs'[x] == if Var(x) in frozen then x else repr)
    && (forall x :: x in reprs && x !in taken ==> reprs'[x] == reprs[x])
  }

  // The literals of the component stack from position n on.
  ghost predicate TakenFrom(scc: seq<Lit>, n: nat, taken: set<Lit>) {
    n <= |scc| && (forall i :: n <= i < |scc| ==> scc[i] in taken) && (forall x :: x in taken ==> x in scc[n..])
  }

  lemma TakeOne(scc: seq<Lit>, n: nat, taken: set<Lit>)
    requires TakenFrom(scc, n, taken) && 0 < n
    ensures TakenFrom(scc, n - 1, taken + {scc[n - 1]})
  {
    assert scc[n - 1..] == [scc[n - 1]] + scc[n..];
  }

  lemma AllTaken(s: Dfs, p: Lit, k: nat, n: nat, taken: set<Lit>)
    requires StackOk(s) && k <= n < |s.scc| && s.scc[k] == p == s.scc[n]
    requires TakenFrom(s.scc, n, taken)
    ensures p in s.idx && taken == Component(s, p) && n == k
  {
    assert On(s, s.scc[n]);
    ComponentPart(s, p, k);
    forall x | x in Component(s, p) ensures x in taken {
      assert x in s.scc[k..];
      var i :| k <= i < |s.scc| && s.scc[i] == x;
    }
  }

  ghost predicate Representative(g: Graph, x: Lit, r: Lit) {
    Equiv(g, x, r) && forall y :: Equiv(g, x, y) ==> Var(r) <= Var(y)
  }

  // Traversed literals have a representative and no complementary pair in their component.
  ghost predicate ReprsOk(g: Graph, done: set<Lit>, reprs: map<Lit, Lit>, frozen: set<nat>) {
    && (forall x :: x in reprs <==> x in done)
    && (forall x :: x in reprs ==> ReprOk(g, x, reprs[x], frozen))
  }

  ghost predicate ReprOk(g: Graph, x: Lit, r: Lit, frozen: set<nat>) {
    !Equiv(g, x, Neg(x)) && if Var(x) in frozen then r == x else Representative(g, x, r)
  }

  lemma EquivOther(g: Graph, p: Lit, x: Lit, y: Lit)
    requires Equiv(g, p, x)
    ensures Equiv(g, x, y) <==> Equiv(g, p, y)
  {
    if Equiv(g, x, y) {
      ReachTrans(g, p, x, y);
      ReachTrans(g, y, x, p);
    }
    if Equiv(g, p, y) {
      ReachTrans(g, x, p, y);
      ReachTrans(g, y, p, x);
    }
  }

  lemma ComponentReprs(g: Graph, f: Formula, comp: set<Lit>, p: Lit, repr: Lit, x: Lit)
    requires WellFormed(g, f) && (forall y :: y in comp <==> Equiv(g, p, y)) && Neg(p) !in comp
    requires repr in comp && (forall y :: y in comp ==> Var(repr) <= Var(y)) && x in comp
    ensures !Equiv(g, x, Neg(x)) && Representative(g, x, repr)
  {
    EquivOther(g, p, x, Neg(x));
    if Equiv(g, p, Neg(x)) { ComplementSuffices(g, f, p, x); }
    EquivOther(g, p, x, repr);
    forall y | Equiv(g, x, y) ensures Var(repr) <= Var(y) {
      EquivOther(g, p, x, y);
    }
  }

  // The entry to a component has been found.
  method FinishComponent(s: Dfs, p: Lit, frozen: set<nat>, reprs: map<Lit, Lit>, ghost g: Graph, ghost t: Tree,
        ghost f: Formula)
    returns (unsat: bool, s': Dfs, reprs': map<Lit, Lit>)
    requires WellFormed(g, f) && Invariant(g, s, t) && t.frames != [] && Top(t).pending == []
    requires Top(t).node == p
    requires p in s.idx && IsMin(g, s, p, s.idx[p]) && ReprsOk(g, s.done, reprs, frozen)
    ensures unsat ==> Unsatisfiable(f)
    ensures s'.idx == s.idx
    ensures unsat || (Invariant(g, s', Leave(t)) && ReprsOk(g, s'.done, reprs', frozen))
  {
    assert On(s, p) by { assert FrameOk(g, s, Top(t)); }
    ComponentIsClass(g, s, t);
    var repr;
    unsat, repr := ScanComponent(s, p);
    s', reprs' := s, reprs;
    if unsat {
      ComplementaryUnsat(g, f, p);
    } else {
      s', reprs' := PopComponent(s, p, repr, frozen, reprs);
      LeaveInvariant(g, s, t, s');
      FinishReprs(g, f, s.done, Component(s, p), p, repr, reprs, reprs', frozen);
    }
  }

  lemma FinishReprs(g: Graph, f: Formula, done: set<Lit>, comp: set<Lit>, p: Lit, repr: Lit, reprs: map<Lit, Lit>,
        reprs': map<Lit, Lit>, frozen: set<nat>)
    requires WellFormed(g, f) && (forall y :: y in comp <==> Equiv(g, p, y)) && Neg(p) !in comp
    requires repr in comp
    requires forall y :: y in comp ==> Var(repr) <= Var(y)
    requires ReprsOk(g, done, reprs, frozen)
    requires Represented(reprs, reprs', comp, repr, frozen)
    ensures ReprsOk(g, done + comp, reprs', frozen)
  {
    forall x | x in reprs' ensures ReprOk(g, x, reprs'[x], frozen) {
      if x in comp {
        ComponentReprs(g, f, comp, p, repr, x);
      } else {
        assert ReprOk(g, x, reprs[x], frozen);
      }
    }
  }

  // ---------- Steps of the search ----------

  ghost predicate AllActive(work: seq<Lit>, active: set<nat>) {
    forall i :: 0 <= i < |work| ==> Var(work[i]) in active
  }

  // The working stack belongs to the search tree, or holds only the root of a new tree.
  ghost predicate Working(g: Graph, s: Dfs, t: Tree, work: seq<Lit>) {
    || (Invariant(g, s, t) && work == Flat(t.frames))
    || (Invariant(g, s, t) && t.frames == [] && |work| == 1 && work[0] !in s.idx)
  }

  // First visit: the unvisited children go on the working stack.
  method PreFix(watches: map<Lit, seq<Lit>>, active: set<nat>, s: Dfs, work: seq<Lit>, ghost g: Graph, ghost t: Tree)
    returns (s': Dfs, work': seq<Lit>, ghost t': Tree)
    requires Sees(watches, active, g) && Working(g, s, t, work) && work != []
    requires AllActive(work, active)
    requires work[|work| - 1] !in s.idx
    ensures Working(g, s', t', work') && AllActive(work', active)
    ensures s'.done == s.done && s'.idx.Keys == s.idx.Keys + {work[|work| - 1]}
  {
    var c := work[|work| - 1];
    var kids := Children(watches, active, s.idx[c := s.count + 1], c, g);
    t' := VisitTop(g, s, t, work, kids);
    s', work' := Enter(s, c), work + kids;
    KidsActive(watches, active, g, c, kids, work);
  }

  lemma KidsActive(watches: map<Lit, seq<Lit>>, active: set<nat>, g: Graph, c: Lit, kids: seq<Lit>, work: seq<Lit>)
    requires Sees(watches, active, g) && AllActive(work, active)
    requires forall k :: 0 <= k < |kids| ==> Edge(g, c, kids[k])
    ensures AllActive(work + kids, active)
  {
    forall k | 0 <= k < |kids| ensures Var(kids[k]) in active {
      assert Edge(g, c, kids[k]);
    }
  }

  lemma VisitTop(g: Graph, s: Dfs, t: Tree, work: seq<Lit>, kids: seq<Lit>) returns (t': Tree)
    requires Working(g, s, t, work) && work != [] && work[|work| - 1] !in s.idx
    requires forall k :: 0 <= k < |kids| ==>
      Edge(g, work[|work| - 1], kids[k]) && kids[k] !in s.idx && kids[k] != work[|work| - 1]
    requires forall y :: Edge(g, work[|work| - 1], y) ==> y in s.idx || y == work[|work| - 1] || y in kids
    ensures Working(g, Enter(s, work[|work| - 1]), t', work + kids)
  {
    var t1 := BeforeVisit(g, s, t, work);
    t' := VisitPrepared(g, s, t1, work, kids);
  }

  lemma VisitPrepared(g: Graph, s: Dfs, t: Tree, work: seq<Lit>, kids: seq<Lit>) returns (t': Tree)
    requires work != [] && Prepared(g, s, t, work[|work| - 1])
    requires Flat(t.frames) == work[..|work| - 1]
    requires forall k :: 0 <= k < |kids| ==>
      Edge(g, work[|work| - 1], kids[k]) && kids[k] !in s.idx && kids[k] != work[|work| - 1]
    requires forall y :: Edge(g, work[|work| - 1], y) ==> y in s.idx || y == work[|work| - 1] || y in kids
    ensures Working(g, Enter(s, work[|work| - 1]), t', work + kids)
  {
    var c := work[|work| - 1];
    FlatVisitWork(t, work, kids);
    EnterInvariant(g, s, t, c, kids);
    t' := Visit(t, c, kids);
  }

  lemma FlatVisitWork(t: Tree, work: seq<Lit>, kids: seq<Lit>)
    requires work != [] && Flat(t.frames) == work[..|work| - 1]
    ensures Flat(Visit(t, work[|work| - 1], kids).frames) == work + kids
  {
    FlatVisit(t, work[|work| - 1], kids);
    assert work == work[..|work| - 1] + [work[|work| - 1]];
  }

  // The tree without the entry about to be visited.
  lemma NoFrames(g: Graph, s: Dfs, t: Tree, work: seq<Lit>)
    requires Working(g, s, t, work) && work != [] && work[|work| - 1] !in s.idx && t.frames == []
    ensures Prepared(g, s, t, work[|work| - 1]) && work[..|work| - 1] == []
  {
    assert Flat(t.frames) == [];
  }

  lemma BeforeVisit(g: Graph, s: Dfs, t: Tree, work: seq<Lit>) returns (t1: Tree)
    requires Working(g, s, t, work) && work != [] && work[|work| - 1] !in s.idx
    ensures Prepared(g, s, t1, work[|work| - 1])
    ensures Flat(t1.frames) == work[..|work| - 1]
  {
    t1 := t;
    if t.frames == [] {
      assert Flat(t.frames) == [];
      NoFrames(g, s, t, work);
    } else {
      TopEntry(g, s, t, work);
      PopInvariant(g, s, t);
      FlatPop(t);
      t1 := PopPending(t);
    }
  }

  // The top of the working stack is a pending child, unless it is the last literal being visited.
  lemma TopEntry(g: Graph, s: Dfs, t: Tree, work: seq<Lit>)
    requires Working(g, s, t, work) && work != [] && t.frames != []
    ensures work == Flat(t.frames) && On(s, Top(t).node)
    ensures work[|work| - 1] == if Top(t).pending == [] then Top(t).node else Top(t).pending[|Top(t).pending| - 1]
  {
    FlatTop(t.frames);
    assert FrameOk(g, s, t.frames[|t.frames| - 1]);
  }

  lemma HasFrames(g: Graph, s: Dfs, t: Tree, work: seq<Lit>)
    requires Working(g, s, t, work) && work != [] && work[|work| - 1] in s.idx
    ensures t.frames != []
  {
    assert Flat([]) == [];
  }

  // An entry of a literal visited before is dropped.
  lemma DropEntry(g: Graph, s: Dfs, t: Tree, work: seq<Lit>) returns (t': Tree)
    requires Working(g, s, t, work) && work != [] && work[|work| - 1] in s.idx && t.frames != []
    requires Top(t).pending != []
    ensures Working(g, s, t', work[..|work| - 1]) && SameNodes(t, t')
  {
    TopEntry(g, s, t, work);
    PopInvariant(g, s, t);
    FlatPop(t);
    t' := PopPending(t);
  }

  lemma DoneEntry(g: Graph, s: Dfs, t: Tree, work: seq<Lit>)
    requires Working(g, s, t, work) && work != [] && work[|work| - 1] in s.done
    ensures work[|work| - 1] in s.idx && t.frames != [] && Top(t).pending != []
  {
    HasFrames(g, s, t, work);
    TopEntry(g, s, t, work);
  }

  // An entry of a finished literal may lower its minimum.
  lemma AgainEntry(g: Graph, s: Dfs, t: Tree, work: seq<Lit>, n: nat) returns (t': Tree)
    requires Working(g, s, t, work) && work != [] && t.frames != [] && Top(t).pending != []
    requires On(s, work[|work| - 1])
    requires work[|work| - 1] in s.min && n <= s.min[work[|work| - 1]]
    requires Hits(g, s, work[|work| - 1], n)
    ensures Working(g, WithMin(s, work[|work| - 1], n), t', work[..|work| - 1])
  {
    var c := work[|work| - 1];
    EntryBlack(g, s, t, work);
    t' := DropEntry(g, s, t, work);
    LowerWorking(g, s, t', work[..|work| - 1], c, n);
  }

  lemma LowerWorking(g: Graph, s: Dfs, t: Tree, work: seq<Lit>, c: Lit, n: nat)
    requires Working(g, s, t, work) && Black(s, t, c) && c in s.min && n <= s.min[c]
    requires Hits(g, s, c, n)
    ensures Working(g, WithMin(s, c, n), t, work)
  {
    LowerMin(g, s, t, c, n);
  }

  lemma EntryBlack(g: Graph, s: Dfs, t: Tree, work: seq<Lit>)
    requires Working(g, s, t, work) && work != [] && t.frames != [] && Top(t).pending != []
    requires On(s, work[|work| - 1])
    ensures Black(s, t, work[|work| - 1])
  {
    TopEntry(g, s, t, work);
    PendingBlack(g, s, t);
  }

  // A pending child on the component stack is finished.
  lemma PendingBlack(g: Graph, s: Dfs, t: Tree)
    requires FramesOk(g, s, t) && t.frames != [] && Top(t).pending != []
    requires On(s, Top(t).pending[|Top(t).pending| - 1])
    ensures Black(s, t, Top(t).pending[|Top(t).pending| - 1])
  {
    assert FrameOk(g, s, Top(t));
    AboveTop(g, s, t, Top(t).pending[|Top(t).pending| - 1]);
  }

  lemma CloseEntry(g: Graph, s: Dfs, t: Tree, work: seq<Lit>, n: nat) returns (t': Tree)
    requires Working(g, s, t, work) && work != [] && t.frames != [] && Top(t).pending == []
    requires On(s, work[|work| - 1])
    requires n < s.idx[work[|work| - 1]] && IsMin(g, s, work[|work| - 1], n)
    requires Hits(g, s, work[|work| - 1], n)
    ensures Working(g, WithMin(s, work[|work| - 1], n), t', work[..|work| - 1])
  {
    TopEntry(g, s, t, work);
    CloseInvariant(g, s, t, n);
    FlatDrop(t);
    t' := Close(t, n);
  }

  // All children have been visited at the last visit, and their minima are meaningful.
  lemma ChildrenVisited(g: Graph, s: Dfs, t: Tree, work: seq<Lit>)
    requires Working(g, s, t, work) && work != [] && t.frames != [] && On(s, work[|work| - 1])
    ensures forall y :: Edge(g, work[|work| - 1], y) ==> y in s.min && y in s.idx
    ensures work[|work| - 1] in s.min
    ensures if Top(t).pending == [] then s.min[work[|work| - 1]] == s.idx[work[|work| - 1]]
      else s.min[work[|work| - 1]] < s.idx[work[|work| - 1]]
  {
    TopEntry(g, s, t, work);
    if Top(t).pending == [] {
      assert FrameOk(g, s, t.frames[|t.frames| - 1]);
    } else {
      PendingBlack(g, s, t);
      assert Finished(g, s, t, work[|work| - 1]);
    }
  }

  // Last visit of the literal on top: either it enters a component, or it stays on the component stack.
  method PostFix(watches: map<Lit, seq<Lit>>, active: set<nat>, frozen: set<nat>, s: Dfs, work: seq<Lit>,
        reprs: map<Lit, Lit>, ghost g: Graph, ghost t: Tree, ghost f: Formula)
    returns (unsat: bool, s': Dfs, reprs': map<Lit, Lit>, ghost t': Tree)
    requires Sees(watches, active, g) && WellFormed(g, f) && ReprsOk(g, s.done, reprs, frozen)
    requires Working(g, s, t, work) && work != [] && On(s, work[|work| - 1])
    requires Var(work[|work| - 1]) in active
    ensures unsat ==> Unsatisfiable(f)
    ensures unsat || (Working(g, s', t', work[..|work| - 1]) && ReprsOk(g, s'.done, reprs', frozen))
    ensures s'.idx == s.idx
  {
    var p := work[|work| - 1];
    HasFrames(g, s, t, work);
    ChildrenVisited(g, s, t, work);
    var n := NewMin(watches, active, s, p, g);
    WorkingHits(g, s, t, work, n);
    unsat, s', reprs', t' := false, s, reprs, t;
    if s.idx[p] == n {
      unsat, s', reprs', t' := EntryFound(frozen, s, work, reprs, g, t, f);
    } else {
      s' := WithMin(s, p, n);
      if Top(t).pending == [] {
        t' := CloseEntry(g, s, t, work, n);
      } else {
        t' := AgainEntry(g, s, t, work, n);
      }
    }
  }

  lemma WorkingHits(g: Graph, s: Dfs, t: Tree, work: seq<Lit>, n: nat)
    requires Working(g, s, t, work) && work != [] && On(s, work[|work| - 1])
    requires work[|work| - 1] in s.min
    requires n == s.min[work[|work| - 1]] || exists y ::
      Edge(g, work[|work| - 1], y) && On(s, y) && y in s.min && s.min[y] == n
    ensures Hits(g, s, work[|work| - 1], n)
  {
    MinHits(g, s, t, work[|work| - 1], n);
  }

  method EntryFound(frozen: set<nat>, s: Dfs, work: seq<Lit>, reprs: map<Lit, Lit>, ghost g: Graph, ghost t: Tree,
        ghost f: Formula)
    returns (unsat: bool, s': Dfs, reprs': map<Lit, Lit>, ghost t': Tree)
    requires WellFormed(g, f) && ReprsOk(g, s.done, reprs, frozen) && Working(g, s, t, work)
    requires work != [] && t.frames != []
    requires Top(t).pending == [] && On(s, work[|work| - 1])
    requires IsMin(g, s, work[|work| - 1], s.idx[work[|work| - 1]])
    ensures unsat ==> Unsatisfiable(f)
    ensures unsat || (Working(g, s', t', work[..|work| - 1]) && ReprsOk(g, s'.done, reprs', frozen))
    ensures s'.idx == s.idx
  {
    TopEntry(g, s, t, work);
    FlatDrop(t);
    unsat, s', reprs' := FinishComponent(s, work[|work| - 1], frozen, reprs, g, t, f);
    t' := Leave(t);
  }

  // ---------- All searches ----------

  ghost predicate Inside(s: Dfs, universe: set<Lit>) {
    s.idx.Keys <= universe
  }

  // The literals over the active variables, a finite set.
  ghost predicate Covers(universe: set<Lit>, active: set<nat>) {
    forall l: Lit :: Var(l) in active <==> l in universe
  }

  // No search is under way.
  ghost predicate Idle(g: Graph, s: Dfs, reprs: map<Lit, Lit>, frozen: set<nat>, universe: set<Lit>) {
    Invariant(g, s, Tree([], map[], map[])) && ReprsOk(g, s.done, reprs, frozen) && Inside(s, universe)
  }

  // Between searches all visited literals are traversed.
  lemma IdleDone(g: Graph, s: Dfs, t: Tree)
    requires Invariant(g, s, t) && t.frames == []
    ensures s.idx.Keys == s.done && Invariant(g, s, Tree([], map[], map[]))
  {
    assert forall x :: !On(s, x);
    var t' := Tree([], map[], map[]);
    assert FramesOk(g, s, t') && GrayReach(g, s, t') && BlackOk(g, s, t') && TreeOk(g, s, t') && Chain(t');
  }

  lemma EmptyWork(g: Graph, s: Dfs, t: Tree, work: seq<Lit>)
    requires Working(g, s, t, work) && work == []
    ensures t.frames == [] && Invariant(g, s, t)
  {
    if t.frames != [] { FlatTop(t.frames); }
  }

  lemma VisitedSmaller(universe: set<Lit>, a: set<Lit>, c: Lit)
    requires c in universe && c !in a
    ensures |universe - (a + {c})| < |universe - a|
  {
    assert universe - a == (universe - (a + {c})) + {c};
  }

  // Visited literals are active, and the root has been visited or is the only entry.
  ghost predicate Advanced(s0: Dfs, s: Dfs, universe: set<Lit>, root: Lit, work: seq<Lit>) {
    Inside(s, universe) && s0.idx.Keys <= s.idx.Keys && (root in s.idx || work == [root])
  }

  lemma Advance(s0: Dfs, s: Dfs, s': Dfs, universe: set<Lit>, root: Lit, work: seq<Lit>, work': seq<Lit>)
    requires work != [] && Advanced(s0, s, universe, root, work)
    requires Progressed(s, work, s', work', universe)
    ensures Advanced(s0, s', universe, root, work')
    ensures |universe - s'.idx.Keys| < |universe - s.idx.Keys| || (s'.idx.Keys == s.idx.Keys && |work'| < |work|)
  {
    var c := work[|work| - 1];
    if c !in s.idx { VisitedSmaller(universe, s.idx.Keys, c); }
  }

  // One depth first search.
  method Search(watches: map<Lit, seq<Lit>>, active: set<nat>, frozen: set<nat>, root: Lit, s0: Dfs, reprs0: map<Lit,
        Lit>, ghost g: Graph, ghost f: Formula, ghost universe: set<Lit>)
    returns (unsat: bool, s: Dfs, reprs: map<Lit, Lit>)
    requires Sees(watches, active, g) && WellFormed(g, f) && Covers(universe, active)
    requires Var(root) in active
    requires Idle(g, s0, reprs0, frozen, universe) && root !in s0.done
    ensures unsat ==> Unsatisfiable(f)
    ensures unsat || (Idle(g, s, reprs, frozen, universe) && root in s.done && s0.done <= s.done)
  {
    s, reprs, unsat := s0, reprs0, false;
    var work := [root];
    ghost var t := Tree([], map[], map[]);
    IdleDone(g, s, t);
    while !unsat && work != []
      invariant unsat ==> Unsatisfiable(f)
      invariant unsat || (Working(g, s, t, work) && ReprsOk(g, s.done, reprs, frozen))
      invariant AllActive(work, active) && Advanced(s0, s, universe, root, work)
      decreases !unsat, |universe - s.idx.Keys|, |work|
    {
      ghost var before, entries := s, work;
      unsat, s, work, reprs, t := Step(watches, active, frozen, s, work, reprs, g, t, f, universe);
      Advance(s0, before, s, universe, root, entries, work);
    }
    if !unsat {
      EmptyWork(g, s, t, work);
      IdleDone(g, s, t);
      IdleDone(g, s0, Tree([], map[], map[]));
    }
  }

  // A literal is visited for the first time, or an entry of a visited one is removed.
  ghost predicate Progressed(s: Dfs, work: seq<Lit>, s': Dfs, work': seq<Lit>, universe: set<Lit>)
    requires work != []
  {
    || (s'.idx == s.idx && work[|work| - 1] in s.idx && |work'| < |work|)
    || (work[|work| - 1] in universe && work[|work| - 1] !in s.idx && s'.idx.Keys == s.idx.Keys + {work[|work| - 1]})
  }

  lemma DropDone(g: Graph, s: Dfs, t: Tree, work: seq<Lit>) returns (t': Tree)
    requires Working(g, s, t, work) && work != [] && work[|work| - 1] in s.done
    ensures work[|work| - 1] in s.idx && Working(g, s, t', work[..|work| - 1])
  {
    DoneEntry(g, s, t, work);
    t' := DropEntry(g, s, t, work);
  }

  method Step(watches: map<Lit, seq<Lit>>, active: set<nat>, frozen: set<nat>, s: Dfs, work: seq<Lit>, reprs: map<Lit,
        Lit>, ghost g: Graph, ghost t: Tree, ghost f: Formula, ghost universe: set<Lit>)
    returns (unsat: bool, s': Dfs, work': seq<Lit>, reprs': map<Lit, Lit>, ghost t': Tree)
    requires Sees(watches, active, g) && WellFormed(g, f) && Covers(universe, active)
    requires ReprsOk(g, s.done, reprs, frozen)
    requires Working(g, s, t, work) && work != [] && AllActive(work, active)
    requires Inside(s, universe)
    ensures unsat ==> Unsatisfiable(f)
    ensures unsat || (Working(g, s', t', work') && ReprsOk(g, s'.done, reprs', frozen))
    ensures AllActive(work', active) && Progressed(s, work, s', work', universe)
  {
    var parent := work[|work| - 1];
    unsat, s', reprs' := false, s, reprs;
    work' := work[..|work| - 1];
    if parent in s.idx {
      unsat, s', reprs', t' := Again(watches, active, frozen, s, work, reprs, g, t, f);
    } else {
      s', work', t' := PreFix(watches, active, s, work, g, t);
    }
  }

  // The top of the working stack has been visited before: traversed, or its last visit.
  method Again(watches: map<Lit, seq<Lit>>, active: set<nat>, frozen: set<nat>, s: Dfs, work: seq<Lit>,
        reprs: map<Lit, Lit>, ghost g: Graph, ghost t: Tree, ghost f: Formula)
    returns (unsat: bool, s': Dfs, reprs': map<Lit, Lit>, ghost t': Tree)
    requires Sees(watches, active, g) && WellFormed(g, f) && ReprsOk(g, s.done, reprs, frozen)
    requires Working(g, s, t, work) && work != [] && work[|work| - 1] in s.idx
    requires Var(work[|work| - 1]) in active
    ensures unsat ==> Unsatisfiable(f)
    ensures unsat || (Working(g, s', t', work[..|work| - 1]) && ReprsOk(g, s'.done, reprs', frozen))
    ensures s'.idx == s.idx
  {
    unsat, s', reprs' := false, s, reprs;
    if work[|work| - 1] in s.done {
      t' := DropDone(g, s, t, work);
    } else {
      unsat, s', reprs', t' := PostFix(watches, active, frozen, s, work, reprs, g, t, f);
    }
  }

  function Positive(v: nat): Lit
    requires v > 0
  {
    v
  }

  // Both literals of a variable have been traversed.
  ghost predicate Traversed(s: Dfs, v: nat) {
    v > 0 && Positive(v) in s.done && Neg(Positive(v)) in s.done
  }

  // The representatives of all active literals, or the formula is unsatisfiable.
  method DecomposeRound(watches: map<Lit, seq<Lit>>, active: set<nat>, frozen: set<nat>, vars: seq<nat>,
        ghost f: Formula, ghost universe: set<Lit>)
    returns (unsat: bool, reprs: map<Lit, Lit>)
    requires WatchesOk(watches, f) && Covers(universe, active)
    requires (forall v :: v in active ==> v in vars) && forall i :: 0 <= i < |vars| ==> vars[i] > 0
    ensures unsat ==> Unsatisfiable(f)
    ensures !unsat ==> forall l: Lit :: l in reprs <==> Var(l) in active
    ensures !unsat ==> forall l :: l in reprs ==> ReprOk(GraphOf(watches, active), l, reprs[l], frozen)
  {
    ghost var g := GraphOf(watches, active);
    GraphWellFormed(watches, active, f);
    var s := Dfs(map[], map[], {}, [], 0);
    unsat, reprs := false, map[];
    StartIdle(g, frozen, universe);
    for i := 0 to |vars|
      invariant unsat ==> Unsatisfiable(f)
      invariant unsat || Idle(g, s, reprs, frozen, universe)
      invariant unsat || AllTraversed(s, vars, i, active)
    {
      if unsat { return; }
      if vars[i] in active {
        ghost var before := s;
        unsat, s, reprs := SearchBoth(watches, active, frozen, vars[i], s, reprs, g, f, universe);
        if !unsat { TraversedMore(before, s, vars, i, active); }
      }
    }
    if !unsat {
      AllRepresented(g, s, reprs, frozen, universe, active, vars);
    }
  }

  ghost predicate AllTraversed(s: Dfs, vars: seq<nat>, n: nat, active: set<nat>) {
    n <= |vars| && forall k :: 0 <= k < n && vars[k] in active ==> Traversed(s, vars[k])
  }

  lemma TraversedMore(s: Dfs, s': Dfs, vars: seq<nat>, i: nat, active: set<nat>)
    requires AllTraversed(s, vars, i, active) && i < |vars| && s.done <= s'.done
    requires Traversed(s', vars[i])
    ensures AllTraversed(s', vars, i + 1, active)
  {
    forall k | 0 <= k < i && vars[k] in active ensures Traversed(s', vars[k]) {
      assert Traversed(s, vars[k]);
    }
  }

  lemma AllRepresented(g: Graph, s: Dfs, reprs: map<Lit, Lit>, frozen: set<nat>, universe: set<Lit>, active: set<nat>,
        vars: seq<nat>)
    requires Idle(g, s, reprs, frozen, universe) && Covers(universe, active)
    requires forall v :: v in active ==> v in vars
    requires AllTraversed(s, vars, |vars|, active)
    ensures forall l: Lit :: l in reprs <==> Var(l) in active
    ensures forall l :: l in reprs ==> ReprOk(g, l, reprs[l], frozen)
  {
    IdleDone(g, s, Tree([], map[], map[]));
    forall l: Lit | Var(l) in active ensures l in reprs {
      var k :| 0 <= k < |vars| && vars[k] == Var(l);
      assert Traversed(s, vars[k]) && (l == Positive(vars[k]) || l == Neg(Positive(vars[k])));
    }
  }

  lemma StartIdle(g: Graph, frozen: set<nat>, universe: set<Lit>)
    ensures Idle(g, Dfs(map[], map[], {}, [], 0), map[], frozen, universe)
  {
  }

  // Search from the negative and then from the positive literal of a variable.
  method SearchBoth(watches: map<Lit, seq<Lit>>, active: set<nat>, frozen: set<nat>, v: nat, s0: Dfs, reprs0: map<Lit,
        Lit>, ghost g: Graph, ghost f: Formula, ghost universe: set<Lit>)
    returns (unsat: bool, s: Dfs, reprs: map<Lit, Lit>)
    requires Sees(watches, active, g) && WellFormed(g, f) && Covers(universe, active)
    requires v in active && v > 0
    requires Idle(g, s0, reprs0, frozen, universe)
    ensures unsat ==> Unsatisfiable(f)
    ensures unsat || (Idle(g, s, reprs, frozen, universe) && s0.done <= s.done && Traversed(s, v))
  {
    unsat, s, reprs := SearchFrom(watches, active, frozen, Neg(Positive(v)), s0, reprs0, g, f, universe);
    if !unsat {
      unsat, s, reprs := SearchFrom(watches, active, frozen, Positive(v), s, reprs, g, f, universe);
    }
  }

  // Traversed literals are skipped.
  method SearchFrom(watches: map<Lit, seq<Lit>>, active: set<nat>, frozen: set<nat>, root: Lit, s0: Dfs,
        reprs0: map<Lit, Lit>, ghost g: Graph, ghost f: Formula, ghost universe: set<Lit>)
    returns (unsat: bool, s: Dfs, reprs: map<Lit, Lit>)
    requires Sees(watches, active, g) && WellFormed(g, f) && Covers(universe, active)
    requires Var(root) in active
    requires Idle(g, s0, reprs0, frozen, universe)
    ensures unsat ==> Unsatisfiable(f)
    ensures unsat || (Idle(g, s, reprs, frozen, universe) && s0.done <= s.done && root in s.done)
  {
    unsat, s, reprs := false, s0, reprs0;
    if root !in s.done {
      unsat, s, reprs := Search(watches, active, frozen, root, s, reprs, g, f, universe);
    }
  }

  // ---------- Consequences ----------

  // The representative of the negation is the negation of the representative.
  lemma ReprNegation(g: Graph, f: Formula, l: Lit, r: Lit, r': Lit, frozen: set<nat>)
    requires WellFormed(g, f) && ReprOk(g, l, r, frozen) && ReprOk(g, Neg(l), r', frozen)
    ensures r' == Neg(r)
  {
    assert Var(Neg(l)) == Var(l);
    if Var(l) !in frozen {
      SameVariable(g, f, l, r, r');
      DifferentReprs(g, l, r, r');
    }
  }

  lemma DifferentReprs(g: Graph, l: Lit, r: Lit, r': Lit)
    requires Equiv(g, l, r) && Equiv(g, Neg(l), r') && !Equiv(g, l, Neg(l))
    ensures r != r'
  {
    if r == r' { EquivTrans(g, l, r, Neg(l)); }
  }

  // Contraposition maps the smallest variable of a component to that of the contraposed one.
  lemma SameVariable(g: Graph, f: Formula, l: Lit, r: Lit, r': Lit)
    requires WellFormed(g, f) && Representative(g, l, r) && Representative(g, Neg(l), r')
    ensures Var(r) == Var(r')
  {
    assert Neg(Neg(l)) == l;
    EquivSkew(g, f, l, r);
    EquivSkew(g, f, Neg(l), r');
    assert Var(r') <= Var(Neg(r)) && Var(r) <= Var(Neg(r'));
  }

  lemma EquivTrans(g: Graph, a: Lit, b: Lit, c: Lit)
    requires Equiv(g, a, b) && Equiv(g, c, b)
    ensures Equiv(g, a, c)
  {
    ReachTrans(g, a, b, c);
    ReachTrans(g, c, b, a);
  }

  // Representatives have the same value in every model; frozen literals are kept.
  lemma ReprSameValue(g: Graph, f: Formula, l: Lit, r: Lit, frozen: set<nat>, m: Model)
    requires WellFormed(g, f) && ReprOk(g, l, r, frozen) && Models(m, f)
    ensures True(m, l) == True(m, r) && (Var(l) in frozen ==> r == l)
  {
    if Var(l) !in frozen { EquivSameValue(g, f, l, r, m); }
  }
}
