// Watch lists with blocking literals, shared by the checker (src/checker.cpp)
// and covered clause elimination (src/cover.cpp).  Clauses are named by their
// index in a store; their literals are reordered in place, watched ones first.
module Watching {
  import opened Cnf

  datatype Watch = Watch(blit: Lit, size: nat, id: nat)

  // The watched literals come first; the blocking literal is another literal of the clause.
  ghost predicate Watched(c: Clause, lit: Lit, w: Watch) {
    |c| >= 2 && (c[0] == lit || c[1] == lit) && w.size == |c| && w.blit in c && w.blit != lit
  }

  ghost predicate ListOk(order: seq<Clause>, lit: Lit, ws: seq<Watch>) {
    && (forall i :: 0 <= i < |ws| ==> ws[i].id < |order| && Watched(order[ws[i].id], lit, ws[i]))
    && (forall i, j :: 0 <= i < j < |ws| ==> ws[i].id != ws[j].id)
  }

  // The literals of a clause may be reordered.
  ghost predicate Reordered(c: Clause, d: Clause) {
    |c| == |d| && NoDup(c) && NoDup(d) && forall l :: l in c <==> l in d
  }

  ghost predicate AllReordered(order: seq<Clause>, cs: seq<Clause>) {
    |order| == |cs| && forall d :: 0 <= d < |cs| ==> Reordered(order[d], cs[d])
  }

  ghost predicate SameWatches(c: Clause, c': Clause)
    requires |c| >= 2 && |c'| >= 2
  {
    (c'[0] == c[0] && c'[1] == c[1]) || (c'[0] == c[1] && c'[1] == c[0])
  }

  // The first two literals with lit in second place.
  function SwapFirst(c: Clause, lit: Lit): Clause
    requires |c| >= 2
  {
    if c[1] == lit then c else [c[1], c[0]] + c[2..]
  }

  lemma SwapReorders(c: Clause, lit: Lit)
    requires NoDup(c) && |c| >= 2 && (c[0] == lit || c[1] == lit)
    ensures Reordered(SwapFirst(c, lit), c) && SwapFirst(c, lit)[1] == lit
  {
    var s := SwapFirst(c, lit);
    assert s[0] in c && s[1] in c && c[0] in s && c[1] in s;
    assert forall i :: 2 <= i < |c| ==> s[i] == c[i];
  }

  lemma ExchangeReorders(c: Clause, k: nat)
    requires NoDup(c) && 2 <= k < |c|
    ensures Reordered(c[1 := c[k]][k := c[1]], c)
  {
    var s := c[1 := c[k]][k := c[1]];
    assert s[1] == c[k] && s[k] == c[1];
    forall l | l in c ensures l in s {
      var i :| 0 <= i < |c| && c[i] == l;
      assert i != 1 && i != k ==> s[i] == l;
    }
  }

  // Reordering clause d without changing its watches keeps every list.
  lemma ListSwapped(order: seq<Clause>, l: Lit, ws: seq<Watch>, d: nat, c': Clause)
    requires ListOk(order, l, ws) && d < |order| && |order[d]| > 2 && Reordered(c', order[d])
    requires SameWatches(order[d], c')
    ensures ListOk(order[d := c'], l, ws)
  {
  }

  // Clause d now watches r instead of lit: lists of other literals are kept, that of r gets d.
  lemma ListUnwatched(order: seq<Clause>, l: Lit, ws: seq<Watch>, d: nat, c': Clause, lit: Lit, r: Lit)
    requires ListOk(order, l, ws) && d < |order| && |order[d]| > 2 && Reordered(c', order[d])
    requires r in order[d] && r != order[d][0] && r != order[d][1] && c'[1] == r
    requires (c'[0] == order[d][0] && order[d][1] == lit) || (c'[0] == order[d][1] && order[d][0] == lit)
    requires l != lit || forall i :: 0 <= i < |ws| ==> ws[i].id != d
    ensures ListOk(order[d := c'], l, ws)
    ensures l == r ==> ListOk(order[d := c'], l, ws + [Watch(lit, |c'|, d)])
  {
    var order' := order[d := c'];
    forall i | 0 <= i < |ws| ensures ws[i].id < |order'| && Watched(order'[ws[i].id], l, ws[i]) {
    }
    if l == r {
      forall i | 0 <= i < |ws| ensures ws[i].id != d {
      }
    }
  }

  function At(watches: map<Lit, seq<Watch>>, l: Lit): seq<Watch> {
    if l in watches then watches[l] else []
  }

  ghost predicate AllLists(order: seq<Clause>, watches: map<Lit, seq<Watch>>, but: int) {
    forall l :: l in watches && l != but ==> ListOk(order, l, watches[l])
  }

  lemma ListTail(order: seq<Clause>, lit: Lit, kept: seq<Watch>, rest: seq<Watch>, w: Watch)
    requires ListOk(order, lit, kept + rest) && rest != [] && w.id == rest[0].id
    requires w.id < |order| && Watched(order[w.id], lit, w)
    ensures ListOk(order, lit, kept + [w] + rest[1..]) && ListOk(order, lit, kept + rest[1..])
    ensures forall i :: 0 <= i < |kept + rest[1..]| ==> (kept + rest[1..])[i].id != w.id
  {
    var a, b', c := kept + rest, kept + [w] + rest[1..], kept + rest[1..];
    assert a[|kept|] == rest[0];
    assert forall i :: 0 <= i < |a| && i != |kept| ==> b'[i] == a[i];
    assert b'[|kept|] == w;
    assert forall i :: 0 <= i < |c| ==> c[i] == a[if i < |kept| then i else i + 1];
  }
}
