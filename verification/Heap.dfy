// The updatable binary heap (src/heap.hpp).
module Heap {

  type Less = (nat, nat) -> bool

  // A strict weak order.
  ghost predicate StrictWeak(less: Less) {
    && (forall a, b :: less(a, b) ==> !less(b, a))
    && (forall a, b, c :: !less(a, b) && !less(b, c) ==> !less(a, c))
  }

  function Parent(i: nat): nat {
    if i == 0 then 0 else (i - 1) / 2
  }

  // Position i is not above its parent.
  predicate InOrder(less: Less, a: seq<nat>, i: nat) {
    0 < i < |a| ==> !less(a[Parent(i)], a[i])
  }

  ghost predicate Ordered(less: Less, a: seq<nat>) {
    forall i :: 0 < i < |a| ==> InOrder(less, a, i)
  }

  // Everything is in order but for the element at p, whose children are not above its parent.
  ghost predicate OrderedBut(less: Less, a: seq<nat>, p: nat) {
    && (forall i :: 0 < i < |a| && i != p && Parent(i) != p ==> InOrder(less, a, i))
    && (forall i :: 0 < i < |a| && Parent(i) == p && p > 0 && p < |a| ==> !less(a[Parent(p)], a[i]))
  }

  // The positions are the inverse of the heap array.
  ghost predicate Inverse(a: seq<nat>, pos: map<nat, nat>) {
    && (forall i :: 0 <= i < |a| ==> a[i] in pos && pos[a[i]] == i)
    && (forall e :: e in pos ==> pos[e] < |a| && a[pos[e]] == e)
  }

  lemma OrderedFromBut(less: Less, a: seq<nat>, p: nat)
    requires OrderedBut(less, a, p) && InOrder(less, a, p)
    requires forall i :: 0 < i < |a| && Parent(i) == p ==> InOrder(less, a, i)
    ensures Ordered(less, a)
  {
  }

  // After the key of one element has changed the heap is in order everywhere else.
  lemma ChangedKey(less: Less, less': Less, a: seq<nat>, p: nat)
    requires StrictWeak(less) && Ordered(less, a) && p < |a|
    requires forall i, j :: 0 <= i < |a| && 0 <= j < |a| && i != p && j != p ==> less(a[i], a[j]) == less'(a[i], a[j])
    ensures OrderedBut(less', a, p)
  {
    forall i | 0 < i < |a| && i != p && Parent(i) != p ensures InOrder(less', a, i) {
      assert InOrder(less, a, i);
    }
    forall i | 0 < i < |a| && Parent(i) == p && p > 0 ensures !less'(a[Parent(p)], a[i]) {
      assert InOrder(less, a, i) && InOrder(less, a, p);
    }
  }

  // The first element is a maximum.
  lemma {:induction false} FrontIsMaximal(less: Less, a: seq<nat>, i: nat)
    requires StrictWeak(less) && Ordered(less, a) && i < |a|
    ensures !less(a[0], a[i])
  {
    if i > 0 {
      assert InOrder(less, a, i);
      FrontIsMaximal(less, a, Parent(i));
    }
  }

  function Swap(a: seq<nat>, i: nat, j: nat): seq<nat>
    requires i < |a| && j < |a|
  {
    a[i := a[j]][j := a[i]]
  }

  lemma SwapInverse(a: seq<nat>, pos: map<nat, nat>, i: nat, j: nat)
    requires Inverse(a, pos) && i < |a| && j < |a|
    ensures Inverse(Swap(a, i, j), pos[a[i] := j][a[j] := i])
  {
  }

  // Moving an element that is above its parent up.
  lemma UpStep(less: Less, a: seq<nat>, p: nat)
    requires StrictWeak(less) && OrderedBut(less, a, p) && 0 < p < |a|
    requires less(a[Parent(p)], a[p])
    ensures OrderedBut(less, Swap(a, Parent(p), p), Parent(p))
  {
    var q := Parent(p);
    var b := Swap(a, q, p);
    forall i | 0 < i < |b| && i != q && Parent(i) != q ensures InOrder(less, b, i) {
      if Parent(i) == p {
        assert !less(a[q], a[i]);
      } else {
        assert InOrder(less, a, i);
      }
    }
    forall i | 0 < i < |b| && Parent(i) == q && q > 0 ensures !less(b[Parent(q)], b[i]) {
      assert InOrder(less, a, q);
      if i != p {
        assert InOrder(less, a, i);
      }
    }
  }

  // Moving an element down that is below its larger child c.
  lemma DownStep(less: Less, a: seq<nat>, p: nat, c: nat)
    requires StrictWeak(less) && OrderedBut(less, a, p) && InOrder(less, a, p) && p < c < |a|
    requires Parent(c) == p && less(a[p], a[c])
    requires forall i :: 0 < i < |a| && Parent(i) == p ==> !less(a[c], a[i])
    ensures OrderedBut(less, Swap(a, p, c), c) && InOrder(less, Swap(a, p, c), c)
  {
    var b := Swap(a, p, c);
    forall i | 0 < i < |b| && i != c && Parent(i) != c ensures InOrder(less, b, i) {
      if i == p {
        assert !less(a[Parent(p)], a[c]);
      } else if Parent(i) == p {
        assert !less(a[c], a[i]);
      } else {
        assert InOrder(less, a, i);
      }
    }
    forall i | 0 < i < |b| && Parent(i) == c ensures !less(b[Parent(c)], b[i]) {
      assert InOrder(less, a, i);
    }
  }

  class Heap {
    var heap: seq<nat>
    var pos: map<nat, nat>

    ghost predicate Valid()
      reads this
    {
      Inverse(heap, pos)
    }

    constructor ()
      ensures Valid() && heap == [] && forall less :: Ordered(less, heap)
    {
      heap, pos := [], map[];
    }

    method Exchange(a: nat, b: nat)
      requires Valid() && a in pos && b in pos
      modifies this
      ensures Valid() && heap == Swap(old(heap), old(pos[a]), old(pos[b]))
      ensures pos == old(pos)[a := old(pos[b])][b := old(pos[a])]
    {
      var i, j := pos[a], pos[b];
      SwapInverse(heap, pos, i, j);
      heap := Swap(heap, i, j);
      pos := pos[a := j][b := i];
    }

    method Up(e: nat, less: Less)
      requires Valid() && StrictWeak(less) && e in pos && OrderedBut(less, heap, pos[e])
      modifies this
      ensures Valid() && pos.Keys == old(pos.Keys) && e in pos && OrderedBut(less, heap, pos[e])
      ensures InOrder(less, heap, pos[e]) && |heap| == |old(heap)|
    {
      while pos[e] > 0 && less(heap[Parent(pos[e])], e)
        invariant Valid() && pos.Keys == old(pos.Keys) && e in pos && OrderedBut(less, heap, pos[e])
        invariant |heap| == |old(heap)|
        decreases pos[e]
      {
        var p := heap[Parent(pos[e])];
        UpStep(less, heap, pos[e]);
        Exchange(p, e);
      }
    }

    method Down(e: nat, less: Less)
      requires Valid() && StrictWeak(less) && e in pos && OrderedBut(less, heap, pos[e])
      requires InOrder(less, heap, pos[e])
      modifies this
      ensures Valid() && pos.Keys == old(pos.Keys) && Ordered(less, heap) && |heap| == |old(heap)|
    {
      while 2 * pos[e] + 1 < |heap|
        invariant Valid() && pos.Keys == old(pos.Keys) && e in pos && |heap| == |old(heap)|
        invariant OrderedBut(less, heap, pos[e]) && InOrder(less, heap, pos[e])
        decreases |heap| - pos[e]
      {
        var c := LargerOf(heap, pos[e], less);
        if !less(e, heap[c]) {
          NoLargerChild(less, heap, pos[e], c);
          return;
        }
        DownStep(less, heap, pos[e], c);
        Exchange(e, heap[c]);
      }
      OrderedFromBut(less, heap, pos[e]);
    }

    method PushBack(e: nat, less: Less)
      requires Valid() && StrictWeak(less) && Ordered(less, heap) && e !in pos
      modifies this
      ensures Valid() && Ordered(less, heap) && pos.Keys == old(pos.Keys) + {e}
      ensures |heap| == |old(heap)| + 1
    {
      pos := pos[e := |heap|];
      heap := heap + [e];
      forall i | 0 < i < |heap| && i != |heap| - 1 && Parent(i) != |heap| - 1 ensures InOrder(less, heap, i) {
        assert InOrder(less, old(heap), i);
      }
      Up(e, less);
      Down(e, less);
    }

    // A maximum is removed.
    method PopFront(less: Less) returns (res: nat)
      requires Valid() && StrictWeak(less) && Ordered(less, heap) && heap != []
      modifies this
      ensures Valid() && Ordered(less, heap) && res in old(pos)
      ensures pos.Keys == old(pos.Keys) - {res} && |heap| == |old(heap)| - 1
      ensures forall e :: e in old(pos) ==> !less(res, e)
    {
      forall e | e in pos ensures !less(heap[0], e) {
        FrontIsMaximal(less, heap, pos[e]);
      }
      res := heap[0];
      var last := heap[|heap| - 1];
      if |heap| > 1 { Exchange(res, last); }
      DropLast(heap, pos, res);
      pos := map e | e in pos && e != res :: pos[e];
      heap := heap[..|heap| - 1];
      if |heap| > 1 {
        PopOrdered(less, old(heap), heap);
        Down(last, less);
      }
    }

    // The key of e has changed arbitrarily: the orders before and after differ only in comparisons with e.
    method Update(e: nat, less: Less, ghost before: Less)
      requires Valid() && StrictWeak(less) && StrictWeak(before) && Ordered(before, heap)
      requires e in pos
      requires forall a, b :: a in pos && b in pos && a != e && b != e ==> before(a, b) == less(a, b)
      modifies this
      ensures Valid() && Ordered(less, heap) && pos.Keys == old(pos.Keys) && |heap| == |old(heap)|
    {
      ChangedKey(before, less, heap, pos[e]);
      Up(e, less);
      Down(e, less);
    }
  }

  // The position of the larger child.
  method LargerOf(a: seq<nat>, p: nat, less: Less) returns (c: nat)
    requires StrictWeak(less) && 2 * p + 1 < |a|
    ensures p < c < |a| && Parent(c) == p
    ensures forall i :: 0 < i < |a| && Parent(i) == p ==> !less(a[c], a[i])
  {
    c := 2 * p + 1;
    if 2 * p + 2 < |a| && less(a[c], a[2 * p + 2]) { c := 2 * p + 2; }
    LargerChild(less, a, p, c);
  }

  // The larger child is not below the other one.
  lemma LargerChild(less: Less, a: seq<nat>, p: nat, c: nat)
    requires StrictWeak(less) && c < |a| && 2 * p + 1 < |a|
    requires if 2 * p + 2 < |a| && less(a[2 * p + 1], a[2 * p + 2]) then c == 2 * p + 2 else c == 2 * p + 1
    ensures p < c && Parent(c) == p
    ensures forall i :: 0 < i < |a| && Parent(i) == p ==> !less(a[c], a[i])
  {
    forall i | 0 < i < |a| && Parent(i) == p ensures !less(a[c], a[i]) {
      assert i == 2 * p + 1 || i == 2 * p + 2;
    }
  }

  lemma NoLargerChild(less: Less, a: seq<nat>, p: nat, c: nat)
    requires StrictWeak(less) && OrderedBut(less, a, p) && InOrder(less, a, p) && p < |a|
    requires c < |a| && !less(a[p], a[c])
    requires forall i :: 0 < i < |a| && Parent(i) == p ==> !less(a[c], a[i])
    ensures Ordered(less, a)
  {
    OrderedFromBut(less, a, p);
  }

  lemma DropLast(a: seq<nat>, pos: map<nat, nat>, res: nat)
    requires Inverse(a, pos) && a != [] && a[|a| - 1] == res
    ensures Inverse(a[..|a| - 1], map e | e in pos && e != res :: pos[e])
  {
  }

  // The last element has taken the first place.
  lemma PopOrdered(less: Less, a: seq<nat>, b: seq<nat>)
    requires Ordered(less, a) && |a| > 2 && b == Swap(a, 0, |a| - 1)[..|a| - 1]
    ensures OrderedBut(less, b, 0) && InOrder(less, b, 0)
  {
    forall i | 0 < i < |b| && i != 0 && Parent(i) != 0 ensures InOrder(less, b, i) {
      assert InOrder(less, a, i);
    }
  }
}
