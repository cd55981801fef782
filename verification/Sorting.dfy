// Sorting is by library routines in the solver; insertion stands for them here.
module Sorting {
  type Order<!T> = (T, T) -> bool

  ghost predicate TotalPreorder<T(!new)>(le: Order<T>) {
    && (forall a, b :: le(a, b) || le(b, a))
    && forall a, b, c :: le(a, b) && le(b, c) ==> le(a, c)
  }

  ghost predicate Sorted<T>(c: seq<T>, le: Order<T>) {
    forall i, j :: 0 <= i < j < |c| ==> le(c[i], c[j])
  }

  function Inserted<T>(s: seq<T>, l: T, k: nat): seq<T>
    requires k <= |s|
  {
    s[..k] + [l] + s[k..]
  }

  lemma InsertSame<T>(s: seq<T>, l: T, k: nat)
    requires k <= |s|
    ensures multiset(Inserted(s, l, k)) == multiset(s) + multiset{l}
  {
    assert s == s[..k] + s[k..];
  }

  lemma InsertSorted<T(!new)>(s: seq<T>, l: T, k: nat, le: Order<T>)
    requires TotalPreorder(le) && Sorted(s, le) && k <= |s| && (k > 0 ==> le(s[k - 1], l))
    requires k < |s| ==> le(l, s[k])
    ensures Sorted(Inserted(s, l, k), le)
  {
    var r := Inserted(s, l, k);
    forall j | 0 <= j < k ensures le(s[j], l) {
      assert j < k - 1 ==> le(s[j], s[k - 1]);
    }
    forall j | k <= j < |s| ensures le(l, s[j]) {
      assert j > k ==> le(s[k], s[j]);
    }
    forall i, j | 0 <= i < j < |r| ensures le(r[i], r[j]) {
      assert i < k ==> r[i] == s[i];
      assert i > k ==> r[i] == s[i - 1];
      assert j < k ==> r[j] == s[j];
      assert j > k ==> r[j] == s[j - 1];
    }
  }

  method Insert<T(!new)>(s: seq<T>, l: T, le: Order<T>) returns (r: seq<T>)
    requires TotalPreorder(le) && Sorted(s, le)
    ensures Sorted(r, le) && multiset(r) == multiset(s) + multiset{l}
  {
    var k := |s|;
    while k > 0 && !le(s[k - 1], l)
      invariant 0 <= k <= |s| && (k < |s| ==> le(l, s[k]))
    {
      k := k - 1;
    }
    InsertSorted(s, l, k, le);
    InsertSame(s, l, k);
    r := Inserted(s, l, k);
  }

  method Sort<T(!new)>(c: seq<T>, le: Order<T>) returns (s: seq<T>)
    requires TotalPreorder(le)
    ensures Sorted(s, le) && multiset(s) == multiset(c)
  {
    s := [];
    for i := 0 to |c|
      invariant Sorted(s, le) && multiset(s) == multiset(c[..i])
    {
      s := Insert(s, c[i], le);
      assert c[..i + 1] == c[..i] + [c[i]];
    }
    assert c[..|c|] == c;
  }

  lemma SameMembers<T>(c: seq<T>, s: seq<T>)
    requires multiset(s) == multiset(c)
    ensures (forall k :: k in s <==> k in c) && |s| == |c|
  {
    forall k ensures k in s <==> k in c {
      assert k in multiset(s) <==> k in multiset(c);
    }
    assert |multiset(s)| == |s| && |multiset(c)| == |c|;
  }

  // A permutation of distinct elements is distinct.
  lemma SameDistinct<T>(c: seq<T>, s: seq<T>)
    requires multiset(s) == multiset(c) && forall i, j :: 0 <= i < j < |c| ==> c[i] != c[j]
    ensures forall i, j :: 0 <= i < j < |s| ==> s[i] != s[j]
  {
    forall i, j | 0 <= i < j < |s| ensures s[i] != s[j] {
      if s[i] == s[j] {
        Twice(s, i, j);
        AtMostOnce(c, s[i]);
      }
    }
  }

  lemma Twice<T>(s: seq<T>, i: nat, j: nat)
    requires i < j < |s| && s[i] == s[j]
    ensures multiset(s)[s[i]] >= 2
  {
    assert s == s[..j] + [s[j]] + s[j + 1..];
    assert s[i] in s[..j];
  }

  lemma {:induction false} AtMostOnce<T>(c: seq<T>, l: T)
    requires forall i, j :: 0 <= i < j < |c| ==> c[i] != c[j]
    ensures multiset(c)[l] <= 1
  {
    if c != [] {
      var n := |c| - 1;
      assert c == c[..n] + [c[n]];
      AtMostOnce(c[..n], l);
      assert c[n] !in c[..n];
    }
  }
}
