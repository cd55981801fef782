// The clause table of the proof checker (src/checker.cpp): canonical literal
// order, hashing and collision chains of clause names.
module CheckerTable {
  import opened Cnf
  import opened Arithmetic
  import opened Sorting

  // ---------- Canonical literal order ----------

  // The position of a literal in the order by variable, negative literals first.
  function Key(l: Lit): nat {
    2 * Var(l) + if l > 0 then 1 else 0
  }

  function KeyOrder(): Order<Lit> {
    (a: Lit, b: Lit) => Key(a) <= Key(b)
  }

  ghost predicate Before(c: Clause, i: int, j: int) {
    0 <= i < j < |c| && Key(c[i]) < Key(c[j])
  }

  ghost predicate Canonical(c: Clause) {
    forall i, j {:trigger Before(c, i, j)} :: 0 <= i < j < |c| ==> Before(c, i, j)
  }

  // There is only one canonical order of a set of literals.
  lemma {:induction false} CanonicalUnique(a: Clause, b: Clause)
    requires Canonical(a) && Canonical(b) && Lits(a) == Lits(b)
    ensures a == b
  {
    if a == [] {
      assert forall i :: 0 <= i < |b| ==> b[i] in Lits(b);
    } else {
      assert a[0] in Lits(b);
      var n, m := |a| - 1, |b| - 1;
      LastIsMaximal(a, b);
      LastIsMaximal(b, a);
      CanonicalInit(a);
      CanonicalInit(b);
      CanonicalUnique(a[..n], b[..m]);
      assert a == a[..n] + [a[n]] && b == b[..m] + [b[m]];
    }
  }

  lemma LastIsMaximal(a: Clause, b: Clause)
    requires Canonical(a) && Canonical(b) && Lits(a) == Lits(b) && a != [] && b != []
    ensures Key(a[|a| - 1]) >= Key(b[|b| - 1])
    ensures Key(a[|a| - 1]) == Key(b[|b| - 1]) ==> a[|a| - 1] == b[|b| - 1]
  {
    assert b[|b| - 1] in Lits(a);
    var i :| 0 <= i < |a| && a[i] == b[|b| - 1];
    assert i < |a| - 1 ==> Before(a, i, |a| - 1);
  }

  lemma CanonicalInit(a: Clause)
    requires Canonical(a) && a != []
    ensures Canonical(a[..|a| - 1]) && Lits(a[..|a| - 1]) == Lits(a) - {a[|a| - 1]}
  {
    var n := |a| - 1;
    assert a == a[..n] + [a[n]];
    LitsSnoc(a[..n], a[n]);
    forall i, j | 0 <= i < j < n ensures Before(a[..n], i, j) {
      assert Before(a, i, j);
    }
    forall i | 0 <= i < n ensures a[i] != a[n] {
      assert Before(a, i, n);
    }
  }

  predicate TautologySet(s: set<Lit>) {
    exists l :: l in s && Neg(l) in s
  }

  // Sort, drop duplicates and look for complementary or true literals.
  method Tautological(c: Clause, vals: set<Lit>) returns (taut: bool, s: Clause)
    ensures taut <==> TautologySet(Lits(c)) || exists l :: l in c && l in vals
    ensures !taut ==> Canonical(s) && Lits(s) == Lits(c)
  {
    var a := Sort(c, KeyOrder());
    SameMembers(c, a);
    assert Lits(a) == Lits(c);
    s := [];
    for i := 0 to |a|
      invariant Canonical(s) && Lits(s) == Lits(a[..i]) && (s == [] <==> i == 0)
      invariant i > 0 ==> s[|s| - 1] == a[i - 1]
      invariant forall k :: 0 <= k < |s| ==> s[k] !in vals && Neg(s[k]) !in Lits(s)
    {
      assert a[..i + 1] == a[..i] + [a[i]];
      LitsSnoc(a[..i], a[i]);
      if i == 0 || a[i] != s[|s| - 1] {
        if i > 0 && a[i] == Neg(s[|s| - 1]) {
          assert a[i] in Lits(c) && Neg(a[i]) in Lits(c);
          return true, s;
        }
        if a[i] in vals { return true, s; }
        SnocCanonical(s, a[i]);
        LitsSnoc(s, a[i]);
        s := s + [a[i]];
      }
    }
    assert a[..|a|] == a;
    taut := false;
    forall l | l in c ensures l !in vals && Neg(l) !in Lits(c) {
      assert l in Lits(s);
      var k :| 0 <= k < |s| && s[k] == l;
    }
  }

  // Appending the next literal in order, which is not complementary to the last one.
  lemma SnocCanonical(s: Clause, l: Lit)
    requires Canonical(s) && (forall k :: 0 <= k < |s| ==> Neg(s[k]) !in Lits(s))
    requires s != [] ==> Key(s[|s| - 1]) <= Key(l) && s[|s| - 1] != l && s[|s| - 1] != Neg(l)
    ensures Canonical(s + [l]) && forall k :: 0 <= k <= |s| ==> Neg((s + [l])[k]) !in Lits(s + [l])
  {
    LitsSnoc(s, l);
    if s != [] {
      var last := s[|s| - 1];
      assert Key(last) < Key(l) && Var(last) < Var(l);
      forall k | 0 <= k < |s| ensures Var(s[k]) < Var(l) {
        assert k < |s| - 1 ==> Before(s, k, |s| - 1);
      }
      assert Neg(l) !in Lits(s);
      forall i, j | 0 <= i < j < |s + [l]| ensures Before(s + [l], i, j) {
        assert j < |s| ==> Before(s, i, j);
      }
    }
  }

  // ---------- Hashing ----------

  function Pow64(): nat {
    0x1_0000_0000_0000_0000
  }

  // A literal converted to an unsigned 64-bit number.
  function Word(l: Lit): int {
    if l < 0 then Pow64() + l else l
  }

  // The nonces are used in turn.
  function Turn(i: nat, n: nat): (j: nat)
    requires n > 0
    ensures j < n
  {
    if i == 0 || Turn(i - 1, n) + 1 == n then 0 else Turn(i - 1, n) + 1
  }

  function HashOf(c: Clause, nonces: seq<nat>): nat
    requires nonces != []
  {
    if c == [] then 0
    else
      var n := |c| - 1;
      (HashOf(c[..n], nonces) + nonces[Turn(n, |nonces|)] * Word(c[n])) % Pow64()
  }

  method ComputeHash(c: Clause, nonces: seq<nat>) returns (hash: nat)
    requires nonces != []
    ensures hash == HashOf(c, nonces)
  {
    hash := 0;
    var j := 0;
    for i := 0 to |c|
      invariant hash == HashOf(c[..i], nonces) && j == Turn(i, |nonces|)
    {
      assert c[..i + 1][..i] == c[..i];
      hash := (hash + nonces[j] * Word(c[i])) % Pow64();
      j := j + 1;
      if j == |nonces| { j := 0; }
    }
    assert c[..|c|] == c;
  }

  function Xor(a: nat, b: nat): nat
    decreases a + b
  {
    if a == 0 && b == 0 then 0 else 2 * Xor(a / 2, b / 2) + if a % 2 == b % 2 then 0 else 1
  }

  function And(a: nat, b: nat): nat {
    if a == 0 || b == 0 then 0 else 2 * And(a / 2, b / 2) + if a % 2 == 1 && b % 2 == 1 then 1 else 0
  }

  lemma {:induction false} AndBelow(a: nat, b: nat)
    ensures And(a, b) <= b
  {
    if a != 0 && b != 0 { AndBelow(a / 2, b / 2); }
  }

  function ShiftRight(a: nat, shift: nat): nat {
    if shift == 0 then a else ShiftRight(a / 2, shift - 1)
  }

  // The hash value with its upper halves mixed into the bits kept.
  function Folded(hash: nat, size: nat, shift: nat): nat
    requires size > 0
    decreases shift
  {
    if shift == 0 || Pow2(shift) <= size then hash else Folded(Xor(hash, ShiftRight(hash, shift)), size, shift / 2)
  }

  function HalfWord(): nat {
    32
  }

  // The chain of a hash value in a table of the given size.
  function Slot(hash: nat, size: nat): (h: nat)
    requires size > 0
    ensures h < size
  {
    AndBelow(Folded(hash, size, HalfWord()), size - 1);
    And(Folded(hash, size, HalfWord()), size - 1)
  }

  method ReduceHash(hash: nat, size: nat) returns (h: nat)
    requires size > 0
    ensures h == Slot(hash, size)
  {
    var shift: nat, res: nat := HalfWord(), hash;
    while Pow2(shift) > size
      invariant Folded(res, size, shift) == Folded(hash, size, HalfWord())
      decreases shift
    {
      res, shift := Xor(res, ShiftRight(res, shift)), shift / 2;
    }
    h := And(res, size - 1);
  }

  // ---------- Collision chains ----------

  // Each live clause is exactly once in its chain, and nothing else is in the table.
  ghost predicate Chained(table: seq<seq<nat>>, slots: seq<nat>, live: set<nat>) {
    && (forall h, k :: 0 <= h < |table| && 0 <= k < |table[h]| ==>
         table[h][k] in live && table[h][k] < |slots| && slots[table[h][k]] == h)
    && (forall h, i, j :: 0 <= h < |table| && 0 <= i < j < |table[h]| ==> table[h][i] != table[h][j])
    && (forall d :: d in live ==> d < |slots| && slots[d] < |table| && d in table[slots[d]])
  }

  // The chain of a clause is determined by its hash value.
  ghost predicate Slotted(slots: seq<nat>, hashes: seq<nat>, size: nat) {
    && |slots| == |hashes|
    && (size > 0 ==> forall d {:trigger Slot(hashes[d], size)} :: 0 <= d < |hashes| ==>
         slots[d] == Slot(hashes[d], size))
  }

  ghost function SlotsOf(hashes: seq<nat>, size: nat): (slots: seq<nat>)
    requires size > 0
    ensures Slotted(slots, hashes, size)
  {
    seq(|hashes|, d requires 0 <= d < |hashes| => Slot(hashes[d], size))
  }

  // New clauses go to the front of their chain.
  function PushFront(table: seq<seq<nat>>, h: nat, d: nat): seq<seq<nat>>
    requires h < |table|
  {
    table[h := [d] + table[h]]
  }

  lemma ChainInsert(table: seq<seq<nat>>, slots: seq<nat>, live: set<nat>, d: nat)
    requires Chained(table, slots, live) && d !in live && d < |slots| && slots[d] < |table|
    ensures Chained(PushFront(table, slots[d], d), slots, live + {d})
  {
    var h := slots[d];
    var t := PushFront(table, h, d);
    forall g, k | 0 <= g < |t| && 0 <= k < |t[g]|
      ensures t[g][k] in live + {d} && t[g][k] < |slots| && slots[t[g][k]] == g
    {
      if g == h && k > 0 { assert t[g][k] == table[h][k - 1]; }
    }
    forall g, i, j | 0 <= g < |t| && 0 <= i < j < |t[g]| ensures t[g][i] != t[g][j] {
      if g == h {
        assert t[g][j] == table[h][j - 1];
        assert i > 0 ==> t[g][i] == table[h][i - 1];
      }
    }
    forall e | e in live + {d} ensures e in t[slots[e]] {
      assert e != d ==> e in table[slots[e]];
    }
  }

  function Cut(chain: seq<nat>, k: nat): seq<nat>
    requires k < |chain|
  {
    chain[..k] + chain[k + 1..]
  }

  lemma CutChain(chain: seq<nat>, k: nat)
    requires k < |chain| && forall i, j :: 0 <= i < j < |chain| ==> chain[i] != chain[j]
    ensures forall i, j :: 0 <= i < j < |Cut(chain, k)| ==> Cut(chain, k)[i] != Cut(chain, k)[j]
    ensures forall d :: d in Cut(chain, k) <==> d in chain && d != chain[k]
  {
    var r := Cut(chain, k);
    assert forall i :: 0 <= i < |r| ==> r[i] == chain[if i < k then i else i + 1];
    forall d | d in chain && d != chain[k] ensures d in r {
      var i :| 0 <= i < |chain| && chain[i] == d;
      assert r[if i < k then i else i - 1] == d;
    }
  }

  lemma ChainRemove(table: seq<seq<nat>>, slots: seq<nat>, live: set<nat>, h: nat, k: nat)
    requires Chained(table, slots, live) && h < |table| && k < |table[h]|
    ensures Chained(table[h := Cut(table[h], k)], slots, live - {table[h][k]})
  {
    var d, t := table[h][k], table[h := Cut(table[h], k)];
    CutChain(table[h], k);
    forall g, i | 0 <= g < |t| && 0 <= i < |t[g]|
      ensures t[g][i] in live - {d} && t[g][i] < |slots| && slots[t[g][i]] == g
    {
      assert t[g][i] in t[g];
      var j :| 0 <= j < |table[g]| && table[g][j] == t[g][i];
      assert slots[table[g][j]] == g;
    }
    forall e | e in live - {d} ensures e in t[slots[e]] {
      assert e in table[slots[e]];
    }
  }

  lemma ChainMore(table: seq<seq<nat>>, slots: seq<nat>, live: set<nat>, h: nat)
    requires Chained(table, slots, live)
    ensures Chained(table, slots + [h], live)
  {
    assert forall d :: 0 <= d < |slots| ==> (slots + [h])[d] == slots[d];
  }

  lemma SlottedMore(slots: seq<nat>, hashes: seq<nat>, size: nat, hash: nat)
    requires size > 0 && Slotted(slots, hashes, size)
    ensures Slotted(slots + [Slot(hash, size)], hashes + [hash], size)
  {
    var hashes' := hashes + [hash];
    forall d | 0 <= d < |hashes'| ensures (slots + [Slot(hash, size)])[d] == Slot(hashes'[d], size) {
      assert d < |hashes| ==> hashes'[d] == hashes[d] && slots[d] == Slot(hashes[d], size);
    }
  }

  lemma EmptyChains(n: nat, slots: seq<nat>)
    ensures Chained(seq(n, i => []), slots, {})
  {
  }

  // Twice as many chains.
  method Enlarge(table: seq<seq<nat>>, hashes: seq<nat>, ghost live: set<nat>, ghost slots: seq<nat>)
    returns (table': seq<seq<nat>>, ghost slots': seq<nat>)
    requires Chained(table, slots, live) && |slots| == |hashes|
    ensures |table'| == (if |table| == 0 then 1 else 2 * |table|)
    ensures Chained(table', slots', live) && Slotted(slots', hashes, |table'|)
  {
    var size := if |table| == 0 then 1 else 2 * |table|;
    table' := seq(size, i => []);
    slots' := SlotsOf(hashes, size);
    ghost var seen: set<nat> := {};
    EmptyChains(size, slots');
    for i := 0 to |table|
      invariant |table'| == size && Chained(table', slots', seen) && Slotted(slots', hashes, size)
      invariant forall d :: d in seen <==> d in live && slots[d] < i
    {
      ghost var before := seen;
      for k := 0 to |table[i]|
        invariant |table'| == size && Chained(table', slots', seen) && Slotted(slots', hashes, size)
        invariant seen == before + set j | 0 <= j < k :: table[i][j]
      {
        var d := table[i][k];
        var h := ReduceHash(hashes[d], size);
        ChainInsert(table', slots', seen, d);
        table' := PushFront(table', h, d);
        seen := seen + {d};
      }
      ChainSeen(table, slots, live, i, before, seen);
    }
    assert seen == live;
  }

  lemma ChainSeen(table: seq<seq<nat>>, slots: seq<nat>, live: set<nat>, i: nat, before: set<nat>, seen: set<nat>)
    requires Chained(table, slots, live) && i < |table|
    requires forall d :: d in before <==> d in live && slots[d] < i
    requires seen == before + set j | 0 <= j < |table[i]| :: table[i][j]
    ensures forall d :: d in seen <==> d in live && slots[d] < i + 1
  {
    forall d ensures d in seen <==> d in live && slots[d] < i + 1 {
      if d in live && slots[d] == i {
        assert d in table[i];
        var j :| 0 <= j < |table[i]| && table[i][j] == d;
      }
    }
  }

  // Name a new clause d in the table, which grows when it is full.
  method AddToTable(table: seq<seq<nat>>, hashes: seq<nat>, count: nat, hash: nat, d: nat, ghost live: set<nat>,
        ghost slots: seq<nat>)
    returns (t: seq<seq<nat>>, ghost slots': seq<nat>)
    requires Chained(table, slots, live) && Slotted(slots, hashes, |table|) && count == |live|
    requires d == |hashes| && d !in live
    ensures Chained(t, slots', live + {d}) && Slotted(slots', hashes + [hash], |t|)
  {
    t, slots' := table, slots;
    if count == |t| {
      t, slots' := Enlarge(t, hashes, live, slots);
    }
    assert table == [] ==> forall e :: e !in live;
    var h := ReduceHash(hash, |t|);
    SlottedMore(slots', hashes, |t|, hash);
    ChainMore(t, slots', live, h);
    slots' := slots' + [h];
    ChainInsert(t, slots', live, d);
    t := PushFront(t, h, d);
  }

  // The full hash value saved with a clause is that of its canonical literals.
  ghost predicate Hashed(store: seq<Clause>, hashes: seq<nat>, canon: seq<Clause>, nonces: seq<nat>)
    requires nonces != []
  {
    && |hashes| == |store| == |canon|
    && forall d :: 0 <= d < |store| ==>
         |store[d]| == |canon[d]| && Canonical(canon[d]) && Lits(canon[d]) == Lits(store[d]) &&
           hashes[d] == HashOf(canon[d], nonces)
  }

  // The clause table with the names of clauses marked as garbage and of those waiting to be deleted.
  datatype Table = Table(chains: seq<seq<nat>>, hashes: seq<nat>, count: nat, dead: set<nat>, garbage: seq<nat>,
    numGarbage: nat)

  // For the proof: the live clauses, the chains and canonical order of all clauses, the
  // deleted clauses and the clauses added but not deleted by the user.
  datatype Ledger = Ledger(live: set<nat>, slots: seq<nat>, canon: seq<Clause>, freed: set<nat>,
    book: multiset<set<Lit>>)

  ghost predicate TableOk(t: Table, g: Ledger, store: seq<Clause>, nonces: seq<nat>)
    requires nonces != []
  {
    && Hashed(store, t.hashes, g.canon, nonces) && Chained(t.chains, g.slots, g.live)
    && Slotted(g.slots, t.hashes, |t.chains|)
    && t.count == |g.live|
  }

  ghost function Enter(g: Ledger, s: Clause, slots: seq<nat>): Ledger {
    Ledger(g.live + {|g.canon|}, slots, g.canon + [s], g.freed, g.book + multiset{Lits(s)})
  }

  // Enter a clause with literals s in the table; c is its order in the store.
  method InsertInTable(t: Table, s: Clause, c: Clause, store: seq<Clause>, nonces: seq<nat>, ghost g: Ledger)
    returns (t': Table, ghost g': Ledger)
    requires nonces != [] && TableOk(t, g, store, nonces) && |store| !in g.live
    requires Canonical(s) && |c| == |s| && Lits(c) == Lits(s)
    ensures TableOk(t', g', store + [c], nonces) && g' == Enter(g, s, g'.slots)
    ensures t'.dead == t.dead && t'.garbage == t.garbage && t'.numGarbage == t.numGarbage
  {
    var hash := ComputeHash(s, nonces);
    HashedInsert(store, t.hashes, g.canon, nonces, c, s);
    var chains;
    ghost var slots;
    chains, slots := AddToTable(t.chains, t.hashes, t.count, hash, |store|, g.live, g.slots);
    g' := Enter(g, s, slots);
    t' := t.(chains := chains, hashes := t.hashes + [hash], count := t.count + 1);
  }

  lemma HashedInsert(store: seq<Clause>, hashes: seq<nat>, canon: seq<Clause>, nonces: seq<nat>, c: Clause, s: Clause)
    requires nonces != [] && Hashed(store, hashes, canon, nonces) && Canonical(s) && |c| == |s|
    requires Lits(c) == Lits(s)
    ensures Hashed(store + [c], hashes + [HashOf(s, nonces)], canon + [s], nonces)
  {
  }

  // Search a clause with the given literals, in any order.
  method Find(t: Table, s: Clause, store: seq<Clause>, nonces: seq<nat>, ghost g: Ledger)
    returns (found: bool, h: nat, k: nat)
    requires nonces != [] && TableOk(t, g, store, nonces) && |t.chains| > 0 && Canonical(s)
    ensures found ==>
      h < |t.chains| && k < |t.chains[h]| && t.chains[h][k] in g.live && t.chains[h][k] < |store| &&
      Lits(store[t.chains[h][k]]) == Lits(s)
    ensures !found ==> forall d :: d in g.live ==> Lits(store[d]) != Lits(s)
  {
    var table, hashes := t.chains, t.hashes;
    ghost var live, canon := g.live, g.canon;
    var hash := ComputeHash(s, nonces);
    h := ReduceHash(hash, |table|);
    var marks := MarkAll(s);
    k := 0;
    CanonicalNoDup(s);
    NoDupSize(s);
    while k < |table[h]|
      invariant 0 <= k <= |table[h]|
      invariant forall j :: 0 <= j < k ==> Lits(store[table[h][j]]) != Lits(s)
    {
      var d := table[h][k];
      if hashes[d] == hash && |store[d]| == |s| {
        found := AllMarked(store[d], marks);
        if found {
          CanonicalNoDup(canon[d]);
          NoDupSize(canon[d]);
          SubsetOfSameSize(Lits(store[d]), Lits(s));
          return;
        }
      } else {
        DifferentLits(store[d], canon[d], s, hashes[d], nonces);
      }
      k := k + 1;
    }
    found := false;
    forall d | d in live ensures Lits(store[d]) != Lits(s) {
      assert d in table[g.slots[d]] && g.slots[d] == Slot(hashes[d], |table|);
      if Lits(store[d]) == Lits(s) {
        CanonicalUnique(canon[d], s);
      }
    }
  }

  lemma CanonicalNoDup(s: Clause)
    requires Canonical(s)
    ensures NoDup(s)
  {
    forall i, j | 0 <= i < j < |s| ensures s[i] != s[j] {
      assert Before(s, i, j);
    }
  }

  lemma DifferentLits(c: Clause, canon: Clause, s: Clause, hash: nat, nonces: seq<nat>)
    requires nonces != [] && Canonical(canon) && Canonical(s) && |c| == |canon|
    requires Lits(canon) == Lits(c) && hash == HashOf(canon, nonces)
    requires hash != HashOf(s, nonces) || |c| != |s|
    ensures Lits(c) != Lits(s)
  {
    if Lits(c) == Lits(s) {
      CanonicalUnique(canon, s);
    }
  }

  method MarkAll(s: Clause) returns (marks: set<Lit>)
    ensures marks == Lits(s)
  {
    marks := {};
    for i := 0 to |s|
      invariant marks == Lits(s[..i])
    {
      assert s[..i + 1] == s[..i] + [s[i]];
      LitsSnoc(s[..i], s[i]);
      marks := marks + {s[i]};
    }
    assert s[..|s|] == s;
  }

  method AllMarked(c: Clause, marks: set<Lit>) returns (all: bool)
    ensures all <==> Lits(c) <= marks
  {
    for i := 0 to |c|
      invariant forall k :: 0 <= k < i ==> c[k] in marks
    {
      if c[i] !in marks {
        assert c[i] in Lits(c);
        return false;
      }
    }
    return true;
  }
}
