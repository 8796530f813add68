/** Sequence helpers with Python's meaning: list(dict.fromkeys(xs)) and the
    insertion order of a dict's keys. */
module Collections {
  import opened Wrappers

  predicate Distinct<T(==)>(s: seq<T>) {
    forall i, j :: 0 <= i < j < |s| ==> s[i] != s[j]
  }

  /** list(dict.fromkeys(s)): each element once, where it first occurs. */
  function Dedup<T(==)>(s: seq<T>): (r: seq<T>)
    ensures Distinct(r)
    ensures forall i :: 0 <= i < |r| ==> r[i] in s
    ensures forall i :: 0 <= i < |s| ==> s[i] in r
    decreases |s|
  {
    if s == [] then []
    else
      var r := Dedup(s[..|s| - 1]);
      assert forall i :: 0 <= i < |s| - 1 ==> s[i] == s[..|s| - 1][i];
      if s[|s| - 1] in r then r else r + [s[|s| - 1]]
  }

  lemma DedupIn<T>(s: seq<T>, x: T)
    ensures x in Dedup(s) <==> x in s
  {
    var r := Dedup(s);
    if x in s {
      var i :| 0 <= i < |s| && s[i] == x;
      assert s[i] in r;
    }
    if x in r {
      var i :| 0 <= i < |r| && r[i] == x;
      assert r[i] in s;
    }
  }

  /** Deduplicating a longer list only appends to the deduplicated prefix:
      every element keeps the place of its first occurrence. */
  lemma {:induction false} DedupExtends<T>(a: seq<T>, b: seq<T>)
    ensures |Dedup(a)| <= |Dedup(a + b)| && Dedup(a + b)[..|Dedup(a)|] == Dedup(a)
    decreases |b|
  {
    if b == [] {
      assert a + b == a;
    } else {
      var b' := b[..|b| - 1];
      assert (a + b)[..|a + b| - 1] == a + b';
      DedupExtends(a, b');
      DedupGrows(a + b);
      PrefixOfLonger(Dedup(a + b'), Dedup(a + b), |Dedup(a)|);
    }
  }

  /** Deduplicating one more element keeps the deduplicated prefix. */
  lemma DedupGrows<T>(s: seq<T>)
    requires s != []
    ensures var r := Dedup(s[..|s| - 1]);
      |r| <= |Dedup(s)| && Dedup(s)[..|r|] == r
  {
  }

  lemma PrefixOfLonger<T>(r: seq<T>, t: seq<T>, k: nat)
    requires k <= |r| <= |t| && t[..|r|] == r
    ensures t[..k] == r[..k]
  {
    assert t[..k] == t[..|r|][..k];
  }

  /** A list without duplicates is its own deduplication. */
  lemma {:induction false} DedupOfDistinct<T>(s: seq<T>)
    requires Distinct(s)
    ensures Dedup(s) == s
    decreases |s|
  {
    if s != [] {
      var p := s[..|s| - 1];
      assert Distinct(p);
      DedupOfDistinct(p);
      assert s[|s| - 1] !in p;
      assert p + [s[|s| - 1]] == s;
    }
  }

  // Small facts about concatenation and slicing, stated for any element type
  // so that proofs about lists of strings need not unfold string equality.

  lemma Singleton<T>(s: seq<T>)
    requires |s| == 1
    ensures s + [] == s == [s[0]]
  {
  }

  lemma Pair<T>(a: T, b: T)
    ensures [a] + [b] + [] == [a, b] && [a, b][1..] == [b]
  {
  }

  lemma HeadTail<T>(s: seq<T>)
    requires s != []
    ensures [s[0]] + s[1..] == s
  {
  }

  lemma AppendEmpty<T>(a: seq<T>)
    ensures a + [] == a
  {
  }

  lemma BothSides<T>(a: seq<T>, b: seq<T>, c: seq<T>)
    requires a == [] || b == []
    ensures a + (b + c) == b + (a + c)
  {
  }

  lemma AfterEmpty<T>(s: seq<T>)
    ensures [] + [] + s == s
  {
  }

  lemma PrefixSnoc<T>(s: seq<T>, i: nat)
    requires i < |s|
    ensures s[..i + 1][..i] == s[..i] && s[..i + 1][i] == s[i]
  {
  }

  lemma TakeSnoc<T>(s: seq<T>, i: nat)
    requires i < |s|
    ensures s[..i + 1] == s[..i] + [s[i]]
  {
  }

  lemma InitLast<T>(s: seq<T>)
    requires s != []
    ensures s == s[..|s| - 1] + [s[|s| - 1]]
  {
  }

  lemma Snoc<T>(s: seq<T>, x: T)
    ensures |s + [x]| == |s| + 1 && (s + [x])[..|s|] == s && (s + [x])[|s|] == x
  {
  }

  lemma Whole<T>(s: seq<T>)
    ensures s[..|s|] == s
  {
  }

  lemma NothingIn<T>(s: seq<T>)
    requires forall x :: x !in s
    ensures s == []
  {
    if s != [] {
      HasHead(s);
    }
  }

  lemma HasHead<T>(s: seq<T>)
    requires s != []
    ensures s[0] in s
  {
  }

  lemma InAppend<T>(x: T, a: seq<T>, b: seq<T>)
    ensures x in a + b <==> x in a || x in b
  {
  }

  /** Sequences with the same elements are equal. */
  lemma SameElements<T>(a: seq<T>, b: seq<T>)
    requires |a| == |b| && forall k :: 0 <= k < |a| ==> a[k] == b[k]
    ensures a == b
  {
  }

  /** A defaultdict(list) read without inserting a key. */
  function ListAt<K, V>(m: map<K, seq<V>>, k: K): seq<V>
  {
    if k in m then m[k] else []
  }

  lemma ConcatIndex<T>(a: seq<T>, b: seq<T>, i: nat)
    requires |a| <= i < |a| + |b|
    ensures (a + b)[i] == b[i - |a|]
  {
  }

  lemma ConcatIndexLeft<T>(a: seq<T>, b: seq<T>, i: nat)
    requires i < |a|
    ensures (a + b)[i] == a[i]
  {
  }

  lemma ConcatAssoc<T>(a: seq<T>, b: seq<T>, c: seq<T>)
    ensures (a + b) + c == a + (b + c)
  {
  }

  /** Appending elements that are already present adds nothing. */
  lemma {:induction false} DedupAbsorbs<T>(d: seq<T>, a: seq<T>)
    requires Distinct(d)
    requires forall i :: 0 <= i < |a| ==> a[i] in d
    ensures Dedup(d + a) == d
    decreases |a|
  {
    if a == [] {
      assert d + a == d;
      DedupOfDistinct(d);
    } else {
      var a' := a[..|a| - 1];
      assert (d + a)[..|d + a| - 1] == d + a';
      DedupAbsorbs(d, a');
    }
  }

  /** A dict lookup that does not raise: dict.get(k). */
  function Get<K, V>(m: map<K, V>, k: K): Option<V> {
    if k in m then Some(m[k]) else None
  }

  /** The lists f(x) for x in xs, concatenated in order. */
  function FlatMap<T, U>(xs: seq<T>, f: T -> seq<U>): seq<U>
    decreases |xs|
  {
    if xs == [] then [] else FlatMap(xs[..|xs| - 1], f) + f(xs[|xs| - 1])
  }

  lemma {:induction false} FlatMapIff<T, U>(xs: seq<T>, f: T -> seq<U>, u: U)
    ensures u in FlatMap(xs, f) <==> exists i :: 0 <= i < |xs| && u in f(xs[i])
    decreases |xs|
  {
    if xs != [] {
      var init := xs[..|xs| - 1];
      FlatMapIff(init, f, u);
      InAppend(u, FlatMap(init, f), f(xs[|xs| - 1]));
      if u in FlatMap(init, f) {
        var i :| 0 <= i < |init| && u in f(init[i]);
        assert xs[i] == init[i];
      } else if u !in f(xs[|xs| - 1]) {
        forall i | 0 <= i < |xs| ensures u !in f(xs[i]) {
          if i < |init| { assert xs[i] == init[i]; }
        }
      }
    }
  }

  lemma FlatMapSnoc<T, U>(xs: seq<T>, f: T -> seq<U>, i: nat)
    requires i < |xs|
    ensures FlatMap(xs[..i + 1], f) == FlatMap(xs[..i], f) + f(xs[i])
  {
    PrefixSnoc(xs, i);
  }

  /** [x for x in xs if f(x)] */
  function Filter<T>(xs: seq<T>, f: T -> bool): (r: seq<T>)
    ensures |r| <= |xs|
    ensures forall i :: 0 <= i < |r| ==> r[i] in xs && f(r[i])
    decreases |xs|
  {
    if xs == [] then []
    else
      var init := xs[..|xs| - 1];
      assert forall i :: 0 <= i < |init| ==> init[i] in xs;
      Filter(init, f) + (if f(xs[|xs| - 1]) then [xs[|xs| - 1]] else [])
  }

  lemma FilterStep<T>(xs: seq<T>, f: T -> bool, i: nat)
    requires i < |xs|
    ensures Filter(xs[..i + 1], f) == Filter(xs[..i], f) + (if f(xs[i]) then [xs[i]] else [])
  {
    PrefixSnoc(xs, i);
  }

  /** Filtering a list with one more element at its end. */
  lemma FilterSnoc<T>(xs: seq<T>, x: T, f: T -> bool)
    ensures Filter(xs + [x], f) == Filter(xs, f) + (if f(x) then [x] else [])
  {
    assert (xs + [x])[..|xs|] == xs;
  }

  /** Filtering by a test and by its negation splits a list: every element
      goes to exactly one side, as often as it occurs. */
  lemma {:induction false} FilterSplit<T>(xs: seq<T>, f: T -> bool, g: T -> bool)
    requires forall x :: g(x) == !f(x)
    ensures multiset(Filter(xs, f)) + multiset(Filter(xs, g)) == multiset(xs)
    ensures |Filter(xs, f)| + |Filter(xs, g)| == |xs|
    decreases |xs|
  {
    if xs != [] {
      FilterSplit(xs[..|xs| - 1], f, g);
      InitLast(xs);
    }
  }

  lemma FilterIff<T>(xs: seq<T>, f: T -> bool, x: T)
    ensures x in Filter(xs, f) <==> x in xs && f(x)
  {
    if x in xs && f(x) {
      var i :| 0 <= i < |xs| && xs[i] == x;
      FilterKeeps(xs, f, i);
    }
  }

  lemma {:induction false} FilterKeeps<T>(xs: seq<T>, f: T -> bool, i: nat)
    requires i < |xs| && f(xs[i])
    ensures xs[i] in Filter(xs, f)
    decreases |xs|
  {
    if i < |xs| - 1 {
      FilterKeeps(xs[..|xs| - 1], f, i);
    }
  }

  /** A list is kept whole exactly when every element passes ... */
  lemma {:induction false} FilterAll<T>(xs: seq<T>, f: T -> bool)
    ensures Filter(xs, f) == xs <==> forall i :: 0 <= i < |xs| ==> f(xs[i])
    decreases |xs|
  {
    if xs != [] {
      var init := xs[..|xs| - 1];
      FilterAll(init, f);
      InitLast(xs);
      if Filter(xs, f) == xs {
        assert |Filter(init, f)| <= |init|;
        assert f(xs[|xs| - 1]);
        assert Filter(init, f) == init;
      }
    }
  }

  /** ... and comes out empty exactly when none does. */
  lemma {:induction false} FilterNone<T>(xs: seq<T>, f: T -> bool)
    ensures Filter(xs, f) == [] <==> forall i :: 0 <= i < |xs| ==> !f(xs[i])
    decreases |xs|
  {
    if xs != [] {
      var init := xs[..|xs| - 1];
      FilterNone(init, f);
      if Filter(xs, f) == [] {
        assert Filter(init, f) == [];
      }
    }
  }

  /** a and b agree below index i. */
  ghost predicate AgreeBelow<T>(a: seq<T>, b: seq<T>, i: nat)
    requires i <= |a| && i <= |b|
  {
    forall j :: 0 <= j < i ==> a[j] == b[j]
  }

  /** a and b agree from index i on. */
  ghost predicate AgreeFrom<T>(a: seq<T>, b: seq<T>, i: nat)
    requires i <= |a| == |b|
  {
    forall j :: i <= j < |a| ==> a[j] == b[j]
  }

  /** Setting a[i] to b[i] moves the boundary of agreement one place on. */
  lemma Advance<T>(a: seq<T>, b: seq<T>, c: seq<T>, i: nat, v: T)
    requires i < |a| == |b| == |c| && AgreeBelow(a, b, i) && AgreeFrom(a, c, i) && b[i] == v
    ensures AgreeBelow(a[i := v], b, i + 1) && AgreeFrom(a[i := v], c, i + 1)
  {
  }

  /** When a[i] already is b[i], the boundary moves without a change. */
  lemma AdvanceSame<T>(a: seq<T>, b: seq<T>, c: seq<T>, i: nat)
    requires i < |a| == |b| == |c| && AgreeBelow(a, b, i) && AgreeFrom(a, c, i) && b[i] == a[i]
    ensures AgreeBelow(a, b, i + 1) && AgreeFrom(a, c, i + 1)
  {
  }

  /** The union of f over the elements of xs, added in order. */
  function UnionOf<T, U>(xs: seq<T>, f: T -> set<U>): set<U>
    decreases |xs|
  {
    if xs == [] then {} else UnionOf(xs[..|xs| - 1], f) + f(xs[|xs| - 1])
  }

  lemma {:induction false} UnionOfIff<T, U>(xs: seq<T>, f: T -> set<U>, u: U)
    ensures u in UnionOf(xs, f) <==> exists i :: 0 <= i < |xs| && u in f(xs[i])
    decreases |xs|
  {
    if xs != [] {
      var init := xs[..|xs| - 1];
      UnionOfIff(init, f, u);
      if u in UnionOf(init, f) {
        var i :| 0 <= i < |init| && u in f(init[i]);
        assert xs[i] == init[i];
      } else if u !in f(xs[|xs| - 1]) {
        forall i | 0 <= i < |xs| ensures u !in f(xs[i]) {
          if i < |init| { assert xs[i] == init[i]; } else { assert i == |xs| - 1; }
        }
      }
    }
  }

  /** dict(zip(ks, vs)): a later pair with the same key overwrites. */
  function Zip<K, V>(ks: seq<K>, vs: seq<V>): map<K, V>
    requires |ks| == |vs|
    decreases |ks|
  {
    if ks == [] then map[]
    else Zip(ks[..|ks| - 1], vs[..|vs| - 1])[ks[|ks| - 1] := vs[|vs| - 1]]
  }

  /** The keys are the listed keys; each key holds the value paired with its
      last occurrence. */
  lemma {:induction false} ZipLookup<K, V>(ks: seq<K>, vs: seq<V>, k: K)
    requires |ks| == |vs|
    ensures k in Zip(ks, vs) <==> k in ks
    ensures k in Zip(ks, vs) ==>
      exists j :: 0 <= j < |ks| && ks[j] == k && Zip(ks, vs)[k] == vs[j]
                  && forall l :: j < l < |ks| ==> ks[l] != k
    decreases |ks|
  {
    if ks != [] {
      var n := |ks| - 1;
      ZipLookup(ks[..n], vs[..n], k);
      InitLast(ks);
      if ks[n] != k && k in Zip(ks[..n], vs[..n]) {
        var j :| 0 <= j < n && ks[..n][j] == k && Zip(ks[..n], vs[..n])[k] == vs[..n][j]
                 && forall l :: j < l < n ==> ks[..n][l] != k;
        assert ks[j] == k && vs[j] == vs[..n][j];
        assert forall l :: j < l < |ks| ==> ks[l] != k by {
          forall l | j < l < |ks| ensures ks[l] != k {
            if l < n {
              assert ks[l] == ks[..n][l];
            }
          }
        }
      }
    }
  }

  /** Unions along two lists agree when their members' sets agree pointwise. */
  lemma {:induction false} UnionOfSame<T, S, U>(xs: seq<T>, f: T -> set<U>, ys: seq<S>, g: S -> set<U>)
    requires |xs| == |ys| && forall i :: 0 <= i < |xs| ==> f(xs[i]) == g(ys[i])
    ensures UnionOf(xs, f) == UnionOf(ys, g)
    decreases |xs|
  {
    if xs != [] {
      var k := |xs| - 1;
      forall i | 0 <= i < k ensures f(xs[..k][i]) == g(ys[..k][i]) {
        assert xs[..k][i] == xs[i] && ys[..k][i] == ys[i];
      }
      UnionOfSame(xs[..k], f, ys[..k], g);
    }
  }

  /** The sum of a map's values. */
  ghost function SumValues<K>(m: map<K, nat>): nat
    decreases |m|
  {
    if m == map[] then 0
    else
      var k :| k in m;
      assert |m.Keys - {k}| == |m.Keys| - 1;
      m[k] + SumValues(m - {k})
  }

  /** Any key can be taken out first. */
  lemma {:induction false} SumRemove<K>(m: map<K, nat>, k: K)
    requires k in m
    ensures SumValues(m) == m[k] + SumValues(m - {k})
    decreases |m|
  {
    var j :| j in m && SumValues(m) == m[j] + SumValues(m - {j});
    if j != k {
      assert |m.Keys - {j}| == |m.Keys| - 1;
      assert |m.Keys - {k}| == |m.Keys| - 1;
      SumRemove(m - {j}, k);
      SumRemove(m - {k}, j);
      assert m - {j} - {k} == m - {k} - {j};
    }
  }

  /** Setting one key changes the sum by the difference at that key. */
  lemma SumUpdate<K>(m: map<K, nat>, k: K, v: nat)
    ensures SumValues(m[k := v]) + (if k in m then m[k] else 0) == SumValues(m) + v
  {
    SumRemove(m[k := v], k);
    assert m[k := v] - {k} == m - {k};
    if k in m {
      SumRemove(m, k);
    } else {
      assert m - {k} == m;
    }
  }

  /** sum(m.values()) */
  method Total<K>(m: map<K, nat>) returns (n: nat)
    ensures n == SumValues(m)
  {
    n := 0;
    var rest := m;
    while rest != map[]
      invariant n + SumValues(rest) == SumValues(m)
      decreases |rest|
    {
      var k :| k in rest;
      SumRemove(rest, k);
      assert |rest.Keys - {k}| == |rest.Keys| - 1;
      n := n + rest[k];
      rest := rest - {k};
    }
  }

  /** The values of m at the keys ks, in order, skipping keys m lacks. */
  function SumAlong<K>(ks: seq<K>, m: map<K, nat>): nat
    decreases |ks|
  {
    if ks == [] then 0
    else
      var k := ks[|ks| - 1];
      SumAlong(ks[..|ks| - 1], m) + (if k in m then m[k] else 0)
  }

  lemma SumAlongSnoc<K>(ks: seq<K>, m: map<K, nat>, i: nat)
    requires i < |ks|
    ensures SumAlong(ks[..i + 1], m) == SumAlong(ks[..i], m) + (if ks[i] in m then m[ks[i]] else 0)
  {
    PrefixSnoc(ks, i);
  }

  /** Keys outside ks play no part. */
  lemma {:induction false} SumAlongWithout<K>(ks: seq<K>, m: map<K, nat>, k: K)
    requires k !in ks
    ensures SumAlong(ks, m - {k}) == SumAlong(ks, m)
    decreases |ks|
  {
    if ks != [] {
      var init := ks[..|ks| - 1];
      assert k !in init;
      SumAlongWithout(init, m, k);
    }
  }

  /** Along a list of distinct keys that covers the map, the sum is the sum
      of all its values. */
  lemma {:induction false} SumAlongAll<K>(ks: seq<K>, m: map<K, nat>)
    requires Distinct(ks) && forall k :: k in m ==> k in ks
    ensures SumAlong(ks, m) == SumValues(m)
    decreases |ks|
  {
    if ks == [] {
      assert m == map[];
    } else {
      var init := ks[..|ks| - 1];
      var last := ks[|ks| - 1];
      assert last !in init;
      assert Distinct(init);
      var rest := m - {last};
      forall k | k in rest ensures k in init {
        var j :| 0 <= j < |ks| && ks[j] == k;
      }
      SumAlongAll(init, rest);
      SumAlongWithout(init, m, last);
      if last in m {
        SumRemove(m, last);
      } else {
        assert rest == m;
      }
    }
  }

  /** Pointwise smaller values give a smaller sum. */
  lemma {:induction false} SumAlongLe<K>(ks: seq<K>, a: map<K, nat>, b: map<K, nat>)
    requires a.Keys == b.Keys && forall k :: k in a ==> a[k] <= b[k]
    ensures SumAlong(ks, a) <= SumAlong(ks, b)
    decreases |ks|
  {
    if ks != [] {
      SumAlongLe(ks[..|ks| - 1], a, b);
    }
  }

  /** list.index(x): the first position of x; None where Python raises ValueError. */
  function IndexOf<T(==)>(xs: seq<T>, x: T): (r: Option<nat>)
    ensures r.None? <==> x !in xs
    ensures r.Some? ==> r.value < |xs| && xs[r.value] == x && x !in xs[..r.value]
    decreases |xs|
  {
    if xs == [] then None
    else if xs[0] == x then Some(0)
    else
      match IndexOf(xs[1..], x)
      case None => None
      case Some(k) =>
        assert xs[..k + 1] == [xs[0]] + xs[1..][..k];
        Some(k + 1)
  }

  /** xs[:k] + [x] + xs[k:], which list.insert(k, x) leaves behind. */
  function InsertAt<T>(xs: seq<T>, k: nat, x: T): (r: seq<T>)
    requires k <= |xs|
    ensures |r| == |xs| + 1 && r[k] == x
    ensures r[..k] == xs[..k] && r[k + 1..] == xs[k..]
    ensures multiset(r) == multiset(xs) + multiset{x}
  {
    assert xs == xs[..k] + xs[k..];
    xs[..k] + [x] + xs[k..]
  }

  /** [f(x) for x in xs] */
  function Map<T, U>(xs: seq<T>, f: T -> U): (r: seq<U>)
    ensures |r| == |xs|
    decreases |xs|
  {
    if xs == [] then [] else Map(xs[..|xs| - 1], f) + [f(xs[|xs| - 1])]
  }

  lemma {:induction false} MapAt<T, U>(xs: seq<T>, f: T -> U, i: nat)
    requires i < |xs|
    ensures Map(xs, f)[i] == f(xs[i])
    decreases |xs|
  {
    var n := |xs| - 1;
    if i < n {
      MapAt(xs[..n], f, i);
    }
  }
}
