/** Permutations and Cartesian products in the order of the standard iterators, and what they enumerate. */
module Enumeration {
  import opened Common

  function Prepend<T>(x: T, rest: seq<seq<T>>): (r: seq<seq<T>>)
    ensures |r| == |rest| && forall i :: 0 <= i < |r| ==> r[i] == [x] + rest[i]
  {
    seq(|rest|, i requires 0 <= i < |rest| => [x] + rest[i])
  }

  lemma PrependMembers<T>(x: T, rest: seq<seq<T>>, t: seq<T>)
    ensures t in Prepend(x, rest) <==> t != [] && t[0] == x && t[1..] in rest
  {
    var r := Prepend(x, rest);
    if t in r {
      var i :| 0 <= i < |r| && r[i] == t;
      assert t[1..] == rest[i];
    }
    if t != [] && t[0] == x && t[1..] in rest {
      var i :| 0 <= i < |rest| && rest[i] == t[1..];
      assert r[i] == t;
    }
  }

  lemma PrependNoDup<T>(x: T, rest: seq<seq<T>>)
    requires NoDup(rest)
    ensures NoDup(Prepend(x, rest))
  {
    var r := Prepend(x, rest);
    forall i, j | 0 <= i < j < |r| ensures r[i] != r[j] {
      assert r[i][1..] == rest[i] && r[j][1..] == rest[j];
    }
  }

  lemma NotInTail<T>(s: seq<T>, i: nat)
    requires NoDup(s) && i < |s|
    ensures s[i] !in s[i + 1..]
  {
    var tail := s[i + 1..];
    forall k | 0 <= k < |tail| ensures tail[k] != s[i] {
      assert tail[k] == s[i + 1 + k];
    }
  }

  // ----- Permutations

  function Without<T>(s: seq<T>, i: nat): seq<T>
    requires i < |s|
  {
    s[..i] + s[i + 1..]
  }

  function Permutations<T>(s: seq<T>): seq<seq<T>>
    decreases |s|, |s| + 1
  {
    if s == [] then [[]] else PermutationsFrom(s, 0)
  }

  /** The permutations whose first element has position `i` or later. */
  function PermutationsFrom<T>(s: seq<T>, i: nat): seq<seq<T>>
    requires i <= |s|
    decreases |s|, |s| - i
  {
    if i == |s| then []
    else Prepend(s[i], Permutations(Without(s, i))) + PermutationsFrom(s, i + 1)
  }

  lemma WithoutEnumerates<T>(s: seq<T>, i: nat)
    requires NoDup(s) && i < |s|
    ensures NoDup(Without(s, i)) && Elements(Without(s, i)) == Elements(s) - {s[i]}
  {
    var t := Without(s, i);
    assert forall k :: 0 <= k < |t| ==> t[k] == s[if k < i then k else k + 1];
    forall x | x in Elements(s) - {s[i]} ensures x in t {
      var k :| 0 <= k < |s| && s[k] == x;
      assert t[if k < i then k else k - 1] == x;
    }
  }

  lemma HeadTailEnumerates<T>(t: seq<T>, elements: set<T>)
    requires t != []
    ensures Enumerates(t, elements) <==> t[0] in elements && Enumerates(t[1..], elements - {t[0]})
  {
    assert t == [t[0]] + t[1..];
    assert forall x :: x in t <==> x == t[0] || x in t[1..];
    assert Elements(t) == {t[0]} + Elements(t[1..]);
    if Enumerates(t, elements) {
      assert t[0] in Elements(t);
      forall k | 0 <= k < |t[1..]| ensures t[1..][k] != t[0] { assert t[1..][k] == t[k + 1]; }
      assert t[0] !in t[1..];
    }
    if t[0] in elements && Enumerates(t[1..], elements - {t[0]}) {
      assert t[0] !in Elements(t[1..]);
      forall i, j | 0 <= i < j < |t| ensures t[i] != t[j] {
        assert t[j] == t[1..][j - 1];
        if i == 0 { assert t[j] in Elements(t[1..]); } else { assert t[i] == t[1..][i - 1]; }
      }
    }
  }

  /** Every arrangement of distinct elements is listed, once, and nothing else is. */
  lemma {:induction false} PermutationsExact<T>(s: seq<T>)
    requires NoDup(s)
    ensures NoDup(Permutations(s))
    ensures forall t :: t in Permutations(s) <==> Enumerates(t, Elements(s))
    decreases |s|, |s| + 1
  {
    if s == [] {
      forall t: seq<T> ensures t in Permutations(s) <==> Enumerates(t, Elements(s)) {
        if t != [] { assert t[0] in Elements(t); }
      }
    } else {
      PermutationsFromExact(s, 0);
      forall t ensures t in Permutations(s) <==> Enumerates(t, Elements(s)) {
        if Enumerates(t, Elements(s)) {
          assert s[0] in Elements(s);
          assert t != [] && t[0] in Elements(t);
          var k :| 0 <= k < |s| && s[k] == t[0];
          assert t[0] in s[0..];
        }
      }
    }
  }

  lemma {:induction false} PermutationsFromExact<T>(s: seq<T>, i: nat)
    requires NoDup(s) && i <= |s|
    ensures NoDup(PermutationsFrom(s, i))
    ensures forall t :: t in PermutationsFrom(s, i) <==> Enumerates(t, Elements(s)) && t != [] && t[0] in s[i..]
    decreases |s|, |s| - i
  {
    if i < |s| {
      var first := Prepend(s[i], Permutations(Without(s, i)));
      var others := PermutationsFrom(s, i + 1);
      PermutationsExact(Without(s, i));
      PermutationsFromExact(s, i + 1);
      WithoutEnumerates(s, i);
      PrependNoDup(s[i], Permutations(Without(s, i)));
      assert s[i..] == [s[i]] + s[i + 1..];
      NotInTail(s, i);
      forall t ensures t in first <==> Enumerates(t, Elements(s)) && t != [] && t[0] == s[i] {
        PrependMembers(s[i], Permutations(Without(s, i)), t);
        if t != [] && t[0] == s[i] {
          HeadTailEnumerates(t, Elements(s));
          assert s[i] in Elements(s);
        }
      }
      AppendNoDup(first, others);
    }
  }

  // ----- Products

  function Product<T>(lists: seq<seq<T>>): seq<seq<T>>
    decreases |lists|, 0, 0
  {
    if lists == [] then [[]] else ProductFrom(lists, 0)
  }

  /** The tuples whose first element has position `i` or later in the first list. */
  function ProductFrom<T>(lists: seq<seq<T>>, i: nat): seq<seq<T>>
    requires lists != [] && i <= |lists[0]|
    decreases |lists| - 1, 1, |lists[0]| - i
  {
    if i == |lists[0]| then []
    else Prepend(lists[0][i], Product(lists[1..])) + ProductFrom(lists, i + 1)
  }

  ghost predicate Chooses<T>(t: seq<T>, lists: seq<seq<T>>) {
    |t| == |lists| && forall i :: 0 <= i < |lists| ==> t[i] in lists[i]
  }

  function Volume<T>(lists: seq<seq<T>>): nat {
    if lists == [] then 1 else |lists[0]| * Volume(lists[1..])
  }

  /** The product lists every choice of one element per list, once, and their number is the product of the lengths. */
  lemma {:induction false} ProductExact<T>(lists: seq<seq<T>>)
    requires forall i :: 0 <= i < |lists| ==> NoDup(lists[i])
    ensures NoDup(Product(lists)) && |Product(lists)| == Volume(lists)
    ensures forall t :: t in Product(lists) <==> Chooses(t, lists)
    decreases |lists|, 0, 0
  {
    if lists == [] {
      assert forall t: seq<T> :: Chooses(t, lists) <==> t == [];
    } else {
      ProductFromExact(lists, 0);
      assert lists[0][0..] == lists[0];
    }
  }

  lemma {:induction false} ProductFromExact<T>(lists: seq<seq<T>>, i: nat)
    requires lists != [] && i <= |lists[0]| && forall k :: 0 <= k < |lists| ==> NoDup(lists[k])
    ensures NoDup(ProductFrom(lists, i)) && |ProductFrom(lists, i)| == (|lists[0]| - i) * Volume(lists[1..])
    ensures forall t :: t in ProductFrom(lists, i) <==> t != [] && t[0] in lists[0][i..] && Chooses(t[1..], lists[1..])
    decreases |lists| - 1, 1, |lists[0]| - i
  {
    if i < |lists[0]| {
      var x := lists[0][i];
      var first := Prepend(x, Product(lists[1..]));
      ProductExact(lists[1..]);
      ProductFromExact(lists, i + 1);
      PrependNoDup(x, Product(lists[1..]));
      assert lists[0][i..] == [x] + lists[0][i + 1..];
      NotInTail(lists[0], i);
      forall t ensures t in first <==> t != [] && t[0] == x && Chooses(t[1..], lists[1..]) {
        PrependMembers(x, Product(lists[1..]), t);
      }
      AppendNoDup(first, ProductFrom(lists, i + 1));
      assert (|lists[0]| - i) * Volume(lists[1..]) == Volume(lists[1..]) + (|lists[0]| - (i + 1)) * Volume(lists[1..]);
    }
  }

  // ----- Choices as maps

  function Zip<K(==), V>(keys: seq<K>, values: seq<V>): (m: map<K, V>)
    requires |keys| == |values|
    ensures m.Keys == Elements(keys)
  {
    map k | k in keys :: values[IndexOf(keys, k)]
  }

  ghost predicate Picks<K, V>(m: map<K, V>, keys: seq<K>, lists: seq<seq<V>>)
    requires |keys| == |lists|
  {
    m.Keys == Elements(keys) && forall i :: 0 <= i < |keys| ==> keys[i] in m && m[keys[i]] in lists[i]
  }

  /** The maps that pick, for each key, one element of its list: the product, keyed. */
  function KeyedProduct<K(==), V>(keys: seq<K>, lists: seq<seq<V>>): seq<map<K, V>> {
    var tuples := Product(lists);
    seq(|tuples|, i requires 0 <= i < |tuples| => if |tuples[i]| == |keys| then Zip(keys, tuples[i]) else map[])
  }

  /** Each keyed choice is listed once, and their number is the product of the lengths. */
  lemma KeyedProductExact<K, V>(keys: seq<K>, lists: seq<seq<V>>)
    requires NoDup(keys) && |keys| == |lists| && forall i :: 0 <= i < |lists| ==> NoDup(lists[i])
    ensures NoDup(KeyedProduct(keys, lists)) && |KeyedProduct(keys, lists)| == Volume(lists)
    ensures forall m :: m in KeyedProduct(keys, lists) <==> Picks(m, keys, lists)
  {
    var tuples, maps := Product(lists), KeyedProduct(keys, lists);
    ProductExact(lists);
    forall i | 0 <= i < |tuples| ensures |tuples[i]| == |keys| && maps[i] == Zip(keys, tuples[i]) {
      assert tuples[i] in tuples && Chooses(tuples[i], lists);
    }
    forall i, j | 0 <= i < j < |maps| ensures maps[i] != maps[j] {
      if maps[i] == maps[j] { ZipInjective(keys, tuples[i], tuples[j]); }
    }
    forall m ensures m in maps <==> Picks(m, keys, lists) {
      if m in maps {
        var i :| 0 <= i < |maps| && maps[i] == m;
        assert tuples[i] in tuples && Chooses(tuples[i], lists);
        ZipPicks(keys, lists, tuples[i]);
      }
      if Picks(m, keys, lists) {
        var t := Unzip(keys, lists, m);
        assert t in tuples;
        var i :| 0 <= i < |tuples| && tuples[i] == t;
        assert maps[i] == m;
      }
    }
  }

  lemma ZipAt<K, V>(keys: seq<K>, values: seq<V>, i: nat)
    requires NoDup(keys) && |keys| == |values| && i < |keys|
    ensures Zip(keys, values)[keys[i]] == values[i]
  {
    assert IndexOf(keys, keys[i]) == i;
  }

  lemma ZipInjective<K, V>(keys: seq<K>, a: seq<V>, b: seq<V>)
    requires NoDup(keys) && |keys| == |a| == |b| && Zip(keys, a) == Zip(keys, b)
    ensures a == b
  {
    forall i | 0 <= i < |a| ensures a[i] == b[i] {
      ZipAt(keys, a, i);
      ZipAt(keys, b, i);
    }
  }

  lemma ZipPicks<K, V>(keys: seq<K>, lists: seq<seq<V>>, t: seq<V>)
    requires NoDup(keys) && |keys| == |lists| && Chooses(t, lists)
    ensures Picks(Zip(keys, t), keys, lists)
  {
    forall i | 0 <= i < |keys| ensures keys[i] in Zip(keys, t) && Zip(keys, t)[keys[i]] in lists[i] {
      ZipAt(keys, t, i);
    }
  }

  lemma Unzip<K, V>(keys: seq<K>, lists: seq<seq<V>>, m: map<K, V>) returns (t: seq<V>)
    requires NoDup(keys) && |keys| == |lists| && Picks(m, keys, lists)
    ensures Chooses(t, lists) && Zip(keys, t) == m
  {
    t := seq(|keys|, i requires 0 <= i < |keys| && keys[i] in m => m[keys[i]]);
    forall k | k in m ensures k in keys && Zip(keys, t)[k] == m[k] {
      assert k in Elements(keys);
      ZipAt(keys, t, IndexOf(keys, k));
    }
  }

  // ----- Counting choices without an order of the keys

  ghost function SomeKey<K, V>(m: map<K, V>): (k: K)
    requires m != map[]
    ensures k in m
  {
    assert m.Keys != {};
    var k :| k in m.Keys;
    k
  }

  /** The product of the lengths of the lists. */
  ghost function Count<K, V>(m: map<K, seq<V>>): nat
    decreases m.Keys
  {
    if m == map[] then 1 else |m[SomeKey(m)]| * Count(m - {SomeKey(m)})
  }

  /** The lists may be multiplied in any order. */
  lemma {:induction false} CountStep<K, V>(m: map<K, seq<V>>, k: K)
    requires k in m
    ensures Count(m) == |m[k]| * Count(m - {k})
    decreases m.Keys
  {
    var j := SomeKey(m);
    if j != k {
      CountStep(m - {j}, k);
      CountStep(m - {k}, j);
      assert m - {j} - {k} == m - {k} - {j};
      MultiplyInAnyOrder(|m[j]|, |m[k]|, Count(m - {j} - {k}));
    }
  }

  lemma MultiplyGrouped(a: nat, b: nat, c: nat)
    ensures a * (b * c) == a * b * c
  {
  }

  lemma MultiplyInAnyOrder(a: nat, b: nat, c: nat)
    ensures a * (b * c) == b * (a * c)
  {
  }

  /** Multiplies the lengths, in any order of the keys. */
  method MultiplyLengths<K(==), V>(start: nat, m: map<K, seq<V>>) returns (count: nat)
    ensures count == start * Count(m)
  {
    count := start;
    var rest := m;
    while rest != map[]
      invariant count * Count(rest) == start * Count(m)
      decreases rest.Keys
    {
      assert rest.Keys != {};
      var k :| k in rest.Keys;
      CountStep(rest, k);
      MultiplyGrouped(count, |rest[k]|, Count(rest - {k}));
      count := count * |rest[k]|;
      rest := rest - {k};
    }
  }

  function ListsOf<K, V>(m: map<K, seq<V>>, keys: seq<K>): (lists: seq<seq<V>>)
    requires forall k :: k in keys ==> k in m
    ensures |lists| == |keys| && forall i :: 0 <= i < |lists| ==> lists[i] == m[keys[i]]
  {
    seq(|keys|, i requires 0 <= i < |keys| && keys[i] in m => m[keys[i]])
  }

  lemma {:induction false} CountIsVolume<K, V>(m: map<K, seq<V>>, keys: seq<K>)
    requires Enumerates(keys, m.Keys) && forall k :: k in keys ==> k in m
    ensures Count(m) == Volume(ListsOf(m, keys))
    decreases |keys|
  {
    if keys == [] {
      assert m.Keys == {};
    } else {
      HeadTailEnumerates(keys, m.Keys);
      var rest := m - {keys[0]};
      assert rest.Keys == m.Keys - {keys[0]};
      assert forall k :: k in keys[1..] ==> k in Elements(keys[1..]);
      CountIsVolume(rest, keys[1..]);
      CountStep(m, keys[0]);
      assert ListsOf(m, keys)[1..] == ListsOf(rest, keys[1..]);
    }
  }

  /** Renaming the keys and replacing the lists by lists of the same lengths keeps the number of choices. */
  lemma {:induction false} CountRekeyed<K, V, L, W>(m: map<K, seq<V>>, n: map<L, seq<W>>, f: map<K, L>)
    requires f.Keys == m.Keys && f.Values == n.Keys
    requires forall j, k :: j in f && k in f && f[j] == f[k] ==> j == k
    requires forall k :: k in m ==> |m[k]| == |n[f[k]]|
    ensures Count(m) == Count(n)
    decreases m.Keys
  {
    if m == map[] {
      assert n.Keys == {};
    } else {
      var k := SomeKey(m);
      var (rest, others, g) := (m - {k}, n - {f[k]}, f - {k});
      forall l | l in others ensures l in g.Values {
        var j :| j in f && f[j] == l;
        assert j in g;
      }
      assert g.Values == others.Keys;
      CountRekeyed(rest, others, g);
      CountStep(n, f[k]);
    }
  }
}
