/** Shared result types and the ordering of identifiers that `sorted` uses. */
module Common {

  datatype Option<+T> = None | Some(value: T)

  /** A value, or the exception that stops the computation (its text is not modelled). */
  datatype Result<+T> = Ok(value: T) | Err

  type Id = string

  /** Code-point lexicographic order, the order in which identifiers are sorted. */
  predicate Le(a: Id, b: Id) {
    a == "" || (b != "" && (a[0] < b[0] || (a[0] == b[0] && Le(a[1..], b[1..]))))
  }

  /** The strings differ first at `k`, where `a` has the smaller character. */
  predicate FirstDifference(a: string, b: string, k: nat) {
    k < |a| && k < |b| && a[..k] == b[..k] && a[k] < b[k]
  }

  /** The order is that of dictionaries: a prefix comes first, and otherwise the first difference decides. */
  lemma {:induction false} LeIsLexicographic(a: string, b: string)
    ensures Le(a, b) <==> a <= b || exists k: nat :: FirstDifference(a, b, k)
  {
    if a != "" && b != "" {
      var s, t := a[1..], b[1..];
      LeIsLexicographic(s, t);
      if a[0] == b[0] {
        if k: nat :| FirstDifference(s, t, k) {
          assert a[..k + 1] == [a[0]] + s[..k] && b[..k + 1] == [b[0]] + t[..k];
          assert FirstDifference(a, b, k + 1);
        }
        if k: nat :| FirstDifference(a, b, k) {
          assert k > 0;
          assert s[..k - 1] == a[..k][1..] && t[..k - 1] == b[..k][1..];
          assert FirstDifference(s, t, k - 1);
        }
      } else if a[0] < b[0] {
        assert FirstDifference(a, b, 0);
      }
    }
  }

  lemma {:induction false} LeTotal(a: Id, b: Id)
    ensures Le(a, b) || Le(b, a)
  {
    if a != "" && b != "" && a[0] == b[0] {
      LeTotal(a[1..], b[1..]);
    }
  }

  lemma {:induction false} LeTransitive(a: Id, b: Id, c: Id)
    requires Le(a, b) && Le(b, c)
    ensures Le(a, c)
  {
    if a != "" && a[0] == b[0] == c[0] {
      LeTransitive(a[1..], b[1..], c[1..]);
    }
  }

  predicate NoDup<T(==)>(s: seq<T>) {
    forall i, j :: 0 <= i < j < |s| ==> s[i] != s[j]
  }

  function Elements<T>(s: seq<T>): set<T> {
    set x | x in s
  }

  /** `s` lists every element of `elements` exactly once. */
  ghost predicate Enumerates<T>(s: seq<T>, elements: set<T>) {
    NoDup(s) && Elements(s) == elements
  }

  predicate Ascending(s: seq<Id>) {
    forall i, j :: 0 <= i < j < |s| ==> Le(s[i], s[j])
  }

  lemma InsertedElements<T>(s: seq<T>, k: nat, x: T)
    requires k <= |s|
    ensures Elements(s[..k] + [x] + s[k..]) == Elements(s) + {x}
  {
    var t := s[..k] + [x] + s[k..];
    forall y | y in s ensures y in t {
      var i :| 0 <= i < |s| && s[i] == y;
      assert t[if i < k then i else i + 1] == y;
    }
    assert t[k] == x;
  }

  lemma InsertedNoDup<T>(s: seq<T>, k: nat, x: T)
    requires k <= |s| && NoDup(s) && x !in s
    ensures NoDup(s[..k] + [x] + s[k..])
  {
    var t := s[..k] + [x] + s[k..];
    forall i, j | 0 <= i < j < |t| ensures t[i] != t[j] {
      assert t[i] == if i < k then s[i] else if i == k then x else s[i - 1];
      assert t[j] == if j < k then s[j] else if j == k then x else s[j - 1];
    }
  }

  lemma InsertedAscending(s: seq<Id>, k: nat, x: Id)
    requires k <= |s| && Ascending(s)
    requires forall i :: 0 <= i < k ==> Le(s[i], x)
    requires k < |s| ==> Le(x, s[k])
    ensures Ascending(s[..k] + [x] + s[k..])
  {
    var t := s[..k] + [x] + s[k..];
    forall i, j | 0 <= i < j < |t| ensures Le(t[i], t[j]) {
      assert t[i] == if i < k then s[i] else if i == k then x else s[i - 1];
      assert t[j] == if j < k then s[j] else if j == k then x else s[j - 1];
      if i == k && k < j - 1 { LeTransitive(x, s[k], s[j - 1]); }
    }
  }

  /** Appending an identifier to a sorted list and sorting again. */
  method InsertSorted(s: seq<Id>, x: Id) returns (t: seq<Id>)
    requires NoDup(s) && Ascending(s) && x !in s
    ensures Enumerates(t, Elements(s) + {x}) && Ascending(t)
  {
    var k := 0;
    while k < |s| && Le(s[k], x)
      invariant 0 <= k <= |s|
      invariant forall i :: 0 <= i < k ==> Le(s[i], x)
    {
      k := k + 1;
    }
    if k < |s| { LeTotal(x, s[k]); }
    InsertedElements(s, k, x);
    InsertedNoDup(s, k, x);
    InsertedAscending(s, k, x);
    t := s[..k] + [x] + s[k..];
  }

  /** `sorted` applied to a set of identifiers. */
  method Sorted(ids: set<Id>) returns (s: seq<Id>)
    ensures Enumerates(s, ids) && Ascending(s)
  {
    s := [];
    var todo := ids;
    while todo != {}
      invariant NoDup(s) && Ascending(s)
      invariant Elements(s) !! todo && Elements(s) + todo == ids
      decreases |todo|
    {
      var x :| x in todo;
      assert x !in Elements(s);
      s := InsertSorted(s, x);
      todo := todo - {x};
    }
  }

  lemma PrefixElements<T>(s: seq<T>, i: nat)
    requires i < |s|
    ensures Elements(s[..i + 1]) == Elements(s[..i]) + {s[i]} && s[i] in Elements(s)
  {
    assert s[..i + 1] == s[..i] + [s[i]];
  }

  lemma WholePrefix<T>(s: seq<T>)
    ensures s[..|s|] == s
  {
  }

  lemma AppendOne<T>(s: seq<T>, x: T)
    ensures Elements(s + [x]) == Elements(s) + {x}
  {
    assert forall y :: y in s + [x] <==> y in s || y == x;
  }

  lemma AppendNoDup<T>(s: seq<T>, t: seq<T>)
    requires NoDup(s) && NoDup(t) && forall x :: x in s ==> x !in t
    ensures NoDup(s + t)
  {
    var r := s + t;
    forall i, j | 0 <= i < j < |r| ensures r[i] != r[j] {
      if i < |s| <= j { assert r[i] in s && r[j] in t; }
    }
  }

  lemma AppendAll<T>(s: seq<T>, t: seq<T>)
    ensures Elements(s + t) == Elements(s) + Elements(t)
  {
    assert forall y :: y in s + t <==> y in s || y in t;
  }

  /** A position in a duplicate-free sequence. */
  function IndexOf<T(==)>(s: seq<T>, x: T): (i: nat)
    requires x in s
    ensures i < |s| && s[i] == x && x !in s[..i]
  {
    if s[0] == x then 0
    else
      assert x in s[1..];
      var k := IndexOf(s[1..], x);
      assert s[..k + 1] == [s[0]] + s[1..][..k];
      k + 1
  }

  lemma CardinalityOfSubset<T>(a: set<T>, b: set<T>)
    requires a <= b
    ensures |a| <= |b|
    ensures |a| == |b| ==> a == b
  {
    assert b == a + (b - a);
    assert |b| == |a| + |b - a|;
  }

  lemma {:induction false} EnumerationLength<T>(s: seq<T>, elements: set<T>)
    requires Enumerates(s, elements)
    ensures |s| == |elements|
  {
    if s == [] {
      assert elements == {};
    } else {
      var t := s[1..];
      assert s[0] in elements;
      assert Enumerates(t, elements - {s[0]}) by {
        forall x | x in elements - {s[0]} ensures x in t {
          var i :| 0 <= i < |s| && s[i] == x;
          assert t[i - 1] == x;
        }
      }
      EnumerationLength(t, elements - {s[0]});
    }
  }

  /** What holds first and is kept by every step holds throughout. */
  lemma {:induction false} StepByStep(holds: nat -> bool, n: nat, c: nat)
    requires holds(0) && (forall d: nat :: d < n && holds(d) ==> holds(d + 1)) && c <= n
    ensures holds(c)
  {
    if c > 0 {
      StepByStep(holds, n, c - 1);
      assert c - 1 + 1 == c;
    }
  }

  // ----- Numbers

  /** The bits of an unbounded two's-complement integer, the lowest at 0. */
  predicate Bit(n: int, k: nat)
    decreases k
  {
    if k == 0 then n % 2 == 1 else Bit(n / 2, k - 1)
  }

  lemma MultiplesApart(b: int, c: int, size: int)
    requires size > 0 && b < c
    ensures b * size + size <= c * size
  {
    assert (c - b) * size == c * size - b * size && (c - b - 1) * size >= 0;
    assert (c - b - 1) * size == (c - b) * size - size;
  }
}
