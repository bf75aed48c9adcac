/**
  Orders and sorting as Python's `sorted` sees them.

  Python compares strings lexicographically by code point, and tuples
  element by element. Dafny's `<` on sequences means "proper prefix", so the
  order on strings is defined here explicitly (`StrLess`), and `Sort` is a
  sort parameterised by a strict total order.
*/
module Ordering {

  /** Python's `a < b` on `str`: lexicographic by code point, a proper prefix first. */
  predicate StrLess(a: string, b: string)
  {
    if |a| == 0 then |b| > 0
    else if |b| == 0 then false
    else if a[0] != b[0] then a[0] < b[0]
    else StrLess(a[1..], b[1..])
  }

  lemma {:induction false} StrLessIrreflexive(a: string)
    ensures !StrLess(a, a)
  {
    if |a| > 0 { StrLessIrreflexive(a[1..]); }
  }

  lemma {:induction false} StrLessTransitive(a: string, b: string, c: string)
    requires StrLess(a, b) && StrLess(b, c)
    ensures StrLess(a, c)
  {
    if |a| > 0 && |b| > 0 && |c| > 0 && a[0] == b[0] && b[0] == c[0] {
      StrLessTransitive(a[1..], b[1..], c[1..]);
    }
  }

  lemma {:induction false} StrLessTotal(a: string, b: string)
    requires a != b
    ensures StrLess(a, b) || StrLess(b, a)
  {
    if |a| > 0 && |b| > 0 && a[0] == b[0] {
      assert a == [a[0]] + a[1..] && b == [b[0]] + b[1..];
      StrLessTotal(a[1..], b[1..]);
    }
  }

  /** `lt` is irreflexive, transitive and relates any two distinct values. */
  ghost predicate StrictTotalOrder<T(!new)>(lt: (T, T) -> bool)
  {
    && (forall x :: !lt(x, x))
    && (forall x, y, z :: lt(x, y) && lt(y, z) ==> lt(x, z))
    && (forall x, y :: x != y ==> lt(x, y) || lt(y, x))
  }

  lemma StrLessIsStrictTotalOrder()
    ensures StrictTotalOrder(StrLess)
  {
    forall x: string ensures !StrLess(x, x) { StrLessIrreflexive(x); }
    forall x: string, y: string, z: string | StrLess(x, y) && StrLess(y, z)
      ensures StrLess(x, z)
    {
      StrLessTransitive(x, y, z);
    }
    forall x: string, y: string | x != y ensures StrLess(x, y) || StrLess(y, x) {
      StrLessTotal(x, y);
    }
  }

  // ---------------------------------------------------------------------------
  // Sequence vocabulary

  ghost predicate Distinct<T>(xs: seq<T>)
  {
    forall i, j :: 0 <= i < j < |xs| ==> xs[i] != xs[j]
  }

  ghost function Elems<T>(xs: seq<T>): set<T>
  {
    set x | x in xs
  }

  /** No later element is below an earlier one: the shape `sorted` returns. */
  ghost predicate NoInversion<T>(xs: seq<T>, lt: (T, T) -> bool)
  {
    forall i, j :: 0 <= i < j < |xs| ==> !lt(xs[j], xs[i])
  }

  /** Ascending without repeats. */
  ghost predicate StrictlySorted<T>(xs: seq<T>, lt: (T, T) -> bool)
  {
    forall i, j :: 0 <= i < j < |xs| ==> lt(xs[i], xs[j])
  }

  /** Python's stop index of the slice `xs[:k]` for a list of length `n`. */
  function SliceStop(n: nat, k: int): (stop: nat)
    ensures stop <= n
  {
    if k >= 0 then (if k < n then k else n)
    else if n + k < 0 then 0 else n + k
  }

  /** Python's `xs[:k]`; a negative `k` drops `-k` elements from the end. */
  function Take<T>(xs: seq<T>, k: int): (r: seq<T>)
    ensures r <= xs
    ensures 0 <= k ==> |r| == if k < |xs| then k else |xs|
    ensures k < 0 ==> |xs| - |r| == if -k < |xs| then -k else |xs|
  {
    xs[..SliceStop(|xs|, k)]
  }

  // ---------------------------------------------------------------------------
  // Sorting

  function Insert<T>(x: T, xs: seq<T>, lt: (T, T) -> bool): (r: seq<T>)
    ensures multiset(r) == multiset(xs) + multiset{x}
  {
    if xs == [] || !lt(xs[0], x) then [x] + xs
    else
      assert xs == [xs[0]] + xs[1..];
      [xs[0]] + Insert(x, xs[1..], lt)
  }

  /** Python's stable `sorted` under the order `lt` (insertion sort). */
  function Sort<T>(xs: seq<T>, lt: (T, T) -> bool): (r: seq<T>)
    ensures multiset(r) == multiset(xs)
  {
    if xs == [] then []
    else
      assert xs == [xs[0]] + xs[1..];
      Insert(xs[0], Sort(xs[1..], lt), lt)
  }

  lemma {:induction false} InsertNoInversion<T(!new)>(x: T, xs: seq<T>, lt: (T, T) -> bool)
    requires StrictTotalOrder(lt) && NoInversion(xs, lt)
    ensures NoInversion(Insert(x, xs, lt), lt)
  {
    var r := Insert(x, xs, lt);
    if xs == [] || !lt(xs[0], x) {
      forall j | 1 <= j < |r| ensures !lt(r[j], x) {
        assert r[j] == xs[j - 1];
        assert j - 1 == 0 || !lt(xs[j - 1], xs[0]);
      }
    } else {
      var rest := Insert(x, xs[1..], lt);
      InsertNoInversion(x, xs[1..], lt);
      forall j | 0 <= j < |rest| ensures !lt(rest[j], xs[0]) {
        assert rest[j] in multiset(rest);
        if rest[j] != x {
          assert rest[j] in multiset(xs[1..]);
          var k :| 0 <= k < |xs[1..]| && xs[1..][k] == rest[j];
          assert xs[k + 1] == rest[j];
        }
      }
    }
  }

  lemma {:induction false} SortNoInversion<T(!new)>(xs: seq<T>, lt: (T, T) -> bool)
    requires StrictTotalOrder(lt)
    ensures NoInversion(Sort(xs, lt), lt)
  {
    if xs != [] {
      SortNoInversion(xs[1..], lt);
      InsertNoInversion(xs[0], Sort(xs[1..], lt), lt);
    }
  }

  lemma SortedHeadsAgree<T(!new)>(a: seq<T>, b: seq<T>, lt: (T, T) -> bool)
    requires StrictTotalOrder(lt)
    requires NoInversion(a, lt) && NoInversion(b, lt)
    requires multiset(a) == multiset(b) && a != []
    ensures b != [] && a[0] == b[0]
  {
    assert a[0] in multiset(b);
    assert b[0] in multiset(a);
    var i :| 0 <= i < |a| && a[i] == b[0];
    var j :| 0 <= j < |b| && b[j] == a[0];
  }

  lemma TailMultiset<T>(a: seq<T>)
    requires a != []
    ensures multiset(a[1..]) == multiset(a) - multiset{a[0]}
  {
    assert a == [a[0]] + a[1..];
  }

  /** Under a strict total order, a sorted arrangement of a multiset is unique. */
  lemma {:induction false} NoInversionUnique<T(!new)>(a: seq<T>, b: seq<T>, lt: (T, T) -> bool)
    requires StrictTotalOrder(lt)
    requires NoInversion(a, lt) && NoInversion(b, lt)
    requires multiset(a) == multiset(b)
    ensures a == b
  {
    if a != [] {
      SortedHeadsAgree(a, b, lt);
      TailMultiset(a);
      TailMultiset(b);
      NoInversionUnique(a[1..], b[1..], lt);
      assert a == [a[0]] + a[1..] && b == [b[0]] + b[1..];
    }
  }

  /** Sorting depends only on the multiset of the input, not on its order. */
  lemma SortPermutationInvariant<T(!new)>(xs: seq<T>, ys: seq<T>, lt: (T, T) -> bool)
    requires StrictTotalOrder(lt)
    requires multiset(xs) == multiset(ys)
    ensures Sort(xs, lt) == Sort(ys, lt)
  {
    SortNoInversion(xs, lt);
    SortNoInversion(ys, lt);
    NoInversionUnique(Sort(xs, lt), Sort(ys, lt), lt);
  }

  lemma {:induction false} DistinctMultiplicity<T>(xs: seq<T>, v: T)
    requires Distinct(xs)
    ensures multiset(xs)[v] == if v in xs then 1 else 0
  {
    if xs != [] {
      assert xs == [xs[0]] + xs[1..];
      assert xs[0] !in xs[1..];
      DistinctMultiplicity(xs[1..], v);
    }
  }

  lemma DistinctSameMultiset<T>(xs: seq<T>, ys: seq<T>)
    requires Distinct(xs) && Distinct(ys) && Elems(xs) == Elems(ys)
    ensures multiset(xs) == multiset(ys)
  {
    forall v ensures multiset(xs)[v] == multiset(ys)[v] {
      DistinctMultiplicity(xs, v);
      DistinctMultiplicity(ys, v);
      assert v in xs <==> v in Elems(xs);
      assert v in ys <==> v in Elems(ys);
    }
  }

  lemma SortedOfDistinct<T(!new)>(xs: seq<T>, lt: (T, T) -> bool)
    requires StrictTotalOrder(lt) && Distinct(xs)
    ensures StrictlySorted(Sort(xs, lt), lt)
    ensures Distinct(Sort(xs, lt)) && Elems(Sort(xs, lt)) == Elems(xs)
  {
    var r := Sort(xs, lt);
    SortNoInversion(xs, lt);
    forall v ensures v in r <==> v in xs {
      assert v in r <==> v in multiset(r);
      assert v in xs <==> v in multiset(xs);
    }
    forall i, j | 0 <= i < j < |r| ensures r[i] != r[j] {
      DistinctMultiplicity(xs, r[i]);
      RepeatedMultiplicity(r, i, j);
    }
  }

  lemma RepeatedMultiplicity<T>(s: seq<T>, i: nat, j: nat)
    requires i < j < |s|
    ensures s[i] == s[j] ==> multiset(s)[s[i]] >= 2
  {
    assert s == s[..i] + [s[i]] + s[i + 1..j] + [s[j]] + s[j + 1..];
  }

  lemma {:induction false} DistinctCard<T>(xs: seq<T>)
    requires Distinct(xs)
    ensures |Elems(xs)| == |xs|
  {
    if xs != [] {
      DistinctCard(xs[1..]);
      assert Elems(xs) == Elems(xs[1..]) + {xs[0]};
      assert xs[0] !in Elems(xs[1..]);
    }
  }

  /** A set listed in some order without repeats (Python's `list(s)`, order unspecified). */
  ghost function SeqOf<T>(s: set<T>): (xs: seq<T>)
    ensures Distinct(xs) && Elems(xs) == s
  {
    if s == {} then []
    else
      var x :| x in s;
      var rest := SeqOf(s - {x});
      assert x !in Elems(rest);
      assert Elems([x] + rest) == {x} + Elems(rest);
      [x] + rest
  }

  /** Python's `sorted(s)` for a set `s`: its unique strictly ascending listing. */
  ghost function SortedSet<T(!new)>(s: set<T>, lt: (T, T) -> bool): (r: seq<T>)
    requires StrictTotalOrder(lt)
    ensures StrictlySorted(r, lt) && Distinct(r) && Elems(r) == s
  {
    SortedOfDistinct(SeqOf(s), lt);
    var r :| StrictlySorted(r, lt) && Elems(r) == s;
    r
  }

  /** Whatever order a set is listed in, sorting it gives `SortedSet`. */
  lemma SortOfListedSet<T(!new)>(xs: seq<T>, lt: (T, T) -> bool)
    requires StrictTotalOrder(lt) && Distinct(xs)
    ensures Sort(xs, lt) == SortedSet(Elems(xs), lt)
  {
    SortedOfDistinct(xs, lt);
    StrictlySortedUnique(Sort(xs, lt), SortedSet(Elems(xs), lt), lt);
  }

  /** Two strictly sorted sequences with the same elements are equal. */
  lemma {:induction false} StrictlySortedUnique<T(!new)>(a: seq<T>, b: seq<T>, lt: (T, T) -> bool)
    requires StrictTotalOrder(lt)
    requires StrictlySorted(a, lt) && StrictlySorted(b, lt) && Elems(a) == Elems(b)
    ensures a == b
  {
    assert Distinct(a) && Distinct(b);
    DistinctSameMultiset(a, b);
    NoInversionUnique(a, b, lt);
  }

  /** Python's `list(s)`: the elements of a set in an unspecified order. */
  method SetToSeq<T>(s: set<T>) returns (xs: seq<T>)
    ensures Distinct(xs) && Elems(xs) == s
  {
    xs := [];
    var rest := s;
    while rest != {}
      invariant Distinct(xs)
      invariant Elems(xs) + rest == s && Elems(xs) !! rest
      decreases |rest|
    {
      var x :| x in rest;
      xs := xs + [x];
      rest := rest - {x};
    }
  }

  /** Python's `sorted(s)` for a set `s`, computed. */
  method SortedOf<T(!new)>(s: set<T>, lt: (T, T) -> bool) returns (r: seq<T>)
    requires StrictTotalOrder(lt)
    ensures r == SortedSet(s, lt)
  {
    var xs := SetToSeq(s);
    r := Sort(xs, lt);
    SortOfListedSet(xs, lt);
  }
}
