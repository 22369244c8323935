/** The stable library sort, by any strict weak order, and the order of strings. */
module Sorting {

  ghost predicate IsOrder<T(!new)>(less: (T, T) -> bool) {
    && (forall x :: !less(x, x))
    && (forall x, y :: less(x, y) ==> !less(y, x))
    && (forall x, y, z :: !less(y, x) && !less(z, y) ==> !less(z, x))
  }

  ghost predicate Sorted<T>(less: (T, T) -> bool, s: seq<T>) {
    forall i, j :: 0 <= i < j < |s| ==> !less(s[j], s[i])
  }

  /** No two different elements tie. */
  ghost predicate Separates<T(!new)>(less: (T, T) -> bool, s: seq<T>) {
    forall x, y :: x in s && y in s && x != y ==> less(x, y) || less(y, x)
  }

  function Insert<T>(less: (T, T) -> bool, x: T, s: seq<T>): (r: seq<T>)
    ensures multiset(r) == multiset(s) + multiset{x}
  {
    if s == [] || !less(s[0], x) then
      assert multiset([x] + s) == multiset(s) + multiset{x};
      [x] + s
    else
      assert s == [s[0]] + s[1..];
      [s[0]] + Insert(less, x, s[1..])
  }

  function Sort<T>(less: (T, T) -> bool, s: seq<T>): (r: seq<T>)
    ensures multiset(r) == multiset(s)
  {
    if s == [] then []
    else
      assert s == [s[0]] + s[1..];
      Insert(less, s[0], Sort(less, s[1..]))
  }

  lemma {:induction false} InsertKeepsSorted<T(!new)>(less: (T, T) -> bool, x: T, s: seq<T>)
    requires IsOrder(less) && Sorted(less, s)
    ensures Sorted(less, Insert(less, x, s))
  {
    var r := Insert(less, x, s);
    if s == [] || !less(s[0], x) {
      forall i, j | 0 <= i < j < |r|
        ensures !less(r[j], r[i])
      {
        if i == 0 && j > 1 {
          assert !less(s[j - 1], s[0]);
        }
      }
    } else {
      var tail := Insert(less, x, s[1..]);
      InsertKeepsSorted(less, x, s[1..]);
      forall i, j | 0 <= i < j < |r|
        ensures !less(r[j], r[i])
      {
        if i == 0 {
          assert r[j] == tail[j - 1] && tail[j - 1] in multiset(tail);
          assert r[j] == x || r[j] in s[1..];
        }
      }
    }
  }

  lemma {:induction false} SortSorts<T(!new)>(less: (T, T) -> bool, s: seq<T>)
    requires IsOrder(less)
    ensures Sorted(less, Sort(less, s))
  {
    if s != [] {
      SortSorts(less, s[1..]);
      InsertKeepsSorted(less, s[0], Sort(less, s[1..]));
    }
  }

  lemma HeadIsLeast<T>(less: (T, T) -> bool, a: seq<T>, x: T)
    requires Sorted(less, a) && x in multiset(a)
    ensures x == a[0] || !less(x, a[0])
  {
  }

  lemma TailsAgree<T>(a: seq<T>, b: seq<T>)
    requires multiset(a) == multiset(b) && a != [] && b != [] && a[0] == b[0]
    ensures multiset(a[1..]) == multiset(b[1..])
  {
    assert a == [a[0]] + a[1..] && b == [b[0]] + b[1..];
    assert multiset(a[1..]) == multiset(a) - multiset{a[0]};
    assert multiset(b[1..]) == multiset(b) - multiset{b[0]};
  }

  lemma SameSize<T>(a: seq<T>, b: seq<T>)
    requires multiset(a) == multiset(b)
    ensures |a| == |b|
  {
    assert |multiset(a)| == |a| && |multiset(b)| == |b|;
  }

  /** A sorted arrangement of elements that never tie is the only one. */
  lemma {:induction false} SortedIsUnique<T(!new)>(less: (T, T) -> bool, a: seq<T>, b: seq<T>)
    requires Sorted(less, a) && Sorted(less, b) && Separates(less, a) && multiset(a) == multiset(b)
    ensures a == b
  {
    hide Sorted;
    SameSize(a, b);
    if a != [] {
      assert a[0] == b[0] by {
        assert a[0] in multiset(b) && b[0] in multiset(a);
        HeadIsLeast(less, a, b[0]);
        HeadIsLeast(less, b, a[0]);
      }
      TailsAgree(a, b);
      SortedTail(less, a);
      SortedTail(less, b);
      SortedIsUnique(less, a[1..], b[1..]);
      assert a == [a[0]] + a[1..] && b == [b[0]] + b[1..];
    }
  }

  lemma SortedTail<T>(less: (T, T) -> bool, a: seq<T>)
    requires Sorted(less, a) && a != []
    ensures Sorted(less, a[1..])
  {
  }

  /** Sorting forgets the order its input came in. */
  lemma SortIsCanonical<T(!new)>(less: (T, T) -> bool, a: seq<T>, b: seq<T>)
    requires IsOrder(less) && Separates(less, a)
    ensures multiset(a) == multiset(b) <==> Sort(less, a) == Sort(less, b)
  {
    SortSorts(less, a);
    SortSorts(less, b);
    var s := Sort(less, a);
    assert forall x :: x in s <==> x in multiset(s);
    assert forall x :: x in a <==> x in multiset(a);
    if multiset(a) == multiset(b) {
      SortedIsUnique(less, s, Sort(less, b));
    }
  }

  // ---------------------------------------------------------------------
  // Strings, compared character by character
  // ---------------------------------------------------------------------

  predicate TextLess(a: string, b: string) {
    b != "" && (a == "" || a[0] < b[0] || (a[0] == b[0] && TextLess(a[1..], b[1..])))
  }

  /** The texts agree up to `k`, where the first one ends or has the smaller character. */
  predicate PartsAt(a: string, b: string, k: nat) {
    k <= |a| && k < |b| && a[..k] == b[..k] && (k == |a| || a[k] < b[k])
  }

  lemma PartsLater(a: string, b: string, k: nat)
    requires a != "" && b != "" && a[0] == b[0]
    ensures PartsAt(a, b, k + 1) <==> PartsAt(a[1..], b[1..], k)
  {
    if k < |a| && k < |b| {
      assert a[..k + 1] == [a[0]] + a[1..][..k] && b[..k + 1] == [b[0]] + b[1..][..k];
    }
  }

  lemma {:induction false} LessParts(a: string, b: string) returns (k: nat)
    requires TextLess(a, b)
    ensures PartsAt(a, b, k)
    decreases |a|
  {
    if a == "" || a[0] != b[0] {
      k := 0;
    } else {
      var later := LessParts(a[1..], b[1..]);
      PartsLater(a, b, later);
      k := later + 1;
    }
  }

  lemma {:induction false} PartsLess(a: string, b: string, k: nat)
    requires PartsAt(a, b, k)
    ensures TextLess(a, b)
    decreases |a|
  {
    if k > 0 {
      assert a[..k][0] == a[0] && b[..k][0] == b[0];
      PartsLater(a, b, k - 1);
      PartsLess(a[1..], b[1..], k - 1);
    }
  }

  /** The order of texts is lexicographic by character. */
  lemma TextLessIsLexicographic(a: string, b: string)
    ensures TextLess(a, b) <==> exists k: nat :: PartsAt(a, b, k)
  {
    hide TextLess, PartsAt;
    if TextLess(a, b) {
      var k := LessParts(a, b);
    }
    if k: nat :| PartsAt(a, b, k) {
      PartsLess(a, b, k);
    }
  }

  lemma {:induction false} TextLessIsTotal(a: string, b: string)
    ensures a != b ==> TextLess(a, b) || TextLess(b, a)
    ensures TextLess(a, b) ==> !TextLess(b, a) && a != b
    decreases |a|
  {
    if a != "" && b != "" {
      TextLessIsTotal(a[1..], b[1..]);
      assert a == [a[0]] + a[1..] && b == [b[0]] + b[1..];
    }
  }

  lemma {:induction false} TextLessIsTransitive(a: string, b: string, c: string)
    requires TextLess(a, b) && TextLess(b, c)
    ensures TextLess(a, c)
    decreases |a|
  {
    if a != "" && a[0] == b[0] == c[0] {
      TextLessIsTransitive(a[1..], b[1..], c[1..]);
    }
  }

  lemma TextLessIsOrder()
    ensures IsOrder(TextLess)
  {
    hide TextLess;
    forall x: string, y: string
      ensures TextLess(x, y) ==> !TextLess(y, x) && x != y
      ensures x != y ==> TextLess(x, y) || TextLess(y, x)
    {
      TextLessIsTotal(x, y);
    }
    forall x: string, y: string, z: string | !TextLess(y, x) && !TextLess(z, y)
      ensures !TextLess(z, x)
    {
      if TextLess(z, x) && x != y {
        TextLessIsTransitive(z, x, y);
      }
    }
  }
}
