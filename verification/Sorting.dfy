/**
 `Array.prototype.sort` with a comparator that orders by a text key: a stable sort, and the two facts that
 make its result depend on the contents alone.
*/
module Sorting {
  import opened Texts

  function Insert<T(!new)>(x: T, xs: seq<T>, key: T -> Text): (r: seq<T>)
    ensures |r| == |xs| + 1
    ensures forall y :: y in r <==> y == x || y in xs
  {
    if xs == [] then [x]
    else if Less(key(xs[0]), key(x)) then
      [xs[0]] + Insert(x, xs[1..], key)
    else [x] + xs
  }

  /** The stable ascending sort of `xs` by `key`. */
  function SortBy<T(!new)>(xs: seq<T>, key: T -> Text): (r: seq<T>)
    ensures |r| == |xs|
    ensures forall y :: y in r <==> y in xs
  {
    if xs == [] then [] else Insert(xs[0], SortBy(xs[1..], key), key)
  }

  lemma {:induction false} InsertAddsOne<T(!new)>(x: T, xs: seq<T>, key: T -> Text)
    ensures multiset(Insert(x, xs, key)) == multiset{x} + multiset(xs)
  {
    if xs != [] && Less(key(xs[0]), key(x)) {
      assert xs == [xs[0]] + xs[1..];
      InsertAddsOne(x, xs[1..], key);
    }
  }

  /** Sorting neither loses nor repeats an element. */
  lemma {:induction false} SortByIsPermutation<T(!new)>(xs: seq<T>, key: T -> Text)
    ensures multiset(SortBy(xs, key)) == multiset(xs)
  {
    if xs != [] {
      assert xs == [xs[0]] + xs[1..];
      SortByIsPermutation(xs[1..], key);
      InsertAddsOne(xs[0], SortBy(xs[1..], key), key);
    }
  }

  ghost predicate SortedBy<T>(xs: seq<T>, key: T -> Text)
  {
    forall i, j :: 0 <= i < j < |xs| ==> !Less(key(xs[j]), key(xs[i]))
  }

  ghost predicate DistinctBy<T>(xs: seq<T>, key: T -> Text)
  {
    forall i, j :: 0 <= i < j < |xs| ==> key(xs[i]) != key(xs[j])
  }

  lemma {:induction false} InsertIsSorted<T(!new)>(x: T, xs: seq<T>, key: T -> Text)
    requires SortedBy(xs, key)
    ensures SortedBy(Insert(x, xs, key), key)
  {
    var r := Insert(x, xs, key);
    if xs != [] && Less(key(xs[0]), key(x)) {
      var tail := Insert(x, xs[1..], key);
      InsertIsSorted(x, xs[1..], key);
      forall j | 0 <= j < |tail|
        ensures !Less(key(tail[j]), key(xs[0]))
      {
        assert tail[j] in tail;
        if tail[j] == x {
          LessIsAsymmetric(key(xs[0]), key(x));
        }
      }
    } else if xs != [] {
      forall j | 0 <= j < |xs|
        ensures !Less(key(xs[j]), key(x))
      {
        if Less(key(xs[j]), key(x)) && j > 0 {
          if key(xs[0]) == key(x) {
          } else {
            LessIsTotal(key(xs[0]), key(x));
            LessIsTransitive(key(xs[j]), key(x), key(xs[0]));
          }
        }
      }
    }
  }

  lemma {:induction false} SortByIsSorted<T(!new)>(xs: seq<T>, key: T -> Text)
    ensures SortedBy(SortBy(xs, key), key)
  {
    if xs != [] {
      SortByIsSorted(xs[1..], key);
      InsertIsSorted(xs[0], SortBy(xs[1..], key), key);
    }
  }

  lemma {:induction false} SortByKeepsDistinct<T(!new)>(xs: seq<T>, key: T -> Text)
    requires DistinctBy(xs, key)
    ensures DistinctBy(SortBy(xs, key), key)
  {
    if xs != [] {
      var tail := SortBy(xs[1..], key);
      SortByKeepsDistinct(xs[1..], key);
      InsertKeepsDistinct(xs[0], tail, key);
    }
  }

  lemma {:induction false} InsertKeepsDistinct<T(!new)>(x: T, xs: seq<T>, key: T -> Text)
    requires DistinctBy(xs, key)
    requires forall y <- xs :: key(y) != key(x)
    ensures DistinctBy(Insert(x, xs, key), key)
  {
    if xs != [] && Less(key(xs[0]), key(x)) {
      var tail := Insert(x, xs[1..], key);
      InsertKeepsDistinct(x, xs[1..], key);
      forall j | 0 <= j < |tail|
        ensures key(tail[j]) != key(xs[0])
      {
        assert tail[j] in tail;
      }
    }
  }

  /** Two strictly ascending key lists with the same keys are the same list. */
  lemma {:induction false} AscendingIsUnique(a: seq<Text>, b: seq<Text>)
    requires forall i, j :: 0 <= i < j < |a| ==> Less(a[i], a[j])
    requires forall i, j :: 0 <= i < j < |b| ==> Less(b[i], b[j])
    requires forall k :: k in a <==> k in b
    ensures a == b
  {
    assert a != [] ==> a[0] in b;
    assert b != [] ==> b[0] in a;
    if a == [] || b == [] {
    } else {
      LeastIsFirst(a, b);
      forall k
        ensures k in a[1..] <==> k in b[1..]
      {
        if k in a[1..] { assert k in b; NotFirst(a, k); }
        if k in b[1..] { assert k in a; NotFirst(b, k); }
      }
      AscendingIsUnique(a[1..], b[1..]);
      assert a == [a[0]] + a[1..] && b == [b[0]] + b[1..];
    }
  }

  lemma NotFirst(a: seq<Text>, k: Text)
    requires a != [] && forall i, j :: 0 <= i < j < |a| ==> Less(a[i], a[j])
    requires k in a[1..]
    ensures k != a[0]
  {
    var i :| 0 <= i < |a[1..]| && a[1..][i] == k;
    LessIsAsymmetric(a[0], a[i + 1]);
  }

  lemma LeastIsFirst(a: seq<Text>, b: seq<Text>)
    requires a != [] && b != []
    requires forall i, j :: 0 <= i < j < |a| ==> Less(a[i], a[j])
    requires forall i, j :: 0 <= i < j < |b| ==> Less(b[i], b[j])
    requires forall k :: k in a <==> k in b
    ensures a[0] == b[0]
  {
    assert a[0] in b && b[0] in a;
    var i :| 0 <= i < |b| && b[i] == a[0];
    var j :| 0 <= j < |a| && a[j] == b[0];
    if i > 0 && j > 0 {
      LessIsAsymmetric(a[0], b[0]);
    }
  }

  function Itself(t: Text): Text { t }

  /** Sorting texts gives one answer per multiset of texts. */
  lemma {:induction false} SortedTextsAreUnique(a: seq<Text>, b: seq<Text>)
    requires SortedBy(a, Itself) && SortedBy(b, Itself)
    requires multiset(a) == multiset(b)
    ensures a == b
  {
    assert |a| == |multiset(a)| && |b| == |multiset(b)|;
    if a != [] {
      FirstIsLeast(a, b);
      assert a == [a[0]] + a[1..] && b == [b[0]] + b[1..];
      assert multiset(a[1..]) == multiset(a) - multiset{a[0]};
      assert multiset(b[1..]) == multiset(b) - multiset{b[0]};
      SortedTextsAreUnique(a[1..], b[1..]);
    }
  }

  lemma FirstIsLeast(a: seq<Text>, b: seq<Text>)
    requires a != [] && b != [] && SortedBy(a, Itself) && SortedBy(b, Itself)
    requires multiset(a) == multiset(b)
    ensures a[0] == b[0]
  {
    assert a[0] in multiset(a) && b[0] in multiset(b);
    assert a[0] in b && b[0] in a;
    var i :| 0 <= i < |b| && b[i] == a[0];
    var j :| 0 <= j < |a| && a[j] == b[0];
    if a[0] != b[0] {
      assert !Less(Itself(b[i]), Itself(b[0])) && !Less(Itself(a[j]), Itself(a[0]));
      LessIsTotal(a[0], b[0]);
    }
  }
}
