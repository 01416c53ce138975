/** Shared vocabulary: optional values, common constants, minima and maxima, and Python's stable sort. */
module Basics {

  datatype Option<+T> = None | Some(value: T)

  // ----- Constants several stages share, in seconds or as a fraction -----

  const EDGE_TOLERANCE := 0.05
  const MERGE_GAP_SECONDS := 1.0
  const MIN_AD_DURATION_FOR_REMOVAL := 10.0
  const CORRECTION_MATCH_MIN_COVERAGE := 0.5

  function MinReal(a: real, b: real): real { if a <= b then a else b }

  function MaxReal(a: real, b: real): real { if a >= b then a else b }

  function MinInt(a: int, b: int): int { if a <= b then a else b }

  function MaxInt(a: int, b: int): int { if a >= b then a else b }

  function AbsReal(a: real): real { if a >= 0.0 then a else -a }

  /** Python's int() on a float: truncation toward zero. */
  function Truncate(x: real): int { if x >= 0.0 then x.Floor else -((-x).Floor) }

  // ----- Stable sort by a real key -----

  ghost predicate SortedBy<T>(xs: seq<T>, key: T -> real) {
    forall i, j :: 0 <= i < j < |xs| ==> key(xs[i]) <= key(xs[j])
  }

  /** Puts x in front of the first element whose key is not below x's. */
  function InsertBy<T>(x: T, ys: seq<T>, key: T -> real): (r: seq<T>)
    ensures |r| == |ys| + 1
  {
    if ys == [] || key(x) <= key(ys[0]) then [x] + ys
    else [ys[0]] + InsertBy(x, ys[1..], key)
  }

  /** Python's sorted(xs, key=key): ascending, ties in input order. */
  function SortBy<T>(xs: seq<T>, key: T -> real): (r: seq<T>)
    ensures |r| == |xs|
  {
    if xs == [] then [] else InsertBy(xs[0], SortBy(xs[1..], key), key)
  }

  lemma {:induction false} InsertByIsSorted<T>(x: T, ys: seq<T>, key: T -> real)
    requires SortedBy(ys, key)
    ensures SortedBy(InsertBy(x, ys, key), key)
    ensures multiset(InsertBy(x, ys, key)) == multiset([x]) + multiset(ys)
  {
    if ys == [] || key(x) <= key(ys[0]) {
      assert InsertBy(x, ys, key) == [x] + ys;
    } else {
      InsertByIsSorted(x, ys[1..], key);
      var rest := InsertBy(x, ys[1..], key);
      assert ys == [ys[0]] + ys[1..];
      forall j | 0 <= j < |rest| ensures key(ys[0]) <= key(rest[j]) {
        assert rest[j] in multiset(rest);
        assert rest[j] in multiset([x]) + multiset(ys[1..]);
        if rest[j] != x {
          assert rest[j] in ys[1..];
        }
      }
    }
  }

  lemma {:induction false} SortByIsSorted<T>(xs: seq<T>, key: T -> real)
    ensures SortedBy(SortBy(xs, key), key)
    ensures multiset(SortBy(xs, key)) == multiset(xs)
  {
    if xs != [] {
      SortByIsSorted(xs[1..], key);
      InsertByIsSorted(xs[0], SortBy(xs[1..], key), key);
      assert xs == [xs[0]] + xs[1..];
    }
  }

  /** Membership is unchanged by sorting. */
  lemma SortByMembers<T>(xs: seq<T>, key: T -> real)
    ensures forall x :: x in SortBy(xs, key) <==> x in xs
  {
    SortByIsSorted(xs, key);
    forall x ensures x in SortBy(xs, key) <==> x in xs {
      assert x in SortBy(xs, key) <==> x in multiset(SortBy(xs, key));
      assert x in xs <==> x in multiset(xs);
    }
  }

  /** A list already in order is left alone: this is what stability means for it. */
  lemma {:induction false} SortByKeepsSorted<T>(xs: seq<T>, key: T -> real)
    requires SortedBy(xs, key)
    ensures SortBy(xs, key) == xs
  {
    if xs != [] {
      SortByKeepsSorted(xs[1..], key);
      assert xs == [xs[0]] + xs[1..];
    }
  }

  lemma {:induction false} InsertsCommute<T>(x: T, y: T, zs: seq<T>, key: T -> real)
    requires key(y) < key(x)
    ensures InsertBy(y, InsertBy(x, zs, key), key) == InsertBy(x, InsertBy(y, zs, key), key)
  {
    if zs != [] && key(zs[0]) < key(y) {
      InsertsCommute(x, y, zs[1..], key);
    }
  }

  lemma {:induction false} SortedInsertAbsorbs<T>(x: T, ys: seq<T>, b: seq<T>, key: T -> real)
    requires SortedBy(ys, key)
    ensures SortBy(InsertBy(x, ys, key) + b, key) == InsertBy(x, SortBy(ys + b, key), key)
  {
    if ys == [] || key(x) <= key(ys[0]) {
      assert ([x] + ys + b)[1..] == ys + b;
    } else {
      var rest := InsertBy(x, ys[1..], key);
      SortedInsertAbsorbs(x, ys[1..], b, key);
      assert ([ys[0]] + rest + b)[1..] == rest + b;
      assert (ys + b)[1..] == ys[1..] + b;
      InsertsCommute(x, ys[0], SortBy(ys[1..] + b, key), key);
    }
  }

  /** Sorting a front part first changes nothing: the sort is stable. */
  lemma {:induction false} SortByAbsorbs<T>(a: seq<T>, b: seq<T>, key: T -> real)
    ensures SortBy(SortBy(a, key) + b, key) == SortBy(a + b, key)
  {
    hide InsertBy, SortedBy;
    if a == [] {
      assert [] + b == b;
    } else {
      SortByAbsorbs(a[1..], b, key);
      SortByIsSorted(a[1..], key);
      SortedInsertAbsorbs(a[0], SortBy(a[1..], key), b, key);
      assert (a + b)[1..] == a[1..] + b;
    }
  }
}
