/** Python's `sorted(..., key=...)`: a stable sort, ascending in the key.
    `sorted(..., reverse=True)` is this sort on the negated key, which keeps
    equal elements in their input order just as Python does. */
module Sorting {

  predicate SortedBy<T>(s: seq<T>, key: T -> real)
  {
    forall i, j :: 0 <= i < j < |s| ==> key(s[i]) <= key(s[j])
  }

  /** Inserts `x` in front of the first element whose key is not smaller,
      so `x` stays ahead of the equal elements that follow it in the input. */
  function Insert<T>(x: T, s: seq<T>, key: T -> real): seq<T>
  {
    if s == [] then [x]
    else if key(x) <= key(s[0]) then [x] + s
    else [s[0]] + Insert(x, s[1..], key)
  }

  lemma {:induction false} InsertPermutes<T>(x: T, s: seq<T>, key: T -> real)
    ensures multiset(Insert(x, s, key)) == multiset(s) + multiset{x}
  {
    if s != [] && key(s[0]) < key(x) {
      InsertPermutes(x, s[1..], key);
      assert s == [s[0]] + s[1..];
    }
  }

  /** Insertion keeps a lower bound that `x` and all of `s` respect. */
  lemma {:induction false} InsertAbove<T>(x: T, s: seq<T>, key: T -> real, b: real)
    requires b <= key(x) && forall i :: 0 <= i < |s| ==> b <= key(s[i])
    ensures forall i :: 0 <= i < |Insert(x, s, key)| ==> b <= key(Insert(x, s, key)[i])
  {
    if s != [] && key(s[0]) < key(x) {
      InsertAbove(x, s[1..], key, b);
    }
  }

  lemma {:induction false} InsertSorted<T>(x: T, s: seq<T>, key: T -> real)
    requires SortedBy(s, key)
    ensures SortedBy(Insert(x, s, key), key)
  {
    if s != [] && key(s[0]) < key(x) {
      var rest := Insert(x, s[1..], key);
      InsertSorted(x, s[1..], key);
      InsertAbove(x, s[1..], key, key(s[0]));
      var r := [s[0]] + rest;
      forall i, j | 0 <= i < j < |r| ensures key(r[i]) <= key(r[j]) {
        assert r[j] == rest[j - 1];
        if i > 0 {
          assert r[i] == rest[i - 1];
        }
      }
    }
  }

  function SortBy<T>(s: seq<T>, key: T -> real): (r: seq<T>)
    ensures multiset(r) == multiset(s)
    ensures SortedBy(r, key)
  {
    if s == [] then []
    else
      assert s == [s[0]] + s[1..];
      var rest := SortBy(s[1..], key);
      InsertPermutes(s[0], rest, key);
      InsertSorted(s[0], rest, key);
      Insert(s[0], rest, key)
  }

  /** `[y]` when `y`'s key is `k`, otherwise nothing. */
  function Pick<T>(y: T, key: T -> real, k: real): seq<T>
  {
    if key(y) == k then [y] else []
  }

  /** The elements of `s` whose key is `k`, in their order in `s`. */
  function Keyed<T>(s: seq<T>, key: T -> real, k: real): seq<T>
  {
    if s == [] then [] else Pick(s[0], key, k) + Keyed(s[1..], key, k)
  }

  lemma KeyedCons<T>(y: T, t: seq<T>, key: T -> real, k: real)
    ensures Keyed([y] + t, key, k) == Pick(y, key, k) + Keyed(t, key, k)
  {
    assert ([y] + t)[1..] == t;
  }

  /** Insertion puts `x` ahead of every element with the same key: it only
      passes elements whose key is strictly smaller. */
  lemma {:induction false} KeyedInsert<T>(x: T, s: seq<T>, key: T -> real, k: real)
    ensures Keyed(Insert(x, s, key), key, k) == Keyed([x] + s, key, k)
  {
    if s != [] && key(s[0]) < key(x) {
      var t := s[1..];
      assert s == [s[0]] + t;
      KeyedInsert(x, t, key, k);
      KeyedCons(s[0], Insert(x, t, key), key, k);
      KeyedCons(x, t, key, k);
      KeyedCons(x, s, key, k);
      KeyedCons(s[0], t, key, k);
      assert Pick(s[0], key, k) == [] || Pick(x, key, k) == [];
      calc {
        Keyed(Insert(x, s, key), key, k);
        Pick(s[0], key, k) + (Pick(x, key, k) + Keyed(t, key, k));
        Pick(x, key, k) + (Pick(s[0], key, k) + Keyed(t, key, k));
        Keyed([x] + s, key, k);
      }
    }
  }

  /** The first element `Keyed` keeps is the first element of `s` with key `k`. */
  lemma {:induction false} KeyedFirst<T>(s: seq<T>, key: T -> real, k: real) returns (i: nat)
    requires Keyed(s, key, k) != []
    ensures i < |s| && s[i] == Keyed(s, key, k)[0] && key(s[i]) == k
    ensures forall j :: 0 <= j < i ==> key(s[j]) != k
  {
    if key(s[0]) == k {
      i := 0;
    } else {
      var i' := KeyedFirst(s[1..], key, k);
      i := i' + 1;
    }
  }

  /** `Keyed` keeps only elements of `s` with key `k`. */
  lemma {:induction false} KeyedIn<T>(s: seq<T>, key: T -> real, k: real)
    ensures forall y :: y in Keyed(s, key, k) ==> y in s && key(y) == k
  {
    if s != [] {
      KeyedIn(s[1..], key, k);
      assert forall y :: y in Keyed(s, key, k) ==> y in Pick(s[0], key, k) || y in Keyed(s[1..], key, k);
    }
  }

  /** Every element of `s` with key `k` is kept. */
  lemma {:induction false} KeyedAt<T>(s: seq<T>, key: T -> real, k: real, i: nat) returns (p: nat)
    requires i < |s| && key(s[i]) == k
    ensures p < |Keyed(s, key, k)| && Keyed(s, key, k)[p] == s[i]
  {
    if i == 0 {
      p := 0;
    } else {
      var p' := KeyedAt(s[1..], key, k, i - 1);
      p := |Pick(s[0], key, k)| + p';
    }
  }

  /** Two elements with key `k` are kept in their order in `s`. */
  lemma {:induction false} KeyedOrder<T>(s: seq<T>, key: T -> real, k: real, a: nat, b: nat) returns (p: nat, q: nat)
    requires a < b < |s| && key(s[a]) == k && key(s[b]) == k
    ensures p < q < |Keyed(s, key, k)| && Keyed(s, key, k)[p] == s[a] && Keyed(s, key, k)[q] == s[b]
  {
    if a == 0 {
      var q' := KeyedAt(s[1..], key, k, b - 1);
      p, q := 0, 1 + q';
    } else {
      var p', q' := KeyedOrder(s[1..], key, k, a - 1, b - 1);
      var d := |Pick(s[0], key, k)|;
      p, q := d + p', d + q';
    }
  }

  /** Stability: for every key, the elements with that key keep their input
      order. */
  lemma {:induction false} SortStable<T>(s: seq<T>, key: T -> real, k: real)
    ensures Keyed(SortBy(s, key), key, k) == Keyed(s, key, k)
  {
    if s != [] {
      SortStable(s[1..], key, k);
      KeyedInsert(s[0], SortBy(s[1..], key), key, k);
      assert ([s[0]] + SortBy(s[1..], key))[1..] == SortBy(s[1..], key);
    }
  }

  lemma SortKeepsLength<T>(s: seq<T>, key: T -> real)
    ensures |SortBy(s, key)| == |s|
  {
    assert |multiset(SortBy(s, key))| == |multiset(s)|;
  }

  lemma SortKeepsElements<T>(s: seq<T>, key: T -> real)
    ensures forall y :: y in SortBy(s, key) <==> y in s
  {
    assert forall y :: y in SortBy(s, key) <==> y in multiset(SortBy(s, key));
  }
}
