/**
 * The array operations the source leans on, as functions over sequences:
 * `filter`, dropping nulls, the insertion order of a `Set`, and a stable `sort`
 * by a string key.
 */
module Seqs {
  import opened Wrappers
  import opened Text

  /** `a` is `b` with some elements left out and the rest in their original order. */
  predicate IsSubsequence<T(==)>(a: seq<T>, b: seq<T>)
    decreases |b|
  {
    |a| == 0 || (|b| > 0 && ((a[0] == b[0] && IsSubsequence(a[1..], b[1..])) || IsSubsequence(a, b[1..])))
  }

  /** `s.filter(p)`. */
  function Filter<T(!new)>(s: seq<T>, p: T -> bool): (r: seq<T>)
    ensures |r| <= |s|
    ensures forall x :: x in r <==> x in s && p(x)
    decreases |s|
  {
    if |s| == 0 then []
    else if p(s[0]) then [s[0]] + Filter(s[1..], p)
    else Filter(s[1..], p)
  }

  /** The elements `filter` keeps are a subsequence of its input. */
  lemma {:induction false} FilterIsSubsequence<T(!new)>(s: seq<T>, p: T -> bool)
    ensures IsSubsequence(Filter(s, p), s)
    decreases |s|
  {
    if |s| > 0 {
      FilterIsSubsequence(s[1..], p);
      if p(s[0]) {
        assert Filter(s, p)[1..] == Filter(s[1..], p);
      }
    }
  }

  /** Filtering a sequence extended at the front. */
  lemma FilterCons<T(!new)>(x: T, s: seq<T>, p: T -> bool)
    ensures Filter([x] + s, p) == (if p(x) then [x] else []) + Filter(s, p)
  {
    assert ([x] + s)[1..] == s;
  }

  /** Filtering a sequence extended at the end. */
  lemma {:induction false} FilterSnoc<T(!new)>(s: seq<T>, x: T, p: T -> bool)
    ensures Filter(s + [x], p) == Filter(s, p) + (if p(x) then [x] else [])
    decreases |s|
  {
    if |s| > 0 {
      assert (s + [x])[1..] == s[1..] + [x];
      FilterSnoc(s[1..], x, p);
    } else {
      assert s + [x] == [x];
    }
  }

  /** The `m`-th element `filter` keeps sits at a position of the input preceded by exactly `m` kept elements. */
  lemma FilterNth<T(!new)>(s: seq<T>, p: T -> bool, m: nat)
    requires m < |Filter(s, p)|
    ensures exists j: nat :: j < |s| && s[j] == Filter(s, p)[m] && |Filter(s[..j], p)| == m
  {
    var j := FilterNthAt(s, p, m);
  }

  lemma {:induction false} FilterNthAt<T(!new)>(s: seq<T>, p: T -> bool, m: nat) returns (j: nat)
    requires m < |Filter(s, p)|
    ensures j < |s| && s[j] == Filter(s, p)[m] && |Filter(s[..j], p)| == m
    decreases |s|
  {
    if p(s[0]) && m == 0 {
      j := 0;
      assert s[..0] == [];
    } else {
      var m' := if p(s[0]) then m - 1 else m;
      var i := FilterNthAt(s[1..], p, m');
      j := i + 1;
      FilterPrefixCons(s, i, p);
    }
  }

  lemma FilterPrefixCons<T(!new)>(s: seq<T>, i: nat, p: T -> bool)
    requires i < |s|
    ensures Filter(s[..i + 1], p) == (if p(s[0]) then [s[0]] else []) + Filter(s[1..][..i], p)
  {
    assert s[..i + 1] == [s[0]] + s[1..][..i];
    FilterCons(s[0], s[1..][..i], p);
  }

  /** `xs.filter(x => x !== null)`: the present values, in order. */
  function Present<T(!new)>(s: seq<Option<T>>): (r: seq<T>)
    ensures |r| <= |s|
    ensures forall x :: x in r <==> Some(x) in s
    decreases |s|
  {
    if |s| == 0 then []
    else if s[0].Some? then [s[0].value] + Present(s[1..])
    else Present(s[1..])
  }

  lemma {:induction false} PresentSnoc<T(!new)>(s: seq<Option<T>>, o: Option<T>)
    ensures Present(s + [o]) == Present(s) + (if o.Some? then [o.value] else [])
    decreases |s|
  {
    if |s| > 0 {
      assert (s + [o])[1..] == s[1..] + [o];
      PresentSnoc(s[1..], o);
    } else {
      assert s + [o] == [o];
    }
  }

  /** `s.map(f)`, built from the front like a loop that pushes each result. */
  function Map<A, B>(s: seq<A>, f: A -> B): (r: seq<B>)
    ensures |r| == |s|
    ensures forall k :: 0 <= k < |s| ==> r[k] == f(s[k])
    decreases |s|
  {
    if |s| == 0 then [] else Map(s[..|s| - 1], f) + [f(s[|s| - 1])]
  }

  /** One more step of a loop that pushes `f` of each element. */
  lemma MapStep<A, B>(s: seq<A>, i: nat, f: A -> B)
    requires i < |s|
    ensures Map(s[..i + 1], f) == Map(s[..i], f) + [f(s[i])]
  {
    assert s[..i + 1][..i] == s[..i];
  }

  lemma MapAppend<A, B>(a: seq<A>, b: seq<A>, f: A -> B)
    ensures Map(a + b, f) == Map(a, f) + Map(b, f)
  {
    assert forall k :: 0 <= k < |a| ==> (a + b)[k] == a[k];
    assert forall k :: |a| <= k < |a| + |b| ==> (a + b)[k] == b[k - |a|];
  }

  /**
   * Mapping with a partial step and dropping the failures keeps, in order,
   * exactly the inputs on which the step succeeds, when each result records
   * the input it came from.
   */
  lemma {:induction false} PresentMapKeys<A(!new), B(!new)>(s: seq<A>, f: A -> Option<B>, key: B -> A, ok: A -> bool)
    requires forall x :: ok(x) <==> f(x).Some?
    requires forall x :: f(x).Some? ==> key(f(x).value) == x
    ensures Map(Present(Map(s, f)), key) == Filter(s, ok)
    decreases |s|
  {
    if |s| > 0 {
      var n := |s| - 1;
      var x := s[n];
      assert s[..n] + [x] == s;
      PresentMapKeys(s[..n], f, key, ok);
      PresentSnoc(Map(s[..n], f), f(x));
      FilterSnoc(s[..n], x, ok);
      var extra := if f(x).Some? then [f(x).value] else [];
      MapAppend(Present(Map(s[..n], f)), extra, key);
    }
  }

  /** Whatever survives the mapping and the dropping came from some input. */
  lemma {:induction false} PresentMapFrom<A(!new), B(!new)>(s: seq<A>, f: A -> Option<B>, y: B)
    requires y in Present(Map(s, f))
    ensures exists x :: x in s && f(x) == Some(y)
    decreases |s|
  {
    var n := |s| - 1;
    assert s[..n] + [s[n]] == s;
    PresentSnoc(Map(s[..n], f), f(s[n]));
    if y in Present(Map(s[..n], f)) {
      PresentMapFrom(s[..n], f, y);
      var x :| x in s[..n] && f(x) == Some(y);
      assert x in s;
    } else {
      assert s[n] in s;
    }
  }

  /** The first position in `[i, n)` whose element satisfies `p`: a scan that stops at the first hit. */
  function FirstWhere<T>(s: seq<T>, p: T -> bool, i: nat, n: nat): (r: Option<nat>)
    requires i <= n <= |s|
    ensures r.Some? ==> i <= r.value < n && p(s[r.value])
    ensures r.Some? ==> forall k :: i <= k < r.value ==> !p(s[k])
    ensures r.None? ==> forall k :: i <= k < n ==> !p(s[k])
    decreases n - i
  {
    if i == n then None
    else if p(s[i]) then Some(i)
    else FirstWhere(s, p, i + 1, n)
  }

  /** The scan reports the first position where `p` holds, wherever that is. */
  lemma FirstWhereIs<T>(s: seq<T>, p: T -> bool, n: nat, j: nat)
    requires j < n <= |s| && p(s[j])
    requires forall k :: 0 <= k < j ==> !p(s[k])
    ensures FirstWhere(s, p, 0, n) == Some(j)
  {
    var r := FirstWhere(s, p, 0, n);
    assert r.Some? by {
      assert !(r.None?) by { assert p(s[j]); }
    }
  }

  /** The least position in `[i, n]` where `p` holds. */
  function FirstAt(p: nat -> bool, i: nat, n: nat): (r: Option<nat>)
    requires i <= n
    ensures r.Some? ==> i <= r.value <= n && p(r.value)
    ensures r.Some? ==> forall k :: i <= k < r.value ==> !p(k)
    ensures r.None? ==> forall k :: i <= k <= n ==> !p(k)
    decreases n - i
  {
    if p(i) then Some(i)
    else if i == n then None
    else FirstAt(p, i + 1, n)
  }

  /** The scan only looks at the positions it is given. */
  lemma {:induction false} FirstWhereAgree<T>(s1: seq<T>, s2: seq<T>, p: T -> bool, i: nat, n: nat)
    requires i <= n <= |s1| && n <= |s2|
    requires forall k :: i <= k < n ==> s1[k] == s2[k]
    ensures FirstWhere(s1, p, i, n) == FirstWhere(s2, p, i, n)
    decreases n - i
  {
    if i < n {
      FirstWhereAgree(s1, s2, p, i + 1, n);
    }
  }

  /** Filtering with a test every element passes keeps everything. */
  lemma {:induction false} FilterAll<T(!new)>(s: seq<T>, p: T -> bool)
    requires forall x :: x in s ==> p(x)
    ensures Filter(s, p) == s
    decreases |s|
  {
    if |s| > 0 {
      FilterAll(s[1..], p);
      assert s == [s[0]] + s[1..];
    }
  }

  /** Filtering with a test no element passes keeps nothing. */
  lemma {:induction false} FilterNone<T(!new)>(s: seq<T>, p: T -> bool)
    requires forall i :: 0 <= i < |s| ==> !p(s[i])
    ensures Filter(s, p) == []
    decreases |s|
  {
    if |s| > 0 {
      FilterNone(s[1..], p);
    }
  }

  predicate NoDuplicates<T(==)>(s: seq<T>) {
    forall i, j :: 0 <= i < j < |s| ==> s[i] != s[j]
  }

  /** The position of the first occurrence of `x` in `s`. */
  function FirstIndex<T(==)>(s: seq<T>, x: T): (i: nat)
    requires x in s
    ensures i < |s| && s[i] == x && x !in s[..i]
    decreases |s|
  {
    if s[0] == x then 0 else 1 + FirstIndex(s[1..], x)
  }

  /** A position holding `x` with no `x` before it is the first index of `x`. */
  lemma {:induction false} FirstIndexUnique<T>(s: seq<T>, x: T, i: nat)
    requires i < |s| && s[i] == x && x !in s[..i]
    ensures FirstIndex(s, x) == i
    decreases i
  {
    if i > 0 {
      assert s[..i][0] == s[0];
      assert s[1..][i - 1] == x;
      assert s[1..][..i - 1] == s[1..i];
      assert forall k :: 0 <= k < i - 1 ==> s[1..i][k] == s[..i][k + 1];
      FirstIndexUnique(s[1..], x, i - 1);
    }
  }

  lemma FirstIndexPrefix<T>(s: seq<T>, n: nat, x: T)
    requires n <= |s| && x in s[..n]
    ensures FirstIndex(s, x) == FirstIndex(s[..n], x)
  {
    var i := FirstIndex(s[..n], x);
    assert s[..n][..i] == s[..i];
    FirstIndexUnique(s, x, i);
  }

  /** `Array.from(new Set(s))`: each distinct element once, in order of first appearance. */
  function Distinct<T(==)>(s: seq<T>): (d: seq<T>)
    decreases |s|
  {
    if |s| == 0 then []
    else
      var d := Distinct(s[..|s| - 1]);
      if s[|s| - 1] in d then d else d + [s[|s| - 1]]
  }

  /** `Distinct` keeps every element exactly once and orders them by first appearance in `s`. */
  lemma {:induction false} DistinctSpec<T(!new)>(s: seq<T>)
    ensures NoDuplicates(Distinct(s))
    ensures forall x :: x in Distinct(s) <==> x in s
    ensures forall i, j :: 0 <= i < j < |Distinct(s)| ==>
              FirstIndex(s, Distinct(s)[i]) < FirstIndex(s, Distinct(s)[j])
    decreases |s|
  {
    if |s| > 0 {
      var n := |s| - 1;
      var x := s[n];
      var d := Distinct(s[..n]);
      DistinctSpec(s[..n]);
      assert s == s[..n] + [x];
      forall y | y in d ensures FirstIndex(s, y) == FirstIndex(s[..n], y) && FirstIndex(s, y) < n {
        assert y in Distinct(s[..n]);
        assert y in s[..n];
        FirstIndexPrefix(s, n, y);
      }
      if x !in d {
        assert x !in s[..n];
        assert FirstIndex(s, x) == n;
        forall i, j | 0 <= i < j < |d + [x]|
          ensures FirstIndex(s, (d + [x])[i]) < FirstIndex(s, (d + [x])[j])
        {
          assert (d + [x])[i] == d[i];
          assert d[i] in d;
          if j < |d| { assert (d + [x])[j] == d[j]; assert d[j] in d; }
        }
      }
    }
  }

  /** Every element of `s` is placed no later than any element with a greater key. */
  predicate SortedBy<T>(s: seq<T>, key: T -> string) {
    forall i, j :: 0 <= i < j < |s| ==> StrLe(key(s[i]), key(s[j]))
  }

  /** Insert `x` after every element whose key is at most its own (so equal keys keep their order). */
  function InsertBy<T>(x: T, s: seq<T>, key: T -> string): (r: seq<T>)
    requires SortedBy(s, key)
    ensures SortedBy(r, key)
    ensures multiset(r) == multiset(s) + multiset{x}
    decreases |s|
  {
    if |s| == 0 then [x]
    else if StrLe(key(s[0]), key(x)) then
      var rest := InsertBy(x, s[1..], key);
      InsertAfterHead(x, s, key, rest);
      [s[0]] + rest
    else
      InsertAtFront(x, s, key);
      [x] + s
  }

  /** Placing the head in front of the sorted insertion into the tail keeps the order. */
  lemma InsertAfterHead<T>(x: T, s: seq<T>, key: T -> string, rest: seq<T>)
    requires |s| > 0 && SortedBy(s, key) && StrLe(key(s[0]), key(x))
    requires SortedBy(rest, key) && multiset(rest) == multiset(s[1..]) + multiset{x}
    ensures SortedBy([s[0]] + rest, key)
    ensures multiset([s[0]] + rest) == multiset(s) + multiset{x}
  {
    assert s == [s[0]] + s[1..];
    forall k | 0 <= k < |rest| ensures StrLe(key(s[0]), key(rest[k])) {
      assert rest[k] in multiset(rest);
      if rest[k] != x {
        assert rest[k] in multiset(s[1..]);
        var m :| 0 <= m < |s[1..]| && s[1..][m] == rest[k];
        assert s[m + 1] == rest[k];
      }
    }
    var r := [s[0]] + rest;
    forall i, j | 0 <= i < j < |r| ensures StrLe(key(r[i]), key(r[j])) {
      assert r[j] == rest[j - 1];
      if i > 0 {
        assert r[i] == rest[i - 1];
      }
    }
  }

  /** An element whose key is below the head's goes in front. */
  lemma InsertAtFront<T>(x: T, s: seq<T>, key: T -> string)
    requires |s| > 0 && SortedBy(s, key) && !StrLe(key(s[0]), key(x))
    ensures SortedBy([x] + s, key)
    ensures multiset([x] + s) == multiset(s) + multiset{x}
  {
    StrLeTotal(key(s[0]), key(x));
    forall j | 0 <= j < |s| ensures StrLe(key(x), key(s[j])) {
      if j > 0 { StrLeTrans(key(x), key(s[0]), key(s[j])); }
    }
    var r := [x] + s;
    forall i, j | 0 <= i < j < |r| ensures StrLe(key(r[i]), key(r[j])) {
      assert r[j] == s[j - 1];
      if i > 0 {
        assert r[i] == s[i - 1];
      }
    }
  }

  /** `s.sort((a, b) => compare(key(a), key(b)))`: an insertion sort, stable like `Array.prototype.sort`. */
  function SortBy<T>(s: seq<T>, key: T -> string): (r: seq<T>)
    ensures SortedBy(r, key)
    ensures multiset(r) == multiset(s)
    decreases |s|
  {
    if |s| == 0 then []
    else
      var n := |s| - 1;
      assert s == s[..n] + [s[n]];
      InsertBy(s[n], SortBy(s[..n], key), key)
  }

  /** Sorting keeps exactly the elements it was given. */
  lemma SortByMembers<T>(s: seq<T>, key: T -> string, x: T)
    ensures x in SortBy(s, key) <==> x in s
  {
    assert x in SortBy(s, key) <==> x in multiset(SortBy(s, key));
    assert x in s <==> x in multiset(s);
  }

  /** Inserting `x` puts it after every element of its own key, so the elements of each key keep their order. */
  lemma {:induction false} InsertByStable<T(!new)>(x: T, s: seq<T>, key: T -> string, k: string)
    requires SortedBy(s, key)
    ensures Filter(InsertBy(x, s, key), KeyIs(key, k)) == Filter(s, KeyIs(key, k)) + (if key(x) == k then [x] else [])
    decreases |s|
  {
    if |s| == 0 {
    } else if StrLe(key(s[0]), key(x)) {
      var rest := InsertBy(x, s[1..], key);
      assert InsertBy(x, s, key) == [s[0]] + rest;
      InsertByStable(x, s[1..], key, k);
      FilterConsBoth(s[0], rest, s[1..], KeyIs(key, k), if key(x) == k then [x] else []);
      assert [s[0]] + s[1..] == s;
    } else {
      assert InsertBy(x, s, key) == [x] + s;
      FilterCons(x, s, KeyIs(key, k));
      if key(x) == k {
        KeyAbsentWhenFirst(x, s, key);
      }
    }
  }

  /** Putting the same head in front of two sequences keeps a relation between their filters. */
  lemma {:induction false} FilterConsBoth<T(!new)>(h: T, a: seq<T>, b: seq<T>, p: T -> bool, tail: seq<T>)
    requires Filter(a, p) == Filter(b, p) + tail
    ensures Filter([h] + a, p) == Filter([h] + b, p) + tail
  {
    var fb := Filter(b, p);
    var front := if p(h) then [h] else [];
    assert Filter([h] + a, p) == front + (fb + tail) by { FilterCons(h, a, p); }
    assert Filter([h] + b, p) == front + fb by { FilterCons(h, b, p); }
    Associative(front, fb, tail);
  }

  lemma Associative<T>(a: seq<T>, b: seq<T>, c: seq<T>)
    ensures a + (b + c) == (a + b) + c
  {
  }


  /** When `x` goes before the head of a sorted `s`, no element of `s` has the key of `x`. */
  lemma KeyAbsentWhenFirst<T(!new)>(x: T, s: seq<T>, key: T -> string)
    requires SortedBy(s, key) && |s| > 0 && !StrLe(key(s[0]), key(x))
    ensures Filter(s, KeyIs(key, key(x))) == []
  {
    forall i | 0 <= i < |s| ensures key(s[i]) != key(x) {
      StrLeTotal(key(s[0]), key(s[0]));
      if i > 0 { assert StrLe(key(s[0]), key(s[i])); }
    }
    FilterNone(s, KeyIs(key, key(x)));
  }

  /** Filtering a non-empty sequence: the filter of all but the last element, then the last if it passes. */
  lemma {:induction false} FilterLast<T(!new)>(s: seq<T>, p: T -> bool)
    requires |s| > 0
    ensures Filter(s, p) == Filter(s[..|s| - 1], p) + (if p(s[|s| - 1]) then [s[|s| - 1]] else [])
  {
    var n := |s| - 1;
    assert s == s[..n] + [s[n]];
    FilterSnoc(s[..n], s[n], p);
  }

  /** Sorting a non-empty sequence inserts its last element into the sorted rest. */
  lemma SortByLast<T>(s: seq<T>, key: T -> string)
    requires |s| > 0
    ensures SortBy(s, key) == InsertBy(s[|s| - 1], SortBy(s[..|s| - 1], key), key)
  {
  }

  /** `sort` is stable: the elements of any one key come out in their input order. */
  lemma {:induction false} SortByStable<T(!new)>(s: seq<T>, key: T -> string, k: string)
    ensures Filter(SortBy(s, key), KeyIs(key, k)) == Filter(s, KeyIs(key, k))
    decreases |s|
  {
    if |s| > 0 {
      var n := |s| - 1;
      var p := KeyIs(key, k);
      var last := if key(s[n]) == k then [s[n]] else [];
      var sorted := SortBy(s[..n], key);
      assert Filter(SortBy(s, key), p) == Filter(sorted, p) + last by {
        SortByLast(s, key);
        InsertByStable(s[n], sorted, key, k);
      }
      assert Filter(sorted, p) == Filter(s[..n], p) by {
        SortByStable(s[..n], key, k);
      }
      FilterLast(s, p);
    }
  }


  /** Distinct elements stay distinct under any reordering that keeps the multiset. */
  lemma NoDuplicatesPermutation<T>(a: seq<T>, b: seq<T>)
    requires multiset(a) == multiset(b) && NoDuplicates(a)
    ensures NoDuplicates(b)
  {
    forall x | x in multiset(b) ensures multiset(b)[x] == 1 {
      MultiplicityOfDistinct(a, x);
    }
    SingleMultiplicities(b);
  }

  lemma {:induction false} SingleMultiplicities<T>(b: seq<T>)
    requires forall x :: x in multiset(b) ==> multiset(b)[x] == 1
    ensures NoDuplicates(b)
    decreases |b|
  {
    if |b| > 0 {
      var rest := b[1..];
      assert b == [b[0]] + rest;
      assert multiset(b) == multiset{b[0]} + multiset(rest);
      assert b[0] in multiset(b);
      assert multiset(rest)[b[0]] == 0;
      assert b[0] !in rest;
      forall y | y in multiset(rest) ensures multiset(rest)[y] == 1 {
        assert y in multiset(b);
        assert y in rest;
        assert y != b[0];
      }
      SingleMultiplicities(rest);
      forall i, j | 0 <= i < j < |b| ensures b[i] != b[j] {
        assert b[j] == rest[j - 1];
        if i > 0 { assert b[i] == rest[i - 1]; }
        else { assert b[j] in rest; }
      }
    }
  }

  lemma {:induction false} MultiplicityOfDistinct<T>(a: seq<T>, x: T)
    requires NoDuplicates(a) && x in a
    ensures multiset(a)[x] == 1
    decreases |a|
  {
    assert a == [a[0]] + a[1..];
    if a[0] == x {
      assert x !in a[1..] by {
        forall k | 0 <= k < |a[1..]| ensures a[1..][k] != x { assert a[k + 1] != a[0]; }
      }
    } else {
      MultiplicityOfDistinct(a[1..], x);
    }
  }

  /** The test "the key of `x` is `k`". */
  function KeyIs<T, K(==)>(key: T -> K, k: K): T -> bool {
    x => key(x) == k
  }

  /** The total size of the groups of `s` named by `keys`, each group being the elements with that key. */
  function GroupSizes<T(!new), K(==)>(s: seq<T>, key: T -> K, keys: seq<K>): nat
    decreases |keys|
  {
    if |keys| == 0 then 0
    else GroupSizes(s, key, keys[..|keys| - 1]) + |Filter(s, KeyIs(key, keys[|keys| - 1]))|
  }

  /** An element appended to `s` adds one to the group of its key, if that key is counted. */
  lemma {:induction false} GroupSizesSnoc<T(!new), K>(s: seq<T>, x: T, key: T -> K, keys: seq<K>)
    requires NoDuplicates(keys)
    ensures GroupSizes(s + [x], key, keys) == GroupSizes(s, key, keys) + (if key(x) in keys then 1 else 0)
    decreases |keys|
  {
    if |keys| > 0 {
      var n := |keys| - 1;
      var ks := keys[..n];
      assert keys == ks + [keys[n]];
      assert NoDuplicates(ks);
      assert keys[n] !in ks;
      GroupSizesSnoc(s, x, key, ks);
      FilterSnoc(s, x, KeyIs(key, keys[n]));
    }
  }

  /** No element of `s` has a key outside the keys of `s`. */
  lemma FilterKeyAbsent<T(!new), K>(s: seq<T>, key: T -> K, k: K)
    requires k !in Map(s, key)
    ensures Filter(s, KeyIs(key, k)) == []
  {
    forall i | 0 <= i < |s| ensures !KeyIs(key, k)(s[i]) {
      assert Map(s, key)[i] == key(s[i]);
    }
    FilterNone(s, KeyIs(key, k));
  }

  /**
   * Grouping `s` by key, one group per distinct key, partitions it: the group
   * sizes add up to the length of `s`.
   */
  lemma {:induction false} GroupsPartition<T(!new), K(!new)>(s: seq<T>, key: T -> K)
    ensures GroupSizes(s, key, Distinct(Map(s, key))) == |s|
    decreases |s|
  {
    if |s| > 0 {
      var n := |s| - 1;
      var t, x := s[..n], s[n];
      assert t + [x] == s;
      GroupsPartition(t, key);
      var d := Distinct(Map(t, key));
      DistinctSpec(Map(t, key));
      assert Map(s, key)[..n] == Map(t, key);
      GroupSizesSnoc(t, x, key, d);
      if key(x) !in d {
        var d' := d + [key(x)];
        assert d'[..|d|] == d;
        FilterKeyAbsent(t, key, key(x));
        FilterSnoc(t, x, KeyIs(key, key(x)));
      }
    }
  }

  /** One more step of a loop that records each new key the first time it is seen. */
  lemma DistinctMapStep<T, K(!new)>(s: seq<T>, i: nat, key: T -> K)
    requires i < |s|
    ensures var d := Distinct(Map(s[..i], key));
            Distinct(Map(s[..i + 1], key)) == if key(s[i]) in d then d else d + [key(s[i])]
    ensures key(s[i]) in Distinct(Map(s[..i], key)) <==> key(s[i]) in Map(s[..i], key)
  {
    MapStep(s, i, key);
    var m := Map(s[..i], key);
    assert (m + [key(s[i])])[..|m|] == m;
    DistinctSpec(m);
  }

  /** One more step of a loop that appends each element to the group of its key. */
  lemma FilterKeyStep<T(!new), K>(s: seq<T>, i: nat, key: T -> K, k: K)
    requires i < |s|
    ensures Filter(s[..i + 1], KeyIs(key, k)) == Filter(s[..i], KeyIs(key, k)) + (if key(s[i]) == k then [s[i]] else [])
  {
    assert s[..i + 1] == s[..i] + [s[i]];
    FilterSnoc(s[..i], s[i], KeyIs(key, k));
  }

  /** Mapped values are exactly the images of the elements. */
  lemma MapMembers<A, B>(s: seq<A>, f: A -> B, y: B)
    ensures y in Map(s, f) <==> exists x :: x in s && f(x) == y
  {
    if y in Map(s, f) {
      var i :| 0 <= i < |s| && Map(s, f)[i] == y;
      assert s[i] in s;
    }
    if exists x :: x in s && f(x) == y {
      var x :| x in s && f(x) == y;
      var i :| 0 <= i < |s| && s[i] == x;
      assert Map(s, f)[i] == y;
    }
  }

  function Same(s: string): string {
    s
  }

  /** `Array.from(new Set(s)).sort()`: each value once, sorted, nothing added. */
  lemma SortedDistinct(s: seq<string>)
    ensures SortedBy(SortBy(Distinct(s), Same), Same)
    ensures NoDuplicates(SortBy(Distinct(s), Same))
    ensures forall x :: x in SortBy(Distinct(s), Same) <==> x in s
  {
    DistinctSpec(s);
    NoDuplicatesPermutation(Distinct(s), SortBy(Distinct(s), Same));
    forall x ensures x in SortBy(Distinct(s), Same) <==> x in s {
      SortByMembers(Distinct(s), Same, x);
    }
  }

  /**
   * `keys` lists the keys of `s` in order of first appearance and `groups`
   * maps each of them to the elements of `s` with that key, in order.
   */
  ghost predicate Grouped<T(!new), K(!new)>(s: seq<T>, key: T -> K, keys: seq<K>, groups: map<K, seq<T>>) {
    && keys == Distinct(Map(s, key))
    && (forall k :: k in groups <==> k in keys)
    && forall k :: k in groups ==> groups[k] == Filter(s, KeyIs(key, k))
  }

  /** Creating the group of a new key and pushing the next element onto its group keeps `Grouped`. */
  lemma GroupedStep<T(!new), K(!new)>(s: seq<T>, i: nat, key: T -> K, keys: seq<K>, groups: map<K, seq<T>>)
    requires i < |s| && Grouped(s[..i], key, keys, groups)
    ensures var k := key(s[i]);
            var keys' := if k in groups then keys else keys + [k];
            var groups' := if k in groups then groups else groups[k := []];
            Grouped(s[..i + 1], key, keys', groups'[k := groups'[k] + [s[i]]])
  {
    var k := key(s[i]);
    DistinctMapStep(s, i, key);
    GroupsPushStep(s, i, key, groups);
  }

  /** Pushing the next element onto its (possibly new) group keeps every group equal to the filter for its key. */
  lemma GroupsPushStep<T(!new), K(!new)>(s: seq<T>, i: nat, key: T -> K, groups: map<K, seq<T>>)
    requires i < |s|
    requires forall j :: j in groups ==> groups[j] == Filter(s[..i], KeyIs(key, j))
    requires key(s[i]) !in groups ==> key(s[i]) !in Map(s[..i], key)
    ensures var k := key(s[i]);
            var groups' := if k in groups then groups else groups[k := []];
            var groups'' := groups'[k := groups'[k] + [s[i]]];
            forall j :: j in groups'' ==> groups''[j] == Filter(s[..i + 1], KeyIs(key, j))
  {
    var k := key(s[i]);
    var groups' := if k in groups then groups else groups[k := []];
    var groups'' := groups'[k := groups'[k] + [s[i]]];
    forall j | j in groups'' ensures groups''[j] == Filter(s[..i + 1], KeyIs(key, j)) {
      FilterKeyStep(s, i, key, j);
      if j == k && k !in groups {
        FilterKeyAbsent(s[..i], key, k);
      }
    }
  }

  /**
   * A selector list: the sentinel `all` first, then each key of `s` once,
   * sorted. When no key is the sentinel, the list is duplicate-free and
   * offers exactly the keys of `s` after the sentinel.
   */
  lemma SelectorList<T>(s: seq<T>, f: T -> string, all: string)
    requires forall x :: x in s ==> f(x) != all
    ensures var cats := [all] + SortBy(Distinct(Map(s, f)), Same);
            && cats[0] == all
            && SortedBy(cats[1..], Same)
            && NoDuplicates(cats)
            && forall y :: y in cats[1..] <==> exists x :: x in s && f(x) == y
  {
    var sorted := SortBy(Distinct(Map(s, f)), Same);
    var cats := [all] + sorted;
    assert cats[1..] == sorted;
    SortedDistinct(Map(s, f));
    forall y ensures y in sorted <==> exists x :: x in s && f(x) == y {
      MapMembers(s, f, y);
    }
    assert all !in sorted;
    PrependFresh(all, sorted);
  }

  /** Putting a new element in front of a duplicate-free list keeps it duplicate-free. */
  lemma PrependFresh<T>(x: T, s: seq<T>)
    requires NoDuplicates(s) && x !in s
    ensures NoDuplicates([x] + s)
  {
    var r := [x] + s;
    forall i, j | 0 <= i < j < |r| ensures r[i] != r[j] {
      assert r[j] == s[j - 1];
      if i > 0 {
        assert r[i] == s[i - 1];
      }
    }
  }
}
