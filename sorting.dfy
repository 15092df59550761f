/** Python's stable sorting (`sorted(xs)`, `xs.sort(key=...)`) over keys
    compared with `str` order. Any stable sort yields the same list, so a
    stable insertion sort is its reference definition. */
module Sorting {
  import opened Strings

  /** Ascending by key: every earlier element's key is at most every later one's. */
  ghost predicate SortedBy<T>(s: seq<T>, key: T -> string)
  {
    forall i, j :: 0 <= i < j < |s| ==> AtMost(key(s[i]), key(s[j]))
  }

  /** Inserts `x` behind every element whose key is at most `key(x)`. */
  function Insert<T>(x: T, s: seq<T>, key: T -> string): seq<T>
  {
    if s == [] then [x]
    else if Less(key(x), key(s[0])) then [x] + s
    else [s[0]] + Insert(x, s[1..], key)
  }

  /** Stable sort by key: each element, taken in input order, is inserted
      behind the already sorted ones with an equal key. */
  function SortBy<T>(s: seq<T>, key: T -> string): seq<T>
  {
    if s == [] then [] else Insert(s[|s| - 1], SortBy(s[..|s| - 1], key), key)
  }

  /** The elements of `s` whose key is `k`, in the order of `s`. */
  function WithKey<T>(s: seq<T>, key: T -> string, k: string): seq<T>
  {
    if s == [] then []
    else (if key(s[0]) == k then [s[0]] else []) + WithKey(s[1..], key, k)
  }

  /** Sum of a weight over the elements of a list (Python `sum(f(p) for p in s)`). */
  function SumOf<T>(s: seq<T>, f: T -> nat): nat
  {
    if s == [] then 0 else f(s[0]) + SumOf(s[1..], f)
  }

  /** Pairs with equal keys are related by `before` in list order. */
  ghost predicate TiesOrdered<T>(s: seq<T>, key: T -> string, before: (T, T) -> bool)
  {
    forall i, j :: 0 <= i < j < |s| && key(s[i]) == key(s[j]) ==> before(s[i], s[j])
  }

  /** The tail of a sorted list is sorted. */
  lemma SortedTail<T>(s: seq<T>, key: T -> string)
    requires SortedBy(s, key) && s != []
    ensures SortedBy(s[1..], key)
  {
    forall i, j | 0 <= i < j < |s[1..]| ensures AtMost(key(s[1..][i]), key(s[1..][j])) {
      assert s[1..][i] == s[i + 1] && s[1..][j] == s[j + 1];
    }
  }

  lemma {:induction false} InsertPermutes<T>(x: T, s: seq<T>, key: T -> string)
    ensures multiset(Insert(x, s, key)) == multiset(s) + multiset{x}
  {
    if s != [] && !Less(key(x), key(s[0])) {
      InsertPermutes(x, s[1..], key);
      assert s == [s[0]] + s[1..];
    }
  }

  lemma {:induction false} InsertCorrect<T>(x: T, s: seq<T>, key: T -> string)
    requires SortedBy(s, key)
    ensures SortedBy(Insert(x, s, key), key)
    ensures multiset(Insert(x, s, key)) == multiset(s) + multiset{x}
  {
    InsertPermutes(x, s, key);
    if s == [] {
    } else if Less(key(x), key(s[0])) {
      forall e | e in s ensures AtMost(key(x), key(e)) {
        var k :| 0 <= k < |s| && s[k] == e;
        if k > 0 {
          assert AtMost(key(s[0]), key(s[k]));
          AtMostTransitive(key(x), key(s[0]), key(e));
        }
      }
      ConsSorted(x, s, key);
    } else {
      SortedTail(s, key);
      InsertCorrect(x, s[1..], key);
      HeadBelowInserted(x, s, key);
      ConsSorted(s[0], Insert(x, s[1..], key), key);
    }
  }

  /** A head at most every key of a sorted tail keeps the list sorted. */
  lemma ConsSorted<T>(h: T, t: seq<T>, key: T -> string)
    requires SortedBy(t, key)
    requires forall e :: e in t ==> AtMost(key(h), key(e))
    ensures SortedBy([h] + t, key)
  {
    var r := [h] + t;
    forall i, j | 0 <= i < j < |r| ensures AtMost(key(r[i]), key(r[j])) {
      assert r[j] == t[j - 1];
      if i > 0 {
        assert r[i] == t[i - 1];
      } else {
        assert t[j - 1] in t;
      }
    }
  }

  /** When `x` goes behind the head, the head's key is at most every key behind it. */
  lemma HeadBelowInserted<T>(x: T, s: seq<T>, key: T -> string)
    requires SortedBy(s, key) && s != [] && !Less(key(x), key(s[0]))
    ensures forall e :: e in Insert(x, s[1..], key) ==> AtMost(key(s[0]), key(e))
  {
    InsertPermutes(x, s[1..], key);
    forall e | e in Insert(x, s[1..], key) ensures AtMost(key(s[0]), key(e)) {
      assert e in multiset(Insert(x, s[1..], key));
      if e == x {
        NotLessIsAtMost(key(x), key(s[0]));
      } else {
        assert e in s[1..];
        var k :| 0 <= k < |s[1..]| && s[1..][k] == e;
        assert s[k + 1] == e;
      }
    }
  }

  lemma {:induction false} SortByCorrect<T>(s: seq<T>, key: T -> string)
    ensures SortedBy(SortBy(s, key), key)
    ensures multiset(SortBy(s, key)) == multiset(s)
    ensures |SortBy(s, key)| == |s|
  {
    if s != [] {
      var n := |s| - 1;
      SortByCorrect(s[..n], key);
      InsertCorrect(s[n], SortBy(s[..n], key), key);
      assert s == s[..n] + [s[n]];
      assert |multiset(SortBy(s, key))| == |multiset(s)|;
    }
  }

  /** No element of a sorted list has a key below the first one's. */
  lemma {:induction false} NoneBelowHead<T>(s: seq<T>, key: T -> string, k: string)
    requires SortedBy(s, key) && s != [] && Less(k, key(s[0]))
    ensures WithKey(s, key, k) == []
  {
    if |s| > 1 {
      assert AtMost(key(s[0]), key(s[1]));
      if key(s[0]) != key(s[1]) {
        LessTransitive(k, key(s[0]), key(s[1]));
      }
      SortedTail(s, key);
      NoneBelowHead(s[1..], key, k);
    }
    LessAsymmetric(k, key(s[0]));
  }

  lemma {:induction false} WithKeyAppend<T>(a: seq<T>, b: seq<T>, key: T -> string, k: string)
    ensures WithKey(a + b, key, k) == WithKey(a, key, k) + WithKey(b, key, k)
  {
    if a == [] {
      assert a + b == b;
    } else {
      var head: seq<T> := if key(a[0]) == k then [a[0]] else [];
      assert (a + b)[0] == a[0] && (a + b)[1..] == a[1..] + b;
      calc {
        WithKey(a + b, key, k);
        head + WithKey(a[1..] + b, key, k);
        { WithKeyAppend(a[1..], b, key, k); }
        head + (WithKey(a[1..], key, k) + WithKey(b, key, k));
        (head + WithKey(a[1..], key, k)) + WithKey(b, key, k);
        WithKey(a, key, k) + WithKey(b, key, k);
      }
    }
  }

  lemma WithKeySingle<T>(x: T, key: T -> string, k: string)
    ensures WithKey([x], key, k) == if key(x) == k then [x] else []
  {
    assert [x][1..] == [];
  }

  lemma {:induction false} InsertStable<T>(x: T, s: seq<T>, key: T -> string, k: string)
    requires SortedBy(s, key)
    ensures WithKey(Insert(x, s, key), key, k) == WithKey(s, key, k) + (if key(x) == k then [x] else [])
  {
    var mine: seq<T> := if key(x) == k then [x] else [];
    if s == [] {
      assert WithKey([x], key, k) == mine + WithKey([x][1..], key, k);
    } else if Less(key(x), key(s[0])) {
      assert ([x] + s)[1..] == s;
      assert WithKey([x] + s, key, k) == mine + WithKey(s, key, k);
      if key(x) == k {
        NoneBelowHead(s, key, k);
      }
    } else {
      var t := Insert(x, s[1..], key);
      var head: seq<T> := if key(s[0]) == k then [s[0]] else [];
      SortedTail(s, key);
      InsertStable(x, s[1..], key, k);
      assert ([s[0]] + t)[1..] == t;
      calc {
        WithKey(Insert(x, s, key), key, k);
        WithKey([s[0]] + t, key, k);
        head + WithKey(t, key, k);
        head + (WithKey(s[1..], key, k) + mine);
        (head + WithKey(s[1..], key, k)) + mine;
        WithKey(s, key, k) + mine;
      }
    }
  }

  /** Stability: for every key, the elements with that key keep their input order. */
  lemma {:induction false} SortByStable<T>(s: seq<T>, key: T -> string, k: string)
    ensures WithKey(SortBy(s, key), key, k) == WithKey(s, key, k)
  {
    if s != [] {
      var n := |s| - 1;
      var mine: seq<T> := if key(s[n]) == k then [s[n]] else [];
      SortByCorrect(s[..n], key);
      assert s == s[..n] + [s[n]];
      calc {
        WithKey(SortBy(s, key), key, k);
        WithKey(Insert(s[n], SortBy(s[..n], key), key), key, k);
        { InsertStable(s[n], SortBy(s[..n], key), key, k); }
        WithKey(SortBy(s[..n], key), key, k) + mine;
        { SortByStable(s[..n], key, k); }
        WithKey(s[..n], key, k) + mine;
        { WithKeySingle(s[n], key, k); }
        WithKey(s[..n], key, k) + WithKey([s[n]], key, k);
        { WithKeyAppend(s[..n], [s[n]], key, k); }
        WithKey(s, key, k);
      }
    }
  }

  lemma {:induction false} InsertTiesOrdered<T>(x: T, s: seq<T>, key: T -> string, before: (T, T) -> bool)
    requires SortedBy(s, key) && TiesOrdered(s, key, before)
    requires forall y :: y in s && key(y) == key(x) ==> before(y, x)
    ensures TiesOrdered(Insert(x, s, key), key, before)
  {
    if s == [] {
    } else if Less(key(x), key(s[0])) {
      var r := [x] + s;
      forall i, j | 0 <= i < j < |r| && key(r[i]) == key(r[j]) ensures before(r[i], r[j]) {
        if i == 0 {
          assert AtMost(key(s[0]), key(s[j - 1]));
          if key(s[0]) == key(s[j - 1]) {
            LessIrreflexive(key(x));
          } else {
            LessTransitive(key(x), key(s[0]), key(s[j - 1]));
            LessIrreflexive(key(x));
          }
        }
      }
    } else {
      var t := Insert(x, s[1..], key);
      SortedTail(s, key);
      assert TiesOrdered(s[1..], key, before) by {
        forall i, j | 0 <= i < j < |s[1..]| && key(s[1..][i]) == key(s[1..][j])
          ensures before(s[1..][i], s[1..][j])
        {
          assert s[1..][i] == s[i + 1] && s[1..][j] == s[j + 1];
        }
      }
      InsertTiesOrdered(x, s[1..], key, before);
      InsertCorrect(x, s[1..], key);
      var r := [s[0]] + t;
      forall i, j | 0 <= i < j < |r| && key(r[i]) == key(r[j]) ensures before(r[i], r[j]) {
        if i == 0 {
          var e := t[j - 1];
          assert e in multiset(t);
          if e != x {
            assert e in s[1..];
            var k :| 0 <= k < |s[1..]| && s[1..][k] == e;
            assert s[k + 1] == e;
          }
        } else {
          assert r[i] == t[i - 1] && r[j] == t[j - 1];
        }
      }
    }
  }

  /** Stability, second form: an order that ties follow in the input, they
      follow in the output too. */
  lemma {:induction false} SortByKeepsTies<T>(s: seq<T>, key: T -> string, before: (T, T) -> bool)
    requires TiesOrdered(s, key, before)
    ensures TiesOrdered(SortBy(s, key), key, before)
  {
    if s != [] {
      var n := |s| - 1;
      assert TiesOrdered(s[..n], key, before) by {
        forall i, j | 0 <= i < j < |s[..n]| && key(s[..n][i]) == key(s[..n][j])
          ensures before(s[..n][i], s[..n][j])
        {
          assert s[..n][i] == s[i] && s[..n][j] == s[j];
        }
      }
      SortByKeepsTies(s[..n], key, before);
      SortByCorrect(s[..n], key);
      forall y | y in SortBy(s[..n], key) && key(y) == key(s[n]) ensures before(y, s[n]) {
        assert y in multiset(SortBy(s[..n], key));
        assert y in s[..n];
        var k :| 0 <= k < n && s[..n][k] == y;
        assert s[k] == y;
      }
      InsertTiesOrdered(s[n], SortBy(s[..n], key), key, before);
    }
  }

  lemma {:induction false} SumOfAppend<T>(a: seq<T>, b: seq<T>, f: T -> nat)
    ensures SumOf(a + b, f) == SumOf(a, f) + SumOf(b, f)
  {
    if a == [] {
      assert a + b == b;
    } else {
      assert (a + b)[1..] == a[1..] + b;
      SumOfAppend(a[1..], b, f);
    }
  }

  lemma {:induction false} SumOfInsert<T>(x: T, s: seq<T>, key: T -> string, f: T -> nat)
    ensures SumOf(Insert(x, s, key), f) == SumOf(s, f) + f(x)
  {
    if s != [] && !Less(key(x), key(s[0])) {
      SumOfInsert(x, s[1..], key, f);
      assert ([s[0]] + Insert(x, s[1..], key))[1..] == Insert(x, s[1..], key);
    } else if s != [] {
      assert ([x] + s)[1..] == s;
    }
  }

  /** Sorting does not change any sum over the list. */
  lemma {:induction false} SumOfSortBy<T>(s: seq<T>, key: T -> string, f: T -> nat)
    ensures SumOf(SortBy(s, key), f) == SumOf(s, f)
  {
    if s != [] {
      var n := |s| - 1;
      SumOfSortBy(s[..n], key, f);
      SumOfInsert(s[n], SortBy(s[..n], key), key, f);
      assert s == s[..n] + [s[n]];
      SumOfAppend(s[..n], [s[n]], f);
    }
  }

  /** No value occurs twice. */
  ghost predicate NoDuplicates<T>(s: seq<T>)
  {
    forall i, j :: 0 <= i < j < |s| ==> s[i] != s[j]
  }

  /** The tail of a list without duplicates has none, nor its head. */
  lemma NoDuplicatesTail<T>(s: seq<T>)
    requires NoDuplicates(s) && s != []
    ensures NoDuplicates(s[1..]) && s[0] !in s[1..]
  {
    forall i, j | 0 <= i < j < |s[1..]| ensures s[1..][i] != s[1..][j] {
      assert s[1..][i] == s[i + 1] && s[1..][j] == s[j + 1];
    }
    forall k | 0 <= k < |s[1..]| ensures s[1..][k] != s[0] { assert s[1..][k] == s[k + 1]; }
  }

  lemma {:induction false} CountAtMostOne<T>(s: seq<T>, x: T)
    requires NoDuplicates(s)
    ensures multiset(s)[x] <= 1
  {
    if s != [] {
      assert s == [s[0]] + s[1..];
      NoDuplicatesTail(s);
      CountAtMostOne(s[1..], x);
    }
  }

  /** A permutation of a list without duplicates has none. */
  lemma PermutationKeepsNoDuplicates<T>(s: seq<T>, t: seq<T>)
    requires multiset(s) == multiset(t) && NoDuplicates(s)
    ensures NoDuplicates(t)
  {
    forall i, j | 0 <= i < j < |t| ensures t[i] != t[j] {
      if t[i] == t[j] {
        var x := t[i];
        assert t == t[..j] + t[j..];
        assert x in t[..j] && x in t[j..];
        assert multiset(t)[x] == multiset(t[..j])[x] + multiset(t[j..])[x];
        CountAtMostOne(s, x);
      }
    }
  }

  function Identity(s: string): string { s }

  /** `sorted(names)` */
  function SortNames(names: seq<string>): seq<string>
  {
    SortBy(names, Identity)
  }

  /** Ascending with no name twice. */
  ghost predicate StrictlySorted(s: seq<string>)
  {
    forall i, j :: 0 <= i < j < |s| ==> Less(s[i], s[j])
  }

  /** `sorted(names)` is ascending, a permutation of `names`, and free of
      duplicates when `names` is. */
  lemma SortNamesCorrect(names: seq<string>)
    ensures SortedBy(SortNames(names), Identity)
    ensures multiset(SortNames(names)) == multiset(names)
    ensures forall x :: x in SortNames(names) <==> x in names
    ensures NoDuplicates(names) ==> StrictlySorted(SortNames(names))
  {
    var r := SortNames(names);
    SortByCorrect(names, Identity);
    forall x ensures x in r <==> x in names {
      assert x in r <==> x in multiset(r);
      assert x in names <==> x in multiset(names);
    }
    if NoDuplicates(names) {
      PermutationKeepsNoDuplicates(names, r);
      forall i, j | 0 <= i < j < |r| ensures Less(r[i], r[j]) {
        assert AtMost(Identity(r[i]), Identity(r[j]));
      }
    }
  }

  /** The distinct values of a list (Python `set(s)`, listed). */
  function Dedup(s: seq<string>): (r: seq<string>)
    ensures forall x :: x in r <==> x in s
    ensures NoDuplicates(r)
  {
    if s == [] then []
    else if s[0] in s[1..] then Dedup(s[1..])
    else
      var rest := Dedup(s[1..]);
      assert forall i :: 0 <= i < |rest| ==> rest[i] in s[1..];
      [s[0]] + rest
  }

  /** `sorted(set(names))` */
  function SortedSet(names: seq<string>): seq<string>
  {
    SortNames(Dedup(names))
  }

  lemma SortedSetCorrect(names: seq<string>)
    ensures StrictlySorted(SortedSet(names))
    ensures forall x :: x in SortedSet(names) <==> x in names
  {
    SortNamesCorrect(Dedup(names));
  }

  /** A strictly ascending list is fixed by its elements, so `sorted(set(s))`
      does not depend on the order in which the set is enumerated. */
  lemma {:induction false} StrictlySortedUnique(a: seq<string>, b: seq<string>)
    requires StrictlySorted(a) && StrictlySorted(b)
    requires forall x :: x in a <==> x in b
    ensures a == b
  {
    if a != [] { assert a[0] in b; }
    if b != [] { assert b[0] in a; }
    if a != [] && b != [] {
      if a[0] != b[0] {
        var i :| 0 <= i < |b| && b[i] == a[0];
        var j :| 0 <= j < |a| && a[j] == b[0];
        assert Less(b[0], a[0]) && Less(a[0], b[0]);
        LessAsymmetric(a[0], b[0]);
      }
      forall x ensures x in a[1..] <==> x in b[1..] {
        if x in a[1..] {
          var k :| 0 <= k < |a[1..]| && a[1..][k] == x;
          assert Less(a[0], a[k + 1]);
          LessAsymmetric(a[0], x);
          assert x in b;
        }
        if x in b[1..] {
          var k :| 0 <= k < |b[1..]| && b[1..][k] == x;
          assert Less(b[0], b[k + 1]);
          LessAsymmetric(b[0], x);
          assert x in a;
        }
      }
      assert StrictlySorted(a[1..]) by {
        forall i, j | 0 <= i < j < |a[1..]| ensures Less(a[1..][i], a[1..][j]) {
          assert a[1..][i] == a[i + 1] && a[1..][j] == a[j + 1];
        }
      }
      assert StrictlySorted(b[1..]) by {
        forall i, j | 0 <= i < j < |b[1..]| ensures Less(b[1..][i], b[1..][j]) {
          assert b[1..][i] == b[i + 1] && b[1..][j] == b[j + 1];
        }
      }
      StrictlySortedUnique(a[1..], b[1..]);
      assert a == [a[0]] + a[1..] && b == [b[0]] + b[1..];
    }
  }

  /** Shifts `a[i]` left past the larger keys of the sorted prefix `a[..i]`. */
  method InsertInPlace<T>(a: array<T>, i: nat, key: T -> string)
    requires i < a.Length && SortedBy(a[..i], key)
    modifies a
    ensures a[..i + 1] == Insert(old(a[i]), old(a[..i]), key)
    ensures a[i + 1..] == old(a[i + 1..])
  {
    ghost var sorted := a[..i];
    var x := a[i];
    var j := i;
    while j > 0 && Less(key(x), key(a[j - 1]))
      invariant 0 <= j <= i
      invariant forall k :: 0 <= k < j ==> a[k] == sorted[k]
      invariant forall k :: j < k <= i ==> a[k] == sorted[k - 1] && Less(key(x), key(a[k]))
      invariant forall k :: i < k < a.Length ==> a[k] == old(a[k])
    {
      a[j] := a[j - 1];
      j := j - 1;
    }
    a[j] := x;
    forall k | j <= k < i ensures Less(key(x), key(sorted[k])) {
      assert a[k + 1] == sorted[k];
    }
    assert j > 0 ==> !Less(key(x), key(sorted[j - 1]));
    InsertAt(x, sorted, j, key);
    ghost var r := sorted[..j] + [x] + sorted[j..];
    forall k | 0 <= k <= i ensures a[k] == r[k] {
      if k > j {
        assert r[k] == sorted[k - 1];
      }
    }
    assert a[..i + 1] == r;
    assert forall k :: i < k < a.Length ==> a[k] == old(a[k]);
    assert a[i + 1..] == old(a[i + 1..]);
  }

  /** Where insertion puts `x`: at the position `j` behind which every key
      is larger than `key(x)` and before which none is. */
  lemma {:induction false} InsertAt<T>(x: T, s: seq<T>, j: nat, key: T -> string)
    requires j <= |s| && SortedBy(s, key)
    requires forall k :: j <= k < |s| ==> Less(key(x), key(s[k]))
    requires j > 0 ==> !Less(key(x), key(s[j - 1]))
    ensures Insert(x, s, key) == s[..j] + [x] + s[j..]
  {
    if j == 0 {
      assert s[..0] + [x] + s[0..] == [x] + s;
    } else {
      NotLessIsAtMost(key(x), key(s[j - 1]));
      if j > 1 {
        assert AtMost(key(s[0]), key(s[j - 1]));
        AtMostTransitive(key(s[0]), key(s[j - 1]), key(x));
      }
      NotLessIsAtMost(key(x), key(s[0]));
      SortedTail(s, key);
      assert j - 1 > 0 ==> s[1..][j - 2] == s[j - 1];
      InsertAt(x, s[1..], j - 1, key);
      assert s[..j] + [x] + s[j..] == [s[0]] + (s[1..][..j - 1] + [x] + s[1..][j - 1..]);
    }
  }

  /** `xs.sort(key=key)` in place: a shifting insertion sort, which is stable. */
  method SortInPlace<T>(a: array<T>, key: T -> string)
    modifies a
    ensures a[..] == SortBy(old(a[..]), key)
  {
    ghost var input := a[..];
    var i := 0;
    while i < a.Length
      invariant 0 <= i <= a.Length
      invariant a[..i] == SortBy(input[..i], key)
      invariant a[i..] == input[i..]
    {
      SortByCorrect(input[..i], key);
      assert a[i] == input[i];
      InsertInPlace(a, i, key);
      assert input[..i + 1] == input[..i] + [input[i]];
      assert a[i + 1..] == input[i + 1..];
      i := i + 1;
    }
    assert a[..] == a[..a.Length];
    assert input == input[..a.Length];
  }
}
