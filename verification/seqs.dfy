/** Order-preserving operations on sequences that the screens share: `Array.prototype.filter`,
    the first-seen distinct values of a list (`Array.from(new Set(xs))`), and
    `Array.prototype.findIndex` for a value known to be present. */
module Seqs {
  import opened Js

  /** `s.filter(p)`. */
  function Filter<T>(s: seq<T>, p: T -> bool): (r: seq<T>)
    ensures |r| <= |s|
    decreases |s|
  {
    if s == [] then []
    else Filter(s[..|s| - 1], p) + (if p(s[|s| - 1]) then [s[|s| - 1]] else [])
  }

  /** `r` is `s` with some elements dropped and the rest in their original order. */
  ghost predicate IsSubsequence<T>(r: seq<T>, s: seq<T>)
    decreases |s|
  {
    if r == [] then true
    else if s == [] then false
    else (r[|r| - 1] == s[|s| - 1] && IsSubsequence(r[..|r| - 1], s[..|s| - 1]))
         || IsSubsequence(r, s[..|s| - 1])
  }

  /** `s.findIndex(p)` as an option: the first position whose element passes the test. */
  function FindIndex<T>(s: seq<T>, p: T -> bool): (r: Option<nat>)
    ensures r.Some? ==> r.value < |s| && p(s[r.value]) && forall k :: 0 <= k < r.value ==> !p(s[k])
    ensures r.None? ==> forall k :: 0 <= k < |s| ==> !p(s[k])
  {
    if s == [] then None
    else if p(s[0]) then Some(0)
    else
      var rest := FindIndex(s[1..], p);
      if rest.Some? then Some(rest.value + 1) else None
  }

  /** `s.find(p)`: the first element that passes the test, if any. */
  function Find<T>(s: seq<T>, p: T -> bool): (r: Option<T>)
    ensures r.Some? <==> exists k :: 0 <= k < |s| && p(s[k])
    ensures r.Some? ==> r.value in s && p(r.value)
  {
    var i := FindIndex(s, p);
    if i.Some? then Some(s[i.value]) else None
  }

  /** The filter keeps exactly the elements that pass the test. */
  lemma {:induction false} FilterMembers<T>(s: seq<T>, p: T -> bool)
    ensures forall x :: x in Filter(s, p) <==> x in s && p(x)
    decreases |s|
  {
    if s != [] {
      FilterMembers(s[..|s| - 1], p);
      assert s == s[..|s| - 1] + [s[|s| - 1]];
    }
  }

  /** The filter keeps the order of the input. */
  lemma {:induction false} FilterIsSubsequence<T>(s: seq<T>, p: T -> bool)
    ensures IsSubsequence(Filter(s, p), s)
    decreases |s|
  {
    if s != [] {
      FilterIsSubsequence(s[..|s| - 1], p);
      var r := Filter(s, p);
      if p(s[|s| - 1]) {
        assert r[..|r| - 1] == Filter(s[..|s| - 1], p);
        assert r[|r| - 1] == s[|s| - 1];
      } else {
        assert r == Filter(s[..|s| - 1], p);
      }
    }
  }

  lemma {:induction false} FilterAppend<T>(a: seq<T>, b: seq<T>, p: T -> bool)
    ensures Filter(a + b, p) == Filter(a, p) + Filter(b, p)
    decreases |b|
  {
    if b == [] {
      assert a + b == a;
    } else {
      FilterAppend(a, b[..|b| - 1], p);
      assert (a + b)[..|a + b| - 1] == a + b[..|b| - 1];
    }
  }

  /** A test that every element passes keeps the whole list. */
  lemma {:induction false} FilterKeepsAll<T>(s: seq<T>, p: T -> bool)
    requires forall k :: 0 <= k < |s| ==> p(s[k])
    ensures Filter(s, p) == s
    decreases |s|
  {
    if s != [] {
      FilterKeepsAll(s[..|s| - 1], p);
    }
  }

  lemma FilterSingleton<T>(x: T, p: T -> bool)
    ensures Filter([x], p) == if p(x) then [x] else []
  {
    assert [x][..0] == [];
  }

  /** A test that no element passes keeps nothing. */
  lemma {:induction false} FilterNoneMatch<T>(s: seq<T>, p: T -> bool)
    requires forall k :: 0 <= k < |s| ==> !p(s[k])
    ensures Filter(s, p) == []
    decreases |s|
  {
    if s != [] {
      FilterNoneMatch(s[..|s| - 1], p);
    }
  }

  /** `xs.forEach(x => f(x).forEach(y => out.push(y)))`: the lists `f(x)` one after another. */
  function Concat<A, B>(xs: seq<A>, f: A -> seq<B>): seq<B>
    decreases |xs|
  {
    if xs == [] then [] else Concat(xs[..|xs| - 1], f) + f(xs[|xs| - 1])
  }

  /** An element of the concatenation comes from the list of some input element. */
  lemma {:induction false} ConcatMembers<A, B>(xs: seq<A>, f: A -> seq<B>, y: B)
    ensures y in Concat(xs, f) <==> exists i :: 0 <= i < |xs| && y in f(xs[i])
    decreases |xs|
  {
    if xs != [] {
      var n := |xs| - 1;
      var init := xs[..n];
      ConcatMembers(init, f, y);
      if y in Concat(init, f) {
        var i :| 0 <= i < |init| && y in f(init[i]);
        assert init[i] == xs[i];
      }
      if i :| 0 <= i < |xs| && y in f(xs[i]) {
        if i < n {
          assert init[i] == xs[i];
        }
      }
    }
  }

  /** Concatenation works list by list: the lists of earlier elements come first. */
  lemma {:induction false} ConcatAppend<A, B>(xs: seq<A>, ys: seq<A>, f: A -> seq<B>)
    ensures Concat(xs + ys, f) == Concat(xs, f) + Concat(ys, f)
    decreases |ys|
  {
    if ys == [] {
      assert xs + ys == xs;
    } else {
      var n := |ys| - 1;
      ConcatAppend(xs, ys[..n], f);
      assert (xs + ys)[..|xs + ys| - 1] == xs + ys[..n];
    }
  }

  // ---------------------------------------------------------------- first-seen distinct

  predicate NoDuplicates<T(==)>(s: seq<T>)
  {
    forall i, j :: 0 <= i < j < |s| ==> s[i] != s[j]
  }

  /** A list has no repeated value exactly when every value occurs in it at most once. */
  lemma {:induction false} NoDuplicatesCount<T>(s: seq<T>)
    ensures NoDuplicates(s) <==> forall x :: multiset(s)[x] <= 1
    decreases |s|
  {
    if s != [] {
      var init := s[..|s| - 1];
      NoDuplicatesCount(init);
      assert s == init + [s[|s| - 1]];
      if NoDuplicates(s) {
        assert s[|s| - 1] !in init;
      }
    }
    if !NoDuplicates(s) {
      var i, j :| 0 <= i < j < |s| && s[i] == s[j];
      assert s == s[..j] + [s[j]] + s[j + 1..];
      assert s[i] in s[..j];
      assert multiset(s)[s[j]] >= 2;
    }
  }

  /** Reordering keeps a list free of repetitions. */
  lemma NoDuplicatesPermutation<T>(a: seq<T>, b: seq<T>)
    requires NoDuplicates(a) && multiset(a) == multiset(b)
    ensures NoDuplicates(b)
  {
    NoDuplicatesCount(a);
    NoDuplicatesCount(b);
  }

  /** `Array.from(new Set(s))`: the distinct values of `s` in order of first appearance. */
  function Distinct<T(==)>(s: seq<T>): (d: seq<T>)
    decreases |s|
  {
    if s == [] then []
    else
      var d := Distinct(s[..|s| - 1]);
      if s[|s| - 1] in d then d else d + [s[|s| - 1]]
  }

  /** `s.findIndex(y => y == x)` for an `x` that occurs in `s`. */
  function FirstIndex<T(==)>(s: seq<T>, x: T): (k: nat)
    requires x in s
    ensures k < |s| && s[k] == x && x !in s[..k]
  {
    if s[0] == x then 0 else 1 + FirstIndex(s[1..], x)
  }

  lemma {:induction false} DistinctMembers<T>(s: seq<T>)
    ensures forall x :: x in Distinct(s) <==> x in s
    decreases |s|
  {
    if s != [] {
      DistinctMembers(s[..|s| - 1]);
      assert s == s[..|s| - 1] + [s[|s| - 1]];
    }
  }

  lemma {:induction false} DistinctNoDuplicates<T>(s: seq<T>)
    ensures NoDuplicates(Distinct(s))
    decreases |s|
  {
    if s != [] {
      DistinctNoDuplicates(s[..|s| - 1]);
    }
  }

  lemma DistinctAt<T>(s: seq<T>, i: nat)
    requires i < |Distinct(s)|
    ensures Distinct(s)[i] in s
  {
    DistinctMembers(s);
  }

  /** The first index of `x` is the one position holding `x` with no `x` before it. */
  lemma {:induction false} FirstIndexUnique<T>(s: seq<T>, x: T, i: nat)
    requires i < |s| && s[i] == x && x !in s[..i]
    ensures FirstIndex(s, x) == i
    decreases i
  {
    if i > 0 {
      assert s[0] in s[..i];
      assert s[1..][..i - 1] == s[1..i];
      assert s[..i] == [s[0]] + s[1..i];
      FirstIndexUnique(s[1..], x, i - 1);
    }
  }

  /** The first index of a value that occurs in a prefix is found inside that prefix. */
  lemma FirstIndexInPrefix<T>(s: seq<T>, k: nat, x: T)
    requires k <= |s| && x in s[..k]
    ensures FirstIndex(s, x) == FirstIndex(s[..k], x)
  {
    var i := FirstIndex(s[..k], x);
    assert s[..k][..i] == s[..i];
    FirstIndexUnique(s, x, i);
  }

  /** Appending a value extends the distinct values only when it is new. */
  lemma DistinctSnoc<T>(s: seq<T>, x: T)
    ensures Distinct(s + [x]) == if x in Distinct(s) then Distinct(s) else Distinct(s) + [x]
  {
    assert (s + [x])[..|s|] == s;
  }

  /** `x` and `y` both occur in `s`, and `x` occurs first. */
  ghost predicate SeenBefore<T>(s: seq<T>, x: T, y: T)
  {
    x in s && y in s && FirstIndex(s, x) < FirstIndex(s, y)
  }

  /** The distinct values come in the order of their first appearance. */
  lemma {:induction false} DistinctFirstSeenOrder<T>(s: seq<T>)
    ensures forall i, j :: 0 <= i < j < |Distinct(s)| ==> SeenBefore(s, Distinct(s)[i], Distinct(s)[j])
    decreases |s|
  {
    DistinctMembers(s);
    if s != [] {
      var n := |s| - 1;
      var init := s[..n];
      DistinctFirstSeenOrder(init);
      DistinctMembers(init);
      var d := Distinct(s);
      var d0 := Distinct(init);
      assert d == if s[n] in d0 then d0 else d0 + [s[n]];
      forall i, j | 0 <= i < j < |d|
        ensures SeenBefore(s, d[i], d[j])
      {
        DistinctAt(s, i);
        DistinctAt(s, j);
        assert d[i] == d0[i];
        DistinctAt(init, i);
        FirstIndexInPrefix(s, n, d[i]);
        if j < |d0| {
          assert d[j] == d0[j];
          DistinctAt(init, j);
          FirstIndexInPrefix(s, n, d[j]);
          assert SeenBefore(init, d0[i], d0[j]);
        } else {
          assert d[j] == s[n] && s[n] !in init;
          FirstIndexUnique(s, s[n], n);
        }
      }
    }
  }

  // ---------------------------------------------------------------- keyed assignment

  /** `s.forEach(x => { obj[key(x)] = val(x); })` starting from `base`: a later element
      overwrites an earlier one with the same key. */
  function Assign<T, K, V>(base: map<K, V>, s: seq<T>, key: T -> K, val: T -> V): map<K, V>
    decreases |s|
  {
    if s == [] then base
    else Assign(base, s[..|s| - 1], key, val)[key(s[|s| - 1]) := val(s[|s| - 1])]
  }

  /** Assigning over one more element writes that element's value over the earlier map. */
  lemma AssignSnoc<T, K, V>(base: map<K, V>, s: seq<T>, key: T -> K, val: T -> V, k: nat)
    requires k < |s|
    ensures Assign(base, s[..k + 1], key, val) == Assign(base, s[..k], key, val)[key(s[k]) := val(s[k])]
  {
    assert s[..k + 1][..k] == s[..k];
  }

  /** `k` is the last position of `s` whose key is `x`. */
  ghost predicate LastWithKey<T, K>(s: seq<T>, key: T -> K, x: K, k: int)
  {
    0 <= k < |s| && key(s[k]) == x && forall j :: k < j < |s| ==> key(s[j]) != x
  }

  /** The keys are those of `base` plus those of `s`. */
  lemma {:induction false} AssignKeys<T, K, V>(base: map<K, V>, s: seq<T>, key: T -> K, val: T -> V, x: K)
    ensures x in Assign(base, s, key, val) <==> x in base || exists k :: 0 <= k < |s| && key(s[k]) == x
    decreases |s|
  {
    if s != [] {
      var n := |s| - 1;
      var init := s[..n];
      AssignKeys(base, init, key, val, x);
      if k :| 0 <= k < |init| && key(init[k]) == x {
        assert s[k] == init[k];
      }
      if k :| 0 <= k < n && key(s[k]) == x {
        assert init[k] == s[k];
      }
    }
  }

  /** The key of the last element with that key holds that element's value. */
  lemma {:induction false} AssignLast<T, K, V>(base: map<K, V>, s: seq<T>, key: T -> K, val: T -> V, x: K, k: nat)
    requires LastWithKey(s, key, x, k)
    ensures x in Assign(base, s, key, val) && Assign(base, s, key, val)[x] == val(s[k])
    decreases |s|
  {
    var n := |s| - 1;
    if k < n {
      var init := s[..n];
      assert key(s[n]) != x;
      forall j | k < j < |init| ensures key(init[j]) != x
      {
        assert init[j] == s[j];
      }
      AssignLast(base, init, key, val, x, k);
    }
  }

  /** A key no element of `s` has keeps what `base` says of it. */
  lemma {:induction false} AssignUntouched<T, K, V>(base: map<K, V>, s: seq<T>, key: T -> K, val: T -> V, x: K)
    requires forall k :: 0 <= k < |s| ==> key(s[k]) != x
    ensures x in Assign(base, s, key, val) <==> x in base
    ensures x in base ==> Assign(base, s, key, val)[x] == base[x]
    decreases |s|
  {
    if s != [] {
      var n := |s| - 1;
      var init := s[..n];
      forall j | 0 <= j < |init| ensures key(init[j]) != x
      {
        assert init[j] == s[j];
      }
      AssignUntouched(base, init, key, val, x);
    }
  }

  /** A key that occurs in `s` has a last position. */
  lemma {:induction false} LastWithKeyExists<T, K>(s: seq<T>, key: T -> K, x: K, k: nat)
    requires k < |s| && key(s[k]) == x
    ensures exists m :: LastWithKey(s, key, x, m)
    decreases |s| - k
  {
    if exists j :: k < j < |s| && key(s[j]) == x {
      var j :| k < j < |s| && key(s[j]) == x;
      LastWithKeyExists(s, key, x, j);
    } else {
      assert LastWithKey(s, key, x, k);
    }
  }

  /** The keys are those of `base` plus those of `s`; a key of `s` holds the value of its
      last element, any other key keeps its value from `base`. */
  lemma AssignLastWins<T, K, V>(base: map<K, V>, s: seq<T>, key: T -> K, val: T -> V, x: K)
    ensures x in Assign(base, s, key, val) <==> x in base || exists k :: 0 <= k < |s| && key(s[k]) == x
    ensures (exists k :: 0 <= k < |s| && key(s[k]) == x) ==>
              exists k :: LastWithKey(s, key, x, k) && Assign(base, s, key, val)[x] == val(s[k])
    ensures x in base && (forall k :: 0 <= k < |s| ==> key(s[k]) != x) ==> Assign(base, s, key, val)[x] == base[x]
  {
    AssignKeys(base, s, key, val, x);
    if k :| 0 <= k < |s| && key(s[k]) == x {
      LastWithKeyExists(s, key, x, k);
      var m :| LastWithKey(s, key, x, m);
      AssignLast(base, s, key, val, x, m);
    } else {
      AssignUntouched(base, s, key, val, x);
    }
  }
}
