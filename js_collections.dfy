/** The JavaScript collection behaviour the core relies on: a `Set` remembers its elements in
    first-insertion order, `Array.prototype.filter` keeps an order-preserving subsequence, and
    the own keys of a plain object are enumerated with the array-index keys first. */
module JsCollections {

  import opened Notes

  predicate Distinct<T(==)>(xs: seq<T>) {
    forall i, j :: 0 <= i < j < |xs| ==> xs[i] != xs[j]
  }

  /** `Array.from(set)` after adding the elements of `xs` one by one to an empty `Set`. */
  function Dedup<T(==)>(xs: seq<T>): seq<T> {
    if xs == [] then []
    else
      var d := Dedup(xs[..|xs| - 1]);
      if xs[|xs| - 1] in d then d else d + [xs[|xs| - 1]]
  }

  /** The `Set` holds each element of `xs` exactly once, and nothing else. */
  lemma {:induction false} DedupSpec<T(!new)>(xs: seq<T>)
    ensures Distinct(Dedup(xs))
    ensures forall x :: x in Dedup(xs) <==> x in xs
  {
    if xs != [] {
      var init := xs[..|xs| - 1];
      DedupSpec(init);
      assert xs == init + [xs[|xs| - 1]];
      assert forall x :: x in xs <==> x in init || x == xs[|xs| - 1];
    }
  }

  /** Adding one more element to the `Set`. */
  lemma DedupSnoc<T>(xs: seq<T>, x: T)
    ensures Dedup(xs + [x]) == if x in Dedup(xs) then Dedup(xs) else Dedup(xs) + [x]
  {
    assert (xs + [x])[..|xs|] == xs;
  }

  /** The position of the first occurrence of `x` in `xs`. */
  function FirstIndex<T(==)>(xs: seq<T>, x: T): (i: nat)
    requires x in xs
    ensures i < |xs| && xs[i] == x
    ensures forall j :: 0 <= j < i ==> xs[j] != x
  {
    if xs[0] == x then 0 else 1 + FirstIndex(xs[1..], x)
  }

  lemma {:induction false} FirstIndexOfPrefix<T>(xs: seq<T>, ys: seq<T>, x: T)
    requires x in xs
    ensures FirstIndex(xs + ys, x) == FirstIndex(xs, x)
  {
    if xs[0] != x {
      assert (xs + ys)[1..] == xs[1..] + ys;
      FirstIndexOfPrefix(xs[1..], ys, x);
    }
  }

  lemma FirstIndexOfLast<T>(xs: seq<T>, x: T)
    requires x !in xs
    ensures FirstIndex(xs + [x], x) == |xs|
  {
    assert forall j :: 0 <= j < |xs| ==> (xs + [x])[j] != x;
    assert (xs + [x])[|xs|] == x;
  }

  /** The `Set` lists its elements in the order of their first occurrence in `xs`. */
  lemma {:induction false} DedupFirstOccurrenceOrder<T(!new)>(xs: seq<T>)
    ensures forall i, j :: 0 <= i < j < |Dedup(xs)| ==>
      Dedup(xs)[i] in xs && Dedup(xs)[j] in xs &&
      FirstIndex(xs, Dedup(xs)[i]) < FirstIndex(xs, Dedup(xs)[j])
  {
    DedupSpec(xs);
    if xs != [] {
      var init, x := xs[..|xs| - 1], xs[|xs| - 1];
      assert xs == init + [x];
      DedupFirstOccurrenceOrder(init);
      DedupSpec(init);
      var d := Dedup(init);
      forall y | y in d ensures FirstIndex(xs, y) == FirstIndex(init, y) {
        FirstIndexOfPrefix(init, [x], y);
      }
      if x !in d {
        FirstIndexOfLast(init, x);
        assert Dedup(xs) == d + [x];
        forall i | 0 <= i < |d| ensures FirstIndex(xs, d[i]) < FirstIndex(xs, x) {
          assert d[i] in init;
        }
      }
    }
  }

  /** How often `x` occurs in `xs`. */
  function Count<T(==)>(xs: seq<T>, x: T): nat {
    if xs == [] then 0
    else Count(xs[..|xs| - 1], x) + (if xs[|xs| - 1] == x then 1 else 0)
  }

  lemma {:induction false} CountPositive<T>(xs: seq<T>, x: T)
    ensures Count(xs, x) > 0 <==> x in xs
  {
    if xs != [] {
      CountPositive(xs[..|xs| - 1], x);
      assert xs == xs[..|xs| - 1] + [xs[|xs| - 1]];
    }
  }

  lemma {:induction false} CountAppend<T>(xs: seq<T>, ys: seq<T>, x: T)
    ensures Count(xs + ys, x) == Count(xs, x) + Count(ys, x)
  {
    if ys == [] {
      assert xs + ys == xs;
    } else {
      assert (xs + ys)[..|xs + ys| - 1] == xs + ys[..|ys| - 1];
      CountAppend(xs, ys[..|ys| - 1], x);
    }
  }

  /** `n` copies of `x`. */
  function Repeat<T>(x: T, n: nat): (r: seq<T>)
    ensures |r| == n
  {
    if n == 0 then [] else Repeat(x, n - 1) + [x]
  }

  lemma {:induction false} CountRepeat<T>(x: T, n: nat, y: T)
    ensures Count(Repeat(x, n), y) == if x == y then n else 0
  {
    if n > 0 {
      assert Repeat(x, n)[..n - 1] == Repeat(x, n - 1);
      CountRepeat(x, n - 1, y);
    }
  }

  /** `ys` is `xs` with some elements left out, the rest in their order. */
  predicate IsSubsequence<T(==)>(ys: seq<T>, xs: seq<T>) {
    ys == [] ||
    (xs != [] &&
      ((ys[|ys| - 1] == xs[|xs| - 1] && IsSubsequence(ys[..|ys| - 1], xs[..|xs| - 1])) ||
       IsSubsequence(ys, xs[..|xs| - 1])))
  }

  /** Every sequence is a subsequence of itself. */
  lemma {:induction false} SubsequenceOfSelf<T>(xs: seq<T>)
    ensures IsSubsequence(xs, xs)
  {
    if xs != [] {
      SubsequenceOfSelf(xs[..|xs| - 1]);
    }
  }

  /** `xs.filter(p)`. */
  function Filter<T>(xs: seq<T>, p: T -> bool): (r: seq<T>)
    ensures |r| <= |xs|
  {
    if xs == [] then []
    else Filter(xs[..|xs| - 1], p) + (if p(xs[|xs| - 1]) then [xs[|xs| - 1]] else [])
  }

  /** What `filter` keeps: an order-preserving subsequence holding every element that
      passes, as often as it occurs, and nothing else. */
  lemma {:induction false} FilterKeeps<T>(xs: seq<T>, p: T -> bool)
    ensures IsSubsequence(Filter(xs, p), xs)
    ensures forall x :: Count(Filter(xs, p), x) == if p(x) then Count(xs, x) else 0
    ensures forall x :: x in Filter(xs, p) <==> x in xs && p(x)
  {
    if xs != [] {
      var init, last := xs[..|xs| - 1], xs[|xs| - 1];
      FilterKeeps(init, p);
      var f := Filter(init, p);
      assert xs[..|xs| - 1] == init;
      if p(last) {
        assert Filter(xs, p) == f + [last];
        assert (f + [last])[..|f|] == f;
      } else {
        assert Filter(xs, p) == f;
      }
      forall x ensures Count(Filter(xs, p), x) == if p(x) then Count(xs, x) else 0 {
        CountAppend(f, if p(last) then [last] else [], x);
        assert Count([last], x) == Count([], x) + (if last == x then 1 else 0);
      }
      forall x ensures x in Filter(xs, p) <==> x in xs && p(x) {
        CountPositive(Filter(xs, p), x);
        CountPositive(xs, x);
      }
    }
  }

  /** A filter that every element passes keeps everything. */
  lemma {:induction false} FilterAll<T>(xs: seq<T>, p: T -> bool)
    requires forall k :: 0 <= k < |xs| ==> p(xs[k])
    ensures Filter(xs, p) == xs
  {
    if xs != [] {
      FilterAll(xs[..|xs| - 1], p);
    }
  }

  /** `xs.map(f)`. */
  function ArrayMap<T, U>(xs: seq<T>, f: T -> U): seq<U> {
    if xs == [] then [] else ArrayMap(xs[..|xs| - 1], f) + [f(xs[|xs| - 1])]
  }

  /** `map` keeps the length and applies `f` at every index. */
  lemma {:induction false} ArrayMapSpec<T, U>(xs: seq<T>, f: T -> U)
    ensures |ArrayMap(xs, f)| == |xs|
    ensures forall k :: 0 <= k < |xs| ==> ArrayMap(xs, f)[k] == f(xs[k])
  {
    if xs != [] {
      ArrayMapSpec(xs[..|xs| - 1], f);
    }
  }

  /** The values `f` gives, in order, for the elements where it gives one. */
  function FilterMap<T, U>(xs: seq<T>, f: T -> Option<U>): seq<U> {
    if xs == [] then []
    else
      var y := f(xs[|xs| - 1]);
      FilterMap(xs[..|xs| - 1], f) + (if y.Some? then [y.value] else [])
  }

  lemma FilterMapSnoc<T, U>(xs: seq<T>, x: T, f: T -> Option<U>)
    ensures FilterMap(xs + [x], f) == FilterMap(xs, f) + (if f(x).Some? then [f(x).value] else [])
  {
    assert (xs + [x])[..|xs|] == xs;
  }

  /** A value is kept exactly when `f` gives it for some element. */
  lemma {:induction false} FilterMapSpec<T, U>(xs: seq<T>, f: T -> Option<U>)
    ensures forall y :: y in FilterMap(xs, f) <==> exists k :: 0 <= k < |xs| && f(xs[k]) == Some(y)
  {
    if xs != [] {
      var init := xs[..|xs| - 1];
      FilterMapSpec(init, f);
      forall y ensures y in FilterMap(xs, f) <==> exists k :: 0 <= k < |xs| && f(xs[k]) == Some(y) {
        if exists k :: 0 <= k < |xs| && f(xs[k]) == Some(y) {
          var k :| 0 <= k < |xs| && f(xs[k]) == Some(y);
          if k < |init| {
            assert init[k] == xs[k];
          }
        }
        if exists k :: 0 <= k < |init| && f(init[k]) == Some(y) {
          var k :| 0 <= k < |init| && f(init[k]) == Some(y);
          assert xs[k] == init[k];
        }
      }
    }
  }

  /** `xs.flatMap(f)`: the sequences `f` gives, one after another. */
  function FlatMap<T, U>(xs: seq<T>, f: T -> seq<U>): seq<U> {
    if xs == [] then [] else FlatMap(xs[..|xs| - 1], f) + f(xs[|xs| - 1])
  }

  lemma FlatMapSnoc<T, U>(xs: seq<T>, x: T, f: T -> seq<U>)
    ensures FlatMap(xs + [x], f) == FlatMap(xs, f) + f(x)
  {
    assert (xs + [x])[..|xs|] == xs;
  }

  /** A value occurs exactly when it occurs in what `f` gives for some element. */
  lemma {:induction false} FlatMapSpec<T, U>(xs: seq<T>, f: T -> seq<U>)
    ensures forall y :: y in FlatMap(xs, f) <==> exists k :: 0 <= k < |xs| && y in f(xs[k])
  {
    if xs != [] {
      var init := xs[..|xs| - 1];
      FlatMapSpec(init, f);
      forall y ensures y in FlatMap(xs, f) <==> exists k :: 0 <= k < |xs| && y in f(xs[k]) {
        if exists k :: 0 <= k < |xs| && y in f(xs[k]) {
          var k :| 0 <= k < |xs| && y in f(xs[k]);
          if k < |init| {
            assert init[k] == xs[k];
          }
        }
        if exists k :: 0 <= k < |init| && y in f(init[k]) {
          var k :| 0 <= k < |init| && y in f(init[k]);
          assert xs[k] == init[k];
        }
      }
    }
  }

  // ---------------------------------------------------------------------------------------
  // Enumeration order of the own keys of a plain object (OrdinaryOwnPropertyKeys).

  predicate IsDigit(c: char) { '0' <= c <= '9' }

  predicate AllDigits(s: string) {
    forall i :: 0 <= i < |s| ==> IsDigit(s[i])
  }

  /** The number a string of decimal digits denotes. */
  function DecimalValue(s: string): nat
    requires AllDigits(s)
  {
    if s == [] then 0
    else DecimalValue(s[..|s| - 1]) * 10 + (s[|s| - 1] as int - '0' as int)
  }

  /** The numeric value of a key that is a decimal numeral, 0 for any other key. */
  function KeyValue(k: string): nat {
    if AllDigits(k) then DecimalValue(k) else 0
  }

  /** An array index: a canonical decimal numeral below 2^32 - 1. */
  predicate IsArrayIndex(k: string) {
    k != [] && AllDigits(k) && (k[0] != '0' || |k| == 1) && KeyValue(k) < 0xFFFF_FFFF
  }

  /** The array-index keys of `keys`, in insertion order. */
  function IndexKeys(keys: seq<string>): (r: seq<string>)
    ensures forall k :: k in r <==> k in keys && IsArrayIndex(k)
    ensures Distinct(keys) ==> Distinct(r)
    ensures |r| + |NamedKeys(keys)| == |keys|
  {
    if keys == [] then []
    else
      var init, last := keys[..|keys| - 1], keys[|keys| - 1];
      assert forall k :: k in keys <==> k in init || k == last;
      IndexKeys(init) + (if IsArrayIndex(last) then [last] else [])
  }

  /** The other keys of `keys`, in insertion order. */
  function NamedKeys(keys: seq<string>): (r: seq<string>)
    ensures forall k :: k in r <==> k in keys && !IsArrayIndex(k)
    ensures Distinct(keys) ==> Distinct(r)
  {
    if keys == [] then []
    else
      var init, last := keys[..|keys| - 1], keys[|keys| - 1];
      assert forall k :: k in keys <==> k in init || k == last;
      NamedKeys(init) + (if IsArrayIndex(last) then [] else [last])
  }

  predicate AllIndices(ks: seq<string>) {
    forall i :: 0 <= i < |ks| ==> IsArrayIndex(ks[i])
  }

  predicate AscendingIndices(ks: seq<string>) {
    forall i, j :: 0 <= i < j < |ks| ==> KeyValue(ks[i]) <= KeyValue(ks[j])
  }

  /** The first key of an ascending sequence has the smallest value. */
  lemma AscendingHead(ks: seq<string>)
    requires AscendingIndices(ks)
    ensures ks != [] ==> forall y :: y in ks ==> KeyValue(ks[0]) <= KeyValue(y)
  {
    if ks != [] {
      forall y | y in ks ensures KeyValue(ks[0]) <= KeyValue(y) {
        var j :| 0 <= j < |ks| && ks[j] == y;
      }
    }
  }

  lemma AscendingCons(x: string, ys: seq<string>)
    requires AscendingIndices(ys)
    requires forall y :: y in ys ==> KeyValue(x) <= KeyValue(y)
    ensures AscendingIndices([x] + ys)
  {
    forall i, j | 0 <= i < j < |[x] + ys|
      ensures KeyValue(([x] + ys)[i]) <= KeyValue(([x] + ys)[j])
    {
      if i > 0 {
        assert ([x] + ys)[i] == ys[i - 1];
      }
      assert ([x] + ys)[j] == ys[j - 1] && ys[j - 1] in ys;
    }
  }

  function InsertIndex(k: string, ks: seq<string>): (r: seq<string>)
    requires IsArrayIndex(k) && AllIndices(ks)
    requires AscendingIndices(ks)
    ensures forall x :: x in r <==> x == k || x in ks
    ensures AllIndices(r) && AscendingIndices(r)
    ensures k !in ks && Distinct(ks) ==> Distinct(r)
    ensures |r| == |ks| + 1
  {
    if ks == [] || KeyValue(k) <= KeyValue(ks[0]) then
      AscendingHead(ks);
      AscendingCons(k, ks);
      DistinctCons(k, ks);
      [k] + ks
    else
      AscendingHead(ks);
      var rest := InsertIndex(k, ks[1..]);
      AscendingCons(ks[0], rest);
      DistinctTail(ks);
      DistinctCons(ks[0], rest);
      [ks[0]] + rest
  }

  lemma DistinctCons<T>(x: T, ys: seq<T>)
    ensures x !in ys && Distinct(ys) ==> Distinct([x] + ys)
  {
    if x !in ys && Distinct(ys) {
      forall i, j | 0 <= i < j < |[x] + ys| ensures ([x] + ys)[i] != ([x] + ys)[j] {
        assert ([x] + ys)[j] == ys[j - 1];
      }
    }
  }

  lemma DistinctTail<T>(xs: seq<T>)
    requires xs != []
    ensures Distinct(xs) ==> xs[0] !in xs[1..] && Distinct(xs[1..])
  {
    if Distinct(xs) {
      forall i, j | 0 <= i < j < |xs[1..]| ensures xs[1..][i] != xs[1..][j] {
        assert xs[1..][i] == xs[i + 1] && xs[1..][j] == xs[j + 1];
      }
    }
  }

  /** The array-index keys sorted by numeric value. */
  function SortIndices(ks: seq<string>): (r: seq<string>)
    requires AllIndices(ks)
    ensures forall x :: x in r <==> x in ks
    ensures AllIndices(r) && AscendingIndices(r)
    ensures Distinct(ks) ==> Distinct(r)
    ensures |r| == |ks|
  {
    if ks == [] then []
    else
      var init := ks[..|ks| - 1];
      assert ks == init + [ks[|ks| - 1]];
      InsertIndex(ks[|ks| - 1], SortIndices(init))
  }

  /** The order in which `Object.entries` lists an object whose keys were created in the
      order `keys`: array-index keys ascending by value, then the rest in creation order. */
  function EnumerationOrder(keys: seq<string>): (r: seq<string>)
    ensures |r| == |keys|
    ensures forall k :: k in r <==> k in keys
    ensures Distinct(keys) ==> Distinct(r)
    ensures forall i, j :: 0 <= i < j < |r| && IsArrayIndex(r[j]) ==>
      IsArrayIndex(r[i]) && KeyValue(r[i]) <= KeyValue(r[j])
    ensures r[|IndexKeys(keys)|..] == Filter(keys, IsNamedKey)
  {
    var ix := SortIndices(IndexKeys(keys));
    var named := NamedKeys(keys);
    IndexKeysFirst(ix, named);
    NamedKeysInOrder(keys);
    assert (ix + named)[|ix|..] == named;
    ix + named
  }

  /** A key that is not an array index. */
  predicate IsNamedKey(k: string) {
    !IsArrayIndex(k)
  }

  /** The other keys are exactly those that `filter` keeps, in creation order. */
  lemma {:induction false} NamedKeysInOrder(keys: seq<string>)
    ensures NamedKeys(keys) == Filter(keys, IsNamedKey)
  {
    if keys != [] {
      NamedKeysInOrder(keys[..|keys| - 1]);
    }
  }

  lemma IndexKeysFirst(ix: seq<string>, named: seq<string>)
    requires AllIndices(ix) && AscendingIndices(ix)
    requires forall k :: k in named ==> !IsArrayIndex(k)
    ensures forall i :: 0 <= i < |ix + named| ==> (IsArrayIndex((ix + named)[i]) <==> i < |ix|)
    ensures Distinct(ix) && Distinct(named) ==> Distinct(ix + named)
    ensures forall i, j :: 0 <= i < j < |ix + named| && IsArrayIndex((ix + named)[j]) ==>
      IsArrayIndex((ix + named)[i]) && KeyValue((ix + named)[i]) <= KeyValue((ix + named)[j])
  {
    var r := ix + named;
    forall i | 0 <= i < |r| ensures IsArrayIndex(r[i]) <==> i < |ix| {
      if i >= |ix| { assert r[i] == named[i - |ix|]; assert r[i] in named; }
    }
  }
}
