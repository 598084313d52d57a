/**
 List comprehensions with a condition, and Python's
 `list.sort(key=..., reverse=True)` on an integer key: a stable sort into
 non-increasing key order. The sort gives the newest-first catalog order and
 the score order of search results.
 */
module Sorting {

  /** `[x for x in s if p(x)]`. */
  function Where<T(!new)>(s: seq<T>, p: T -> bool): (r: seq<T>)
    ensures |r| <= |s|
    ensures forall x :: multiset(r)[x] == if p(x) then multiset(s)[x] else 0
    decreases |s|
  {
    if s == [] then []
    else
      var rest := Where(s[1..], p);
      assert s == [s[0]] + s[1..];
      (if p(s[0]) then [s[0]] else []) + rest
  }

  /** `Where` counts one step at a time. */
  lemma WhereLength<T(!new)>(s: seq<T>, p: T -> bool)
    requires s != []
    ensures |Where(s, p)| == (if p(s[0]) then 1 else 0) + |Where(s[1..], p)|
  {
  }

  /** `[f(x) for x in s if p(x)]`. */
  function Collect<A, B>(s: seq<A>, p: A -> bool, f: A -> B): (r: seq<B>)
    ensures |r| <= |s|
    decreases |s|
  {
    if s == [] then [] else (if p(s[0]) then [f(s[0])] else []) + Collect(s[1..], p, f)
  }

  /** `Collect` makes an element exactly for each element of `s` that passes. */
  lemma {:induction false} CollectMembers<A, B>(s: seq<A>, p: A -> bool, f: A -> B, y: B)
    ensures y in Collect(s, p, f) <==> exists i :: 0 <= i < |s| && p(s[i]) && f(s[i]) == y
    decreases |s|
  {
    if s != [] {
      var rest := s[1..];
      CollectMembers(rest, p, f, y);
      if y in Collect(s, p, f) && !(p(s[0]) && f(s[0]) == y) {
        assert y in Collect(rest, p, f);
        var j :| 0 <= j < |rest| && p(rest[j]) && f(rest[j]) == y;
        assert s[j + 1] == rest[j];
      }
      if i :| 0 <= i < |s| && p(s[i]) && f(s[i]) == y {
        if i > 0 {
          assert rest[i - 1] == s[i];
        }
      }
    }
  }

  // ---------------------------------------------------------------------------
  // Order: what a comprehension keeps, it keeps in the order of `s`
  // ---------------------------------------------------------------------------

  /** Strictly increasing positions. */
  predicate Increasing(idx: seq<nat>) {
    forall a, b :: 0 <= a < b < |idx| ==> idx[a] < idx[b]
  }

  /** `idx` lists, in increasing order, exactly the positions of `s` whose
      element satisfies `p`. */
  predicate Enumerates<A>(idx: seq<nat>, s: seq<A>, p: A -> bool) {
    && Increasing(idx)
    && (forall a :: 0 <= a < |idx| ==> idx[a] < |s| && p(s[idx[a]]))
    && (forall i :: 0 <= i < |s| && p(s[i]) ==> i in idx)
  }

  function Shift(idx: seq<nat>): (r: seq<nat>)
    ensures |r| == |idx|
    ensures forall a :: 0 <= a < |idx| ==> r[a] == idx[a] + 1
  {
    seq(|idx|, a requires 0 <= a < |idx| => idx[a] + 1)
  }

  /** The positions of `s` whose element satisfies `p` (`PositionsEnumerate`
      says which these are). */
  function Positions<A>(s: seq<A>, p: A -> bool): (idx: seq<nat>)
    ensures forall a :: 0 <= a < |idx| ==> idx[a] < |s|
    decreases |s|
  {
    if s == [] then [] else (if p(s[0]) then [0] else []) + Shift(Positions(s[1..], p))
  }

  /** `Positions` lists, in increasing order, exactly the passing positions. */
  lemma {:induction false} PositionsEnumerate<A>(s: seq<A>, p: A -> bool)
    ensures Enumerates(Positions(s, p), s, p)
    decreases |s|
  {
    if s != [] {
      var rest := Positions(s[1..], p);
      PositionsEnumerate(s[1..], p);
      var head: seq<nat> := if p(s[0]) then [0] else [];
      assert Positions(s, p) == head + Shift(rest);
      IncreasingCons(head, rest);
      PassingCons(s, p, rest);
      CompleteCons(s, p, rest);
    }
  }

  lemma IncreasingCons(head: seq<nat>, rest: seq<nat>)
    requires head == [] || head == [0]
    requires Increasing(rest)
    ensures Increasing(head + Shift(rest))
  {
    var idx := head + Shift(rest);
    forall a, b | 0 <= a < b < |idx|
      ensures idx[a] < idx[b]
    {
      assert idx[b] == rest[b - |head|] + 1;
      if a >= |head| {
        assert idx[a] == rest[a - |head|] + 1;
      }
    }
  }

  lemma PassingCons<A>(s: seq<A>, p: A -> bool, rest: seq<nat>)
    requires s != []
    requires forall a :: 0 <= a < |rest| ==> rest[a] < |s| - 1 && p(s[1..][rest[a]])
    ensures var idx := (if p(s[0]) then [0] else []) + Shift(rest);
      forall a :: 0 <= a < |idx| ==> idx[a] < |s| && p(s[idx[a]])
  {
    var head: seq<nat> := if p(s[0]) then [0] else [];
    var idx := head + Shift(rest);
    forall a | 0 <= a < |idx|
      ensures idx[a] < |s| && p(s[idx[a]])
    {
      if a >= |head| {
        var b := a - |head|;
        assert idx[a] == rest[b] + 1;
        assert s[rest[b] + 1] == s[1..][rest[b]];
      }
    }
  }

  lemma CompleteCons<A>(s: seq<A>, p: A -> bool, rest: seq<nat>)
    requires s != []
    requires forall i :: 0 <= i < |s| - 1 && p(s[1..][i]) ==> i in rest
    ensures var idx := (if p(s[0]) then [0] else []) + Shift(rest);
      forall i :: 0 <= i < |s| && p(s[i]) ==> i in idx
  {
    var head: seq<nat> := if p(s[0]) then [0] else [];
    var idx := head + Shift(rest);
    forall i | 0 <= i < |s| && p(s[i])
      ensures i in idx
    {
      if i > 0 {
        assert s[1..][i - 1] == s[i];
        var a :| 0 <= a < |rest| && rest[a] == i - 1;
        assert idx[|head| + a] == i;
      } else {
        assert idx[0] == 0;
      }
    }
  }

  /** `Collect` maps the passing elements in the order they stand in `s`. */
  lemma {:induction false} CollectInOrder<A, B>(s: seq<A>, p: A -> bool, f: A -> B)
    ensures |Collect(s, p, f)| == |Positions(s, p)|
    ensures forall a :: 0 <= a < |Positions(s, p)| ==> Collect(s, p, f)[a] == f(s[Positions(s, p)[a]])
    decreases |s|
  {
    if s != [] {
      CollectInOrder(s[1..], p, f);
      var rest := Positions(s[1..], p);
      var mapped := Collect(s[1..], p, f);
      var head: seq<nat> := if p(s[0]) then [0] else [];
      assert Positions(s, p) == head + Shift(rest);
      assert Collect(s, p, f) == (if p(s[0]) then [f(s[0])] else []) + mapped;
      assert forall a :: 0 <= a < |rest| ==> s[rest[a] + 1] == s[1..][rest[a]];
    }
  }

  function Identity<T>(): T -> T {
    (x: T) => x
  }

  /** `Where` is `Collect` with nothing applied. */
  lemma {:induction false} WhereIsCollect<T(!new)>(s: seq<T>, p: T -> bool)
    ensures Where(s, p) == Collect(s, p, Identity())
    decreases |s|
  {
    if s != [] {
      WhereIsCollect(s[1..], p);
    }
  }

  /** `Where` keeps the passing elements in the order they stand in `s`. */
  lemma WhereInOrder<T(!new)>(s: seq<T>, p: T -> bool)
    ensures |Where(s, p)| == |Positions(s, p)|
    ensures forall a :: 0 <= a < |Positions(s, p)| ==> Where(s, p)[a] == s[Positions(s, p)[a]]
  {
    WhereIsCollect(s, p);
    CollectInOrder(s, p, Identity());
  }

  /** `idx` picks `r` out of `s` at increasing positions. */
  ghost predicate Picks<T>(r: seq<T>, s: seq<T>, idx: seq<nat>) {
    && |idx| == |r|
    && Increasing(idx)
    && (forall a :: 0 <= a < |idx| ==> idx[a] < |s| && r[a] == s[idx[a]])
  }

  /** `r` is `s` with some elements left out and the rest in their order. */
  ghost predicate IsSubsequence<T>(r: seq<T>, s: seq<T>) {
    exists idx :: Picks(r, s, idx)
  }

  lemma WhereSubsequence<T(!new)>(s: seq<T>, p: T -> bool)
    ensures IsSubsequence(Where(s, p), s)
  {
    WhereInOrder(s, p);
    PositionsEnumerate(s, p);
    assert Picks(Where(s, p), s, Positions(s, p));
  }

  lemma EmptySubsequence<T>(s: seq<T>)
    ensures IsSubsequence([], s)
  {
    assert Picks([], s, []);
  }

  /** The condition `p(x) && q(x)`. */
  function Both<T>(p: T -> bool, q: T -> bool): T -> bool {
    (x: T) => p(x) && q(x)
  }

  /** Two comprehensions in a row are one with both conditions. */
  lemma {:induction false} WhereWhere<T(!new)>(s: seq<T>, p: T -> bool, q: T -> bool)
    ensures Where(Where(s, p), q) == Where(s, Both(p, q))
    decreases |s|
  {
    if s != [] {
      WhereWhere(s[1..], p, q);
      var inner := Where(s[1..], p);
      if p(s[0]) {
        assert Where(s, p) == [s[0]] + inner;
        assert Where([s[0]] + inner, q) == (if q(s[0]) then [s[0]] else []) + Where(inner, q);
      } else {
        assert Where(s, p) == inner;
      }
    }
  }

  /** Only the condition's values on `s` matter. */
  lemma {:induction false} WhereAgree<T(!new)>(s: seq<T>, p: T -> bool, q: T -> bool)
    requires forall i :: 0 <= i < |s| ==> p(s[i]) == q(s[i])
    ensures Where(s, p) == Where(s, q)
    decreases |s|
  {
    if s != [] {
      assert forall i :: 0 <= i < |s| - 1 ==> s[1..][i] == s[i + 1];
      WhereAgree(s[1..], p, q);
    }
  }

  /** A condition every element meets keeps `s` whole. */
  lemma {:induction false} WhereAll<T(!new)>(s: seq<T>, p: T -> bool)
    requires forall i :: 0 <= i < |s| ==> p(s[i])
    ensures Where(s, p) == s
    decreases |s|
  {
    if s != [] {
      WhereAll(s[1..], p);
      assert p(s[0]);
      assert Where(s, p) == [s[0]] + s[1..];
    }
  }

  /** What `Where` keeps is exactly what satisfies the condition. */
  lemma WhereMembers<T(!new)>(s: seq<T>, p: T -> bool, x: T)
    ensures x in Where(s, p) <==> x in s && p(x)
  {
    assert x in Where(s, p) <==> x in multiset(Where(s, p));
    assert x in s <==> x in multiset(s);
  }

  /** Keys never increase along `s`. */
  ghost predicate SortedDesc<T>(s: seq<T>, key: T -> int) {
    forall i, j :: 0 <= i < j < |s| ==> key(s[i]) >= key(s[j])
  }

  /** The elements of `s` whose key is `k`, in their order in `s`. */
  function KeyFilter<T>(s: seq<T>, key: T -> int, k: int): seq<T>
    decreases |s|
  {
    if s == [] then [] else (if key(s[0]) == k then [s[0]] else []) + KeyFilter(s[1..], key, k)
  }

  /** The condition `key(x) == k`. */
  function HasKey<T>(key: T -> int, k: int): T -> bool {
    (x: T) => key(x) == k
  }

  /** `KeyFilter` is the comprehension on `key(x) == k`. */
  lemma {:induction false} KeyFilterIsWhere<T(!new)>(s: seq<T>, key: T -> int, k: int)
    ensures KeyFilter(s, key, k) == Where(s, HasKey(key, k))
    decreases |s|
  {
    if s != [] {
      KeyFilterIsWhere(s[1..], key, k);
    }
  }

  /** `KeyFilter` of a sequence with a known first element. */
  lemma KeyFilterCons<T>(a: T, t: seq<T>, key: T -> int, k: int)
    ensures KeyFilter([a] + t, key, k) == (if key(a) == k then [a] else []) + KeyFilter(t, key, k)
  {
    assert ([a] + t)[1..] == t;
  }

  /** Places `x` in front of the first element whose key does not exceed its own. */
  function Insert<T>(x: T, s: seq<T>, key: T -> int): (r: seq<T>)
    requires SortedDesc(s, key)
    ensures SortedDesc(r, key)
    ensures multiset(r) == multiset(s) + multiset{x}
    decreases |s|
  {
    if s == [] || key(s[0]) <= key(x) then
      HeadBoundsAll(s, key, x);
      ConsSorted(x, s, key);
      [x] + s
    else
      SortedDesc1(s, key);
      var tail := Insert(x, s[1..], key);
      assert s == [s[0]] + s[1..];
      HeadBoundsInserted(s, key, x, tail);
      ConsSorted(s[0], tail, key);
      [s[0]] + tail
  }

  /** An element whose key is at least the head's bounds a sorted sequence. */
  lemma HeadBoundsAll<T>(s: seq<T>, key: T -> int, x: T)
    requires SortedDesc(s, key) && (s == [] || key(s[0]) <= key(x))
    ensures forall y :: y in s ==> key(y) <= key(x)
  {
    forall y | y in s ensures key(y) <= key(x) {
      SortedHeadBound(s, key, y);
    }
  }

  /** The head of a sorted sequence bounds its tail with `x` added, when it
      bounds `x`. */
  lemma HeadBoundsInserted<T>(s: seq<T>, key: T -> int, x: T, tail: seq<T>)
    requires SortedDesc(s, key) && s != [] && key(x) < key(s[0])
    requires multiset(tail) == multiset(s[1..]) + multiset{x}
    ensures forall y :: y in tail ==> key(y) <= key(s[0])
  {
    forall y | y in tail ensures key(y) <= key(s[0]) {
      assert y in multiset(tail);
      if y != x {
        assert y in multiset(s[1..]);
        assert y in s[1..];
        SortedHeadBound(s, key, y);
      }
    }
  }

  /** Nothing in a sorted sequence has a key above the head's. */
  lemma SortedHeadBound<T>(s: seq<T>, key: T -> int, y: T)
    requires SortedDesc(s, key) && y in s
    ensures key(y) <= key(s[0])
  {
    var m :| 0 <= m < |s| && s[m] == y;
    if m > 0 {
      assert key(s[0]) >= key(s[m]);
    }
  }

  /** A head whose key bounds every key of a sorted tail keeps the order. */
  lemma ConsSorted<T>(a: T, t: seq<T>, key: T -> int)
    requires SortedDesc(t, key)
    requires forall y :: y in t ==> key(y) <= key(a)
    ensures SortedDesc([a] + t, key)
  {
    var r := [a] + t;
    forall i, j | 0 <= i < j < |r|
      ensures key(r[i]) >= key(r[j])
    {
      assert r[j] == t[j - 1] && r[j] in t;
      if i > 0 {
        assert r[i] == t[i - 1];
      }
    }
  }

  /** Inserting `x` adds it in front of the elements that share its key. */
  lemma {:induction false} InsertKeyFilter<T>(x: T, s: seq<T>, key: T -> int, k: int)
    requires SortedDesc(s, key)
    ensures KeyFilter(Insert(x, s, key), key, k) == (if key(x) == k then [x] else []) + KeyFilter(s, key, k)
    decreases |s|
  {
    if s == [] || key(s[0]) <= key(x) {
      assert Insert(x, s, key) == [x] + s;
      KeyFilterCons(x, s, key, k);
    } else {
      SortedDesc1(s, key);
      var tail := Insert(x, s[1..], key);
      assert Insert(x, s, key) == [s[0]] + tail;
      KeyFilterCons(s[0], tail, key, k);
      InsertKeyFilter(x, s[1..], key, k);
      KeyFilterCons(s[0], s[1..], key, k);
      assert s == [s[0]] + s[1..];
    }
  }

  /** The stable descending sort: insertion from the back of the list. */
  function SortDesc<T>(xs: seq<T>, key: T -> int): (r: seq<T>)
    ensures SortedDesc(r, key)
    ensures multiset(r) == multiset(xs)
    ensures forall k :: KeyFilter(r, key, k) == KeyFilter(xs, key, k)
    decreases |xs|
  {
    if xs == [] then []
    else
      var rest := SortDesc(xs[1..], key);
      assert xs == [xs[0]] + xs[1..];
      assert forall k :: KeyFilter(Insert(xs[0], rest, key), key, k) == KeyFilter(xs, key, k) by {
        forall k
          ensures KeyFilter(Insert(xs[0], rest, key), key, k) == KeyFilter(xs, key, k)
        {
          InsertKeyFilter(xs[0], rest, key, k);
        }
      }
      Insert(xs[0], rest, key)
  }

  /** The sort is determined by its contract: any arrangement of `xs` in
      non-increasing key order that keeps equal keys in their original order
      is the one `SortDesc` returns. */
  lemma {:induction false} SortDescUnique<T>(xs: seq<T>, ys: seq<T>, key: T -> int)
    requires SortedDesc(ys, key)
    requires forall k :: KeyFilter(ys, key, k) == KeyFilter(xs, key, k)
    ensures ys == SortDesc(xs, key)
  {
    var zs := SortDesc(xs, key);
    SortedSameFiltersEqual(ys, zs, key);
  }

  /** Two key-sorted sequences with the same per-key subsequences are equal. */
  lemma {:induction false} SortedSameFiltersEqual<T>(ys: seq<T>, zs: seq<T>, key: T -> int)
    requires SortedDesc(ys, key) && SortedDesc(zs, key)
    requires forall k :: KeyFilter(ys, key, k) == KeyFilter(zs, key, k)
    ensures ys == zs
    decreases |ys| + |zs|
  {
    if ys == [] && zs == [] {
    } else if ys == [] {
      KeyFilterHead(zs, key);
      assert false;
    } else if zs == [] {
      KeyFilterHead(ys, key);
      assert false;
    } else {
      var ky, kz := key(ys[0]), key(zs[0]);
      if ky < kz {
        // zs[0] has key kz, so ys must hold an element of key kz; but every key of ys is <= ky
        KeyFilterBelowHead(ys, key, kz);
        KeyFilterHead(zs, key);
        assert false;
      } else if kz < ky {
        KeyFilterBelowHead(zs, key, ky);
        KeyFilterHead(ys, key);
        assert false;
      } else {
        assert KeyFilter(ys, key, ky)[0] == ys[0];
        assert KeyFilter(zs, key, ky)[0] == zs[0];
        assert ys[0] == zs[0];
        forall k
          ensures KeyFilter(ys[1..], key, k) == KeyFilter(zs[1..], key, k)
        {
          var head: seq<T> := if ky == k then [ys[0]] else [];
          assert KeyFilter(ys, key, k) == head + KeyFilter(ys[1..], key, k);
          assert KeyFilter(zs, key, k) == head + KeyFilter(zs[1..], key, k);
          assert (head + KeyFilter(ys[1..], key, k))[|head|..] == KeyFilter(ys[1..], key, k);
          assert (head + KeyFilter(zs[1..], key, k))[|head|..] == KeyFilter(zs[1..], key, k);
        }
        SortedDesc1(ys, key);
        SortedDesc1(zs, key);
        SortedSameFiltersEqual(ys[1..], zs[1..], key);
        assert ys == [ys[0]] + ys[1..];
        assert zs == [zs[0]] + zs[1..];
      }
    }
  }

  /** The head of a non-empty sequence shows up among the elements of its key. */
  lemma KeyFilterHead<T>(s: seq<T>, key: T -> int)
    ensures s != [] ==> KeyFilter(s, key, key(s[0])) != []
  {
  }

  lemma SortedDesc1<T>(s: seq<T>, key: T -> int)
    requires SortedDesc(s, key) && s != []
    ensures SortedDesc(s[1..], key)
  {
    forall i, j | 0 <= i < j < |s| - 1
      ensures key(s[1..][i]) >= key(s[1..][j])
    {
      assert s[1..][i] == s[i + 1] && s[1..][j] == s[j + 1];
    }
  }

  /** In a sorted sequence nothing has a key above the head's. */
  lemma {:induction false} KeyFilterBelowHead<T>(s: seq<T>, key: T -> int, k: int)
    requires SortedDesc(s, key) && s != [] && k > key(s[0])
    ensures KeyFilter(s, key, k) == []
    decreases |s|
  {
    if |s| > 1 {
      assert key(s[1]) <= key(s[0]);
      SortedDesc1(s, key);
      KeyFilterBelowHead(s[1..], key, k);
    } else {
      assert s[1..] == [];
    }
  }

  /** The condition `key(x) > 0`. */
  function Positive<T>(key: T -> int): T -> bool {
    (x: T) => key(x) > 0
  }

  /** Keeping the positive keys keeps each positive key's run whole. */
  lemma {:induction false} PositiveKeyFilter<T(!new)>(s: seq<T>, key: T -> int)
    ensures forall k :: KeyFilter(Where(s, Positive(key)), key, k) ==
                        (if k > 0 then KeyFilter(s, key, k) else [])
    decreases |s|
  {
    if s != [] {
      PositiveKeyFilter(s[1..], key);
      var rest := Where(s[1..], Positive(key));
      var kept := Where(s, Positive(key));
      if key(s[0]) > 0 {
        assert kept == [s[0]] + rest;
        forall k
          ensures KeyFilter(kept, key, k) == (if k > 0 then KeyFilter(s, key, k) else [])
        {
          KeyFilterCons(s[0], rest, key, k);
        }
      } else {
        assert kept == rest;
        forall k
          ensures KeyFilter(kept, key, k) == (if k > 0 then KeyFilter(s, key, k) else [])
        {
          assert k > 0 ==> KeyFilter(s, key, k) == KeyFilter(s[1..], key, k);
        }
      }
    }
  }

  /** The elements with a positive key, sorted on it: the scoring loop of a
      search followed by its sort. */
  function RankByPositive<T(!new)>(s: seq<T>, key: T -> int): (r: seq<T>)
    ensures forall i :: 0 <= i < |r| ==> key(r[i]) > 0
    ensures SortedDesc(r, key)
    ensures forall k :: KeyFilter(r, key, k) == (if k > 0 then KeyFilter(s, key, k) else [])
    ensures forall x :: multiset(r)[x] == (if key(x) > 0 then multiset(s)[x] else 0)
  {
    var scored := Where(s, Positive(key));
    PositiveKeyFilter(s, key);
    var r := SortDesc(scored, key);
    PositiveAll(scored, r, key);
    r
  }

  lemma PositiveAll<T(!new)>(scored: seq<T>, r: seq<T>, key: T -> int)
    requires forall x :: multiset(scored)[x] == (if key(x) > 0 then multiset(scored)[x] else 0)
    requires multiset(r) == multiset(scored)
    ensures forall i :: 0 <= i < |r| ==> key(r[i]) > 0
  {
    forall i | 0 <= i < |r| ensures key(r[i]) > 0 {
      assert r[i] in multiset(r);
    }
  }
}
