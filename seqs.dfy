/**
 * Collection helpers shared by the fashion editor and the milestone list:
 * the handful of lodash / JavaScript collection operations the components
 * rely on (filter, groupBy, maxBy over group sizes, a stable sortBy, uniqBy,
 * Object.fromEntries), each stated by what its result means.
 */
module Seqs {

  /** A value that may be absent (JavaScript `undefined`). */
  datatype Option<+T> = None | Some(value: T) {
    /** `x ?? default` */
    function GetOr(default: T): T {
      match this
      case Some(v) => v
      case None => default
    }
  }

  /** A finite set is empty or has a member. */
  lemma Inhabited(s: set<int>)
    ensures s == {} || exists x :: x in s
  {
    if forall x :: x !in s {
      assert s == {};
    }
  }

  lemma MinExists(s: set<int>)
    requires s != {}
    ensures exists k :: k in s && forall j :: j in s ==> k <= j
  {
    Inhabited(s);
    var x :| x in s;
    var rest := s - {x};
    if rest == {} {
      MinOfSingleton(s, x);
    } else {
      MinExists(rest);
      var y :| y in rest && forall j :: j in rest ==> y <= j;
      MinOfInsert(s, x, y);
    }
  }

  lemma MinOfSingleton(s: set<int>, x: int)
    requires x in s && s - {x} == {}
    ensures forall j :: j in s ==> x <= j
  {
    forall j | j in s ensures x <= j {
      assert j !in s - {x};
    }
  }

  lemma MinOfInsert(s: set<int>, x: int, y: int)
    requires x in s && y in s - {x} && forall j :: j in s - {x} ==> y <= j
    ensures exists k :: k in s && forall j :: j in s ==> k <= j
  {
    var least := if x < y then x else y;
    forall j | j in s ensures least <= j {
      if j != x {
        assert j in s - {x};
      }
    }
    assert least in s;
  }

  /** The least member of a non-empty set of integers. */
  function MinKey(s: set<int>): (k: int)
    requires s != {}
    ensures k in s && forall j :: j in s ==> k <= j
  {
    MinExists(s);
    var k :| k in s && forall j :: j in s ==> k <= j;
    k
  }

  /** Taking out a member other than the least leaves the least in place. */
  lemma MinKeyRemove(s: set<int>, b: int)
    requires b in s && b != MinKey(s)
    ensures s - {b} != {} && MinKey(s - {b}) == MinKey(s)
  {
    var k := MinKey(s);
    assert k in s - {b};
    var k2 := MinKey(s - {b});
    assert k <= k2 && k2 <= k;
  }

  /** Number of occurrences of `x` in `s`. */
  function Count<T(==)>(s: seq<T>, x: T): (n: nat)
    ensures n <= |s|
    ensures n > 0 <==> x in s
  {
    if s == [] then 0 else (if s[0] == x then 1 else 0) + Count(s[1..], x)
  }

  /** `Count` is the multiplicity of `x` in the multiset of `s`. */
  lemma {:induction false} CountIsMultiplicity<T>(s: seq<T>, x: T)
    ensures Count(s, x) == multiset(s)[x]
  {
    if s != [] {
      CountIsMultiplicity(s[1..], x);
      assert s == [s[0]] + s[1..];
    }
  }

  lemma {:induction false} CountAppend<T>(a: seq<T>, b: seq<T>, x: T)
    ensures Count(a + b, x) == Count(a, x) + Count(b, x)
  {
    if a == [] {
      assert a + b == b;
    } else {
      assert (a + b)[1..] == a[1..] + b;
      CountAppend(a[1..], b, x);
    }
  }

  /** `s.filter(p)`: the elements satisfying `p`, in order. */
  function Filter<T>(s: seq<T>, p: T -> bool): (r: seq<T>)
    ensures |r| <= |s|
    ensures forall x :: x in r ==> x in s && p(x)
    ensures forall x :: x in s && p(x) ==> x in r
  {
    if s == [] then [] else (if p(s[0]) then [s[0]] else []) + Filter(s[1..], p)
  }

  /** `filter` keeps every element satisfying `p` as often as it occurs, and no other. */
  lemma {:induction false} FilterCount<T>(s: seq<T>, p: T -> bool)
    ensures forall x :: x in s ==> multiset(Filter(s, p))[x] == if p(x) then multiset(s)[x] else 0
  {
    if s != [] {
      FilterCount(s[1..], p);
      assert s == [s[0]] + s[1..];
    }
  }

  /** `filter` distributes over concatenation, so it keeps the input order. */
  lemma {:induction false} FilterAppend<T>(a: seq<T>, b: seq<T>, p: T -> bool)
    ensures Filter(a + b, p) == Filter(a, p) + Filter(b, p)
  {
    if a == [] {
      assert a + b == b;
    } else {
      assert (a + b)[0] == a[0];
      assert (a + b)[1..] == a[1..] + b;
      FilterAppend(a[1..], b, p);
    }
  }

  /** `Filter(s, p)` starts with the first element that satisfies `p`. */
  lemma {:induction false} FilterHead<T>(s: seq<T>, p: T -> bool)
    requires Filter(s, p) != []
    ensures exists i :: 0 <= i < |s| && s[i] == Filter(s, p)[0] && p(s[i]) && forall j :: 0 <= j < i ==> !p(s[j])
  {
    if !p(s[0]) {
      FilterHead(s[1..], p);
      var i :| 0 <= i < |s[1..]| && s[1..][i] == Filter(s[1..], p)[0] && p(s[1..][i])
        && forall j :: 0 <= j < i ==> !p(s[1..][j]);
      assert s[i + 1] == s[1..][i];
      forall j | 0 <= j < i + 1 ensures !p(s[j]) {
        if j > 0 {
          assert s[j] == s[1..][j - 1];
        }
      }
    }
  }

  /** The first of `cands` that occurs at least as often in `xs` as every other candidate. */
  function Best<T(==)>(cands: seq<T>, xs: seq<T>): (r: T)
    requires cands != []
    ensures r in cands
    ensures forall c :: c in cands ==> Count(xs, c) <= Count(xs, r)
  {
    if |cands| == 1 then cands[0]
    else
      var rest := Best(cands[1..], xs);
      if Count(xs, cands[0]) >= Count(xs, rest) then cands[0] else rest
  }

  /**
   * `_.maxBy(Object.values(_.groupBy(xs, key)), g => g.length)` read as a
   * value: an element of `xs` that occurs at least as often as any other,
   * or None when `xs` is empty.
   */
  function MostCommon<T(==)>(xs: seq<T>): (r: Option<T>)
    ensures r.None? <==> xs == []
    ensures r.Some? ==> r.value in xs && forall x :: x in xs ==> Count(xs, x) <= Count(xs, r.value)
  {
    if xs == [] then None else Some(Best(xs, xs))
  }

  /** The elements of `s` whose key is `k`, in order (one group of `_.groupBy`). */
  function WithKey<T, K(==)>(s: seq<T>, key: T -> K, k: K): (r: seq<T>)
    ensures |r| <= |s|
    ensures forall x :: x in r ==> x in s && key(x) == k
    ensures forall x :: x in s && key(x) == k ==> x in r
  {
    if s == [] then [] else (if key(s[0]) == k then [s[0]] else []) + WithKey(s[1..], key, k)
  }

  /** A group holds every element of its key as often as the input does, and no other element. */
  lemma {:induction false} WithKeyCount<T, K>(s: seq<T>, key: T -> K, k: K)
    ensures forall x :: x in s ==> multiset(WithKey(s, key, k))[x] == if key(x) == k then multiset(s)[x] else 0
  {
    if s != [] {
      WithKeyCount(s[1..], key, k);
      assert s == [s[0]] + s[1..];
    }
  }

  /** A group of `a + b` is the group of `a` followed by the group of `b`: input order is kept. */
  lemma {:induction false} WithKeyAppend<T, K>(a: seq<T>, b: seq<T>, key: T -> K, k: K)
    ensures WithKey(a + b, key, k) == WithKey(a, key, k) + WithKey(b, key, k)
  {
    if a == [] {
      assert a + b == b;
    } else {
      assert (a + b)[0] == a[0];
      assert (a + b)[1..] == a[1..] + b;
      WithKeyAppend(a[1..], b, key, k);
    }
  }

  /** `x` occurs in `s` somewhere before `y`. */
  ghost predicate Before<T>(s: seq<T>, x: T, y: T) {
    exists i, j :: 0 <= i < j < |s| && s[i] == x && s[j] == y
  }

  /** Two elements of one key keep their relative order in that key's group. */
  lemma {:induction false} WithKeyKeepsBefore<T, K>(s: seq<T>, key: T -> K, k: K, i: nat, j: nat)
    requires i < j < |s| && key(s[i]) == k && key(s[j]) == k
    ensures Before(WithKey(s, key, k), s[i], s[j])
  {
    var rest := WithKey(s[1..], key, k);
    assert s[j] == s[1..][j - 1];
    if i == 0 {
      assert WithKey(s, key, k) == [s[0]] + rest;
      BeforeCons(s[0], rest, s[0], s[j]);
    } else {
      assert s[i] == s[1..][i - 1];
      WithKeyKeepsBefore(s[1..], key, k, i - 1, j - 1);
      if key(s[0]) == k {
        assert WithKey(s, key, k) == [s[0]] + rest;
        BeforeCons(s[0], rest, s[i], s[j]);
      } else {
        assert WithKey(s, key, k) == rest;
      }
    }
  }

  /** An order seen in a group was already there in the input. */
  lemma {:induction false} WithKeyBeforeReflects<T, K>(s: seq<T>, key: T -> K, k: K, x: T, y: T)
    requires Before(WithKey(s, key, k), x, y)
    ensures Before(s, x, y)
  {
    var rest := WithKey(s[1..], key, k);
    assert s == [s[0]] + s[1..];
    if key(s[0]) == k {
      assert WithKey(s, key, k) == [s[0]] + rest;
      BeforeCons(s[0], rest, x, y);
      if Before(rest, x, y) {
        WithKeyBeforeReflects(s[1..], key, k, x, y);
      }
      BeforeCons(s[0], s[1..], x, y);
    } else {
      assert WithKey(s, key, k) == rest;
      WithKeyBeforeReflects(s[1..], key, k, x, y);
      BeforeCons(s[0], s[1..], x, y);
    }
  }

  /** `x` before `y` in `[a] + s`: either `x` is the head and `y` is in `s`, or the order is already in `s`. */
  lemma BeforeCons<T>(a: T, s: seq<T>, x: T, y: T)
    ensures Before([a] + s, x, y) <==> (a == x && y in s) || Before(s, x, y)
  {
    var t := [a] + s;
    if Before(t, x, y) {
      var p, q :| 0 <= p < q < |t| && t[p] == x && t[q] == y;
      if p > 0 {
        assert s[p - 1] == x && s[q - 1] == y;
      } else {
        assert s[q - 1] == y;
      }
    }
    if a == x && y in s {
      var q :| 0 <= q < |s| && s[q] == y;
      assert t[0] == x && t[q + 1] == y;
    }
    if Before(s, x, y) {
      var p, q :| 0 <= p < q < |s| && s[p] == x && s[q] == y;
      assert t[p + 1] == x && t[q + 1] == y;
    }
  }

  /** `_.groupBy(s, key)`: one non-empty group per key that occurs, each in input order. */
  function GroupBy<T(==), K(==)>(s: seq<T>, key: T -> K): (g: map<K, seq<T>>)
    ensures g.Keys == set x | x in s :: key(x)
    ensures forall x :: x in s ==> key(x) in g && x in g[key(x)]
    ensures forall k :: k in g ==> g[k] == WithKey(s, key, k) && g[k] != []
  {
    map k | k in (set x | x in s :: key(x)) :: WithKey(s, key, k)
  }

  /** Ascending by `key`. */
  ghost predicate SortedBy<T>(s: seq<T>, key: T -> int) {
    forall i, j :: 0 <= i < j < |s| ==> key(s[i]) <= key(s[j])
  }

  /** Inserts `x` in front of the first element with a larger key. */
  function Insert<T>(x: T, t: seq<T>, key: T -> int): seq<T> {
    if t == [] then [x]
    else if key(x) <= key(t[0]) then [x] + t
    else [t[0]] + Insert(x, t[1..], key)
  }

  lemma {:induction false} InsertPermutes<T>(x: T, t: seq<T>, key: T -> int)
    ensures multiset(Insert(x, t, key)) == multiset(t) + multiset{x}
  {
    if t != [] && key(x) > key(t[0]) {
      InsertPermutes(x, t[1..], key);
      assert t == [t[0]] + t[1..];
    }
  }

  lemma {:induction false} InsertSorted<T>(x: T, t: seq<T>, key: T -> int)
    requires SortedBy(t, key)
    ensures SortedBy(Insert(x, t, key), key)
  {
    if t != [] && key(x) > key(t[0]) {
      var rest := Insert(x, t[1..], key);
      InsertSorted(x, t[1..], key);
      InsertPermutes(x, t[1..], key);
      var r := [t[0]] + rest;
      assert t == [t[0]] + t[1..];
      forall j | 0 < j < |r| ensures key(t[0]) <= key(r[j]) {
        assert r[j] == rest[j - 1];
        assert r[j] in multiset(rest);
        if r[j] != x {
          assert r[j] in multiset(t[1..]);
          var k :| 0 <= k < |t[1..]| && t[1..][k] == r[j];
          assert t[k + 1] == r[j];
        }
      }
    }
  }

  /** `_.sortBy(s, key)`: a stable sort, ascending by `key`. */
  function SortBy<T>(s: seq<T>, key: T -> int): (r: seq<T>)
    ensures multiset(r) == multiset(s)
    ensures SortedBy(r, key)
  {
    if s == [] then []
    else
      assert s == [s[0]] + s[1..];
      var t := SortBy(s[1..], key);
      InsertSorted(s[0], t, key);
      InsertPermutes(s[0], t, key);
      Insert(s[0], t, key)
  }

  lemma WithKeyCons<T, K>(a: T, s: seq<T>, key: T -> K, k: K)
    ensures WithKey([a] + s, key, k) == (if key(a) == k then [a] else []) + WithKey(s, key, k)
  {
    assert ([a] + s)[1..] == s;
  }

  lemma {:induction false} InsertStable<T>(x: T, t: seq<T>, key: T -> int, k: int)
    ensures WithKey(Insert(x, t, key), key, k) == (if key(x) == k then [x] else []) + WithKey(t, key, k)
  {
    if t == [] {
      WithKeyCons(x, [], key, k);
      assert [x] + [] == [x];
    } else if key(x) <= key(t[0]) {
      WithKeyCons(x, t, key, k);
    } else {
      InsertStable(x, t[1..], key, k);
      InsertStableStep(x, t, key, k);
    }
  }

  lemma InsertStableStep<T>(x: T, t: seq<T>, key: T -> int, k: int)
    requires t != [] && key(x) > key(t[0])
    requires WithKey(Insert(x, t[1..], key), key, k) == (if key(x) == k then [x] else []) + WithKey(t[1..], key, k)
    ensures WithKey(Insert(x, t, key), key, k) == (if key(x) == k then [x] else []) + WithKey(t, key, k)
  {
    var rest := Insert(x, t[1..], key);
    assert Insert(x, t, key) == [t[0]] + rest;
    WithKeyCons(t[0], rest, key, k);
    assert t == [t[0]] + t[1..];
    WithKeyCons(t[0], t[1..], key, k);
    SwapHeads(if key(x) == k then [x] else [], if key(t[0]) == k then [t[0]] else [], WithKey(t[1..], key, k));
  }

  lemma SwapHeads<T>(a: seq<T>, b: seq<T>, c: seq<T>)
    requires a == [] || b == []
    ensures b + (a + c) == a + (b + c)
  {
  }

  /** Stability: the elements sharing any one key keep their input order. */
  lemma {:induction false} SortByStable<T>(s: seq<T>, key: T -> int, k: int)
    ensures WithKey(SortBy(s, key), key, k) == WithKey(s, key, k)
  {
    if s != [] {
      SortByStable(s[1..], key, k);
      InsertStable(s[0], SortBy(s[1..], key), key, k);
    }
  }

  /** The index of the first element of `s` whose key is `k`, or `|s|` when there is none. */
  function FirstIndex<T, K(==)>(s: seq<T>, key: T -> K, k: K): (i: nat)
    ensures i <= |s|
    ensures forall j :: 0 <= j < i ==> key(s[j]) != k
    ensures i < |s| ==> key(s[i]) == k
  {
    if s == [] then 0
    else if key(s[0]) == k then 0
    else
      var rest := FirstIndex(s[1..], key, k);
      assert forall j :: 1 <= j < 1 + rest ==> s[j] == s[1..][j - 1];
      1 + rest
  }

  /** The first element of `s` whose key is `k`. */
  function FirstWithKey<T(==), K(==)>(s: seq<T>, key: T -> K, k: K): (r: Option<T>)
    ensures r.Some? ==> r.value in s && key(r.value) == k
    ensures r.None? <==> forall x :: x in s ==> key(x) != k
  {
    if s == [] then None
    else if key(s[0]) == k then Some(s[0])
    else FirstWithKey(s[1..], key, k)
  }

  lemma {:induction false} FirstWithKeyAppend<T, K>(a: seq<T>, b: seq<T>, key: T -> K, k: K)
    ensures FirstWithKey(a + b, key, k)
         == if FirstWithKey(a, key, k).Some? then FirstWithKey(a, key, k) else FirstWithKey(b, key, k)
  {
    if a == [] {
      assert a + b == b;
    } else {
      assert (a + b)[0] == a[0];
      assert (a + b)[1..] == a[1..] + b;
      FirstWithKeyAppend(a[1..], b, key, k);
    }
  }

  /** Any index before which no element has key `k`, and at which (if inside `s`) one has, is the first index of `k`. */
  lemma FirstIndexUnique<T, K>(s: seq<T>, key: T -> K, k: K, i: nat)
    requires i <= |s|
    requires forall j :: 0 <= j < i ==> key(s[j]) != k
    requires i < |s| ==> key(s[i]) == k
    ensures i == FirstIndex(s, key, k)
  {
  }

  /** A key first occurs inside the prefix `a` of `a + b` exactly when `a` has an element of that key. */
  lemma FirstIndexPrefix<T, K>(a: seq<T>, b: seq<T>, key: T -> K, k: K)
    ensures FirstIndex(a + b, key, k) < |a| <==> FirstWithKey(a, key, k).Some?
  {
    var i := FirstIndex(a + b, key, k);
    if i < |a| {
      assert (a + b)[i] == a[i];
      assert a[i] in a;
    }
    if FirstWithKey(a, key, k).Some? {
      var x := FirstWithKey(a, key, k).value;
      var t :| 0 <= t < |a| && a[t] == x;
      assert (a + b)[t] == x;
    }
  }

  /**
   * The loop of `uniqBy`: walks `s`, keeping an element when its key is not
   * in `seen` yet and adding the key to `seen`.
   */
  function UniqByFrom<T(==), K(==)>(s: seq<T>, key: T -> K, seen: set<K>): (r: seq<T>)
  {
    if s == [] then []
    else if key(s[0]) in seen then UniqByFrom(s[1..], key, seen)
    else [s[0]] + UniqByFrom(s[1..], key, seen + {key(s[0])})
  }

  lemma {:induction false} UniqByFromKeys<T, K>(s: seq<T>, key: T -> K, seen: set<K>)
    ensures forall i :: 0 <= i < |UniqByFrom(s, key, seen)| ==>
      key(UniqByFrom(s, key, seen)[i]) !in seen
      && FirstWithKey(s, key, key(UniqByFrom(s, key, seen)[i])) == Some(UniqByFrom(s, key, seen)[i])
  {
    if s != [] {
      if key(s[0]) in seen {
        UniqByFromKeys(s[1..], key, seen);
      } else {
        UniqByFromKeys(s[1..], key, seen + {key(s[0])});
      }
    }
  }

  lemma {:induction false} UniqByFromDistinct<T, K>(s: seq<T>, key: T -> K, seen: set<K>)
    ensures forall i, j :: 0 <= i < j < |UniqByFrom(s, key, seen)| ==>
      key(UniqByFrom(s, key, seen)[i]) != key(UniqByFrom(s, key, seen)[j])
  {
    if s != [] {
      if key(s[0]) in seen {
        UniqByFromDistinct(s[1..], key, seen);
      } else {
        var seen' := seen + {key(s[0])};
        var rest := UniqByFrom(s[1..], key, seen');
        UniqByFromDistinct(s[1..], key, seen');
        UniqByFromKeys(s[1..], key, seen');
        assert UniqByFrom(s, key, seen) == [s[0]] + rest;
      }
    }
  }

  lemma {:induction false} UniqByFromCovers<T, K>(s: seq<T>, key: T -> K, seen: set<K>, x: T)
    requires x in s && key(x) !in seen
    ensures exists i :: 0 <= i < |UniqByFrom(s, key, seen)| && key(UniqByFrom(s, key, seen)[i]) == key(x)
  {
    var r := UniqByFrom(s, key, seen);
    if key(s[0]) in seen {
      assert x != s[0] && x in s[1..];
      UniqByFromCovers(s[1..], key, seen, x);
    } else if key(x) == key(s[0]) {
      assert r[0] == s[0];
    } else {
      assert x in s[1..];
      var rest := UniqByFrom(s[1..], key, seen + {key(s[0])});
      UniqByFromCovers(s[1..], key, seen + {key(s[0])}, x);
      var i :| 0 <= i < |rest| && key(rest[i]) == key(x);
      assert r[i + 1] == rest[i];
    }
  }

  lemma {:induction false} UniqByFromOrder<T, K>(s: seq<T>, key: T -> K, seen: set<K>)
    ensures forall i, j :: 0 <= i < j < |UniqByFrom(s, key, seen)| ==>
      FirstIndex(s, key, key(UniqByFrom(s, key, seen)[i])) < FirstIndex(s, key, key(UniqByFrom(s, key, seen)[j]))
  {
    if s != [] {
      var seen' := if key(s[0]) in seen then seen else seen + {key(s[0])};
      var rest := UniqByFrom(s[1..], key, seen');
      UniqByFromOrder(s[1..], key, seen');
      UniqByFromKeys(s[1..], key, seen');
      assert forall i :: 0 <= i < |rest| ==> FirstIndex(s, key, key(rest[i])) == 1 + FirstIndex(s[1..], key, key(rest[i]));
      if key(s[0]) !in seen {
        assert UniqByFrom(s, key, seen) == [s[0]] + rest;
      }
    }
  }

  /**
   * `uniqBy(s, key)`: the first element of each key, in input order. Every
   * key of `s` is represented exactly once.
   */
  function UniqBy<T(==), K(==)>(s: seq<T>, key: T -> K): (r: seq<T>)
    ensures forall i, j :: 0 <= i < j < |r| ==> key(r[i]) != key(r[j])
    ensures forall i :: 0 <= i < |r| ==> FirstWithKey(s, key, key(r[i])) == Some(r[i])
    ensures forall x :: x in s ==> exists i :: 0 <= i < |r| && key(r[i]) == key(x)
    ensures forall i, j :: 0 <= i < j < |r| ==> FirstIndex(s, key, key(r[i])) < FirstIndex(s, key, key(r[j]))
  {
    UniqByFromKeys(s, key, {});
    UniqByFromOrder(s, key, {});
    UniqByFromDistinct(s, key, {});
    forall x | x in s ensures exists i :: 0 <= i < |UniqByFrom(s, key, {})| && key(UniqByFrom(s, key, {})[i]) == key(x) {
      UniqByFromCovers(s, key, {}, x);
    }
    UniqByFrom(s, key, {})
  }

  /**
   * `Object.fromEntries(es)`: later entries win; an entry whose value is
   * undefined (None) leaves its key absent.
   */
  function FromEntries<K(==), V>(es: seq<(K, Option<V>)>): (r: map<K, V>)
    ensures forall k :: k in r ==> exists i :: 0 <= i < |es| && es[i].0 == k
  {
    if es == [] then map[]
    else
      var init := es[..|es| - 1];
      var prev := FromEntries(init);
      assert forall i :: 0 <= i < |init| ==> init[i] == es[i];
      var (k, v) := es[|es| - 1];
      match v
      case None => prev - {k}
      case Some(x) => prev[k := x]
  }

  /** With distinct keys, each entry decides its own key. */
  lemma {:induction false} FromEntriesDistinct<K, V>(es: seq<(K, Option<V>)>, i: nat)
    requires forall a, b :: 0 <= a < b < |es| ==> es[a].0 != es[b].0
    requires i < |es|
    ensures es[i].0 in FromEntries(es) <==> es[i].1.Some?
    ensures es[i].1.Some? ==> FromEntries(es)[es[i].0] == es[i].1.value
  {
    var init := es[..|es| - 1];
    if i < |es| - 1 {
      assert init[i] == es[i];
      FromEntriesDistinct(init, i);
    }
  }

  /**
   * `Object.values(m)` of an object keyed by integers: the values in
   * ascending key order (the enumeration order of integer keys).
   */
  function Values<V>(m: map<int, V>): (r: seq<V>)
    ensures |r| == |m|
    ensures forall k :: k in m ==> m[k] in r
    ensures forall v :: v in r ==> exists k :: k in m && m[k] == v
    decreases |m|
  {
    if m.Keys == {} then
      assert m == map[];
      []
    else
      var k := MinKey(m.Keys);
      var rest := m - {k};
      assert forall c :: c in rest ==> rest[c] == m[c];
      [m[k]] + Values(rest)
  }

  /** `Object.values` lists the value of the least key first, then the values of the other keys. */
  lemma ValuesUnfold<V>(m: map<int, V>)
    requires m != map[]
    ensures m.Keys != {}
    ensures Values(m) == [m[MinKey(m.Keys)]] + Values(m - {MinKey(m.Keys)})
  {
    assert m.Keys == {} ==> m == map[];
  }

  /** `ss.flat()`: the lists concatenated in order. */
  function Flatten<T>(ss: seq<seq<T>>): (r: seq<T>)
    ensures forall i, x :: 0 <= i < |ss| && x in ss[i] ==> x in r
    ensures forall x :: x in r ==> exists i :: 0 <= i < |ss| && x in ss[i]
  {
    if ss == [] then []
    else
      var rest := Flatten(ss[1..]);
      assert forall i :: 1 <= i < |ss| ==> ss[i] == ss[1..][i - 1];
      assert forall x :: x in rest ==> exists i :: 0 <= i < |ss| && x in ss[i] by {
        forall x | x in rest ensures exists i :: 0 <= i < |ss| && x in ss[i] {
          var i :| 0 <= i < |ss[1..]| && x in ss[1..][i];
          assert x in ss[i + 1];
        }
      }
      ss[0] + rest
  }

  /** Flattening a single list gives that list. */
  lemma FlattenOne<T>(s: seq<T>)
    ensures Flatten([s]) == s
  {
    assert [s][1..] == [];
  }

  /** `flat` distributes over concatenation. */
  lemma {:induction false} FlattenAppend<T>(a: seq<seq<T>>, b: seq<seq<T>>)
    ensures Flatten(a + b) == Flatten(a) + Flatten(b)
  {
    if a == [] {
      assert a + b == b;
    } else {
      assert (a + b)[0] == a[0];
      assert (a + b)[1..] == a[1..] + b;
      FlattenAppend(a[1..], b);
    }
  }

  /** `s.flatMap(f)`: the images of the elements, concatenated in order. */
  function FlatMap<A, B>(s: seq<A>, f: A -> seq<B>): (r: seq<B>)
    ensures forall y :: y in r ==> exists x :: x in s && y in f(x)
    ensures forall x, y :: x in s && y in f(x) ==> y in r
  {
    if s == [] then []
    else
      var rest := FlatMap(s[1..], f);
      assert forall x :: x in s[1..] ==> x in s;
      assert forall x :: x in s ==> x == s[0] || x in s[1..];
      f(s[0]) + rest
  }

  /** `flatMap` over a single element gives that element's image. */
  lemma FlatMapOne<A, B>(x: A, f: A -> seq<B>)
    ensures FlatMap([x], f) == f(x)
  {
    assert [x][1..] == [];
  }

  /** `flatMap` distributes over concatenation. */
  lemma {:induction false} FlatMapAppend<A, B>(a: seq<A>, b: seq<A>, f: A -> seq<B>)
    ensures FlatMap(a + b, f) == FlatMap(a, f) + FlatMap(b, f)
  {
    if a == [] {
      assert a + b == b;
    } else {
      assert (a + b)[0] == a[0];
      assert (a + b)[1..] == a[1..] + b;
      FlatMapAppend(a[1..], b, f);
    }
  }
}
