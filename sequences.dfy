/** Order-preserving filtering and a stable sort by a numeric key: the list
    operations that Python's `list.sort(key=...)` and pandas' boolean masks and
    `sort_values` perform on the scripts' tables. */
module Sequences {

  import opened Wrappers

  /** The elements of `s` that satisfy `p`, in their original order. */
  function Filter<T(!new)>(s: seq<T>, p: T -> bool): (r: seq<T>)
    ensures |r| <= |s|
    ensures forall x :: x in r <==> x in s && p(x)
    ensures forall x :: multiset(r)[x] == if p(x) then multiset(s)[x] else 0
    ensures forall i :: 0 <= i < |r| ==> p(r[i])
    decreases |s|
  {
    if s == [] then []
    else
      var rest := Filter(s[1..], p);
      assert s == [s[0]] + s[1..];
      if p(s[0]) then [s[0]] + rest else rest
  }

  /** A non-empty sequence is its front followed by its last element, and
      so holds exactly what they hold. */
  lemma {:induction false} InitLast<T>(s: seq<T>)
    requires s != []
    ensures s == s[..|s| - 1] + [s[|s| - 1]]
    ensures forall x :: x in s <==> x in s[..|s| - 1] || x == s[|s| - 1]
  {
    assert s == s[..|s| - 1] + [s[|s| - 1]];
  }

  /** Filtering commutes with concatenation. */
  lemma {:induction false} FilterAppend<T(!new)>(a: seq<T>, b: seq<T>, p: T -> bool)
    ensures Filter(a + b, p) == Filter(a, p) + Filter(b, p)
    decreases |a|
  {
    if a == [] {
      assert a + b == b;
    } else {
      assert (a + b)[1..] == a[1..] + b;
      assert (a + b)[0] == a[0];
      FilterAppend(a[1..], b, p);
    }
  }

  predicate SortedBy<T(!new)>(s: seq<T>, key: T -> real) {
    forall i, j :: 0 <= i < j < |s| ==> key(s[i]) <= key(s[j])
  }

  /** Puts `x` in front of the first element whose key is not smaller, so
      that `x` precedes the elements of equal key already in `s`. */
  function Insert<T(!new)>(x: T, s: seq<T>, key: T -> real): (r: seq<T>)
    requires SortedBy(s, key)
    ensures SortedBy(r, key)
    ensures multiset(r) == multiset(s) + multiset{x}
    ensures |r| == |s| + 1
    decreases |s|
  {
    if s == [] || key(x) <= key(s[0]) then [x] + s
    else
      assert SortedBy(s[1..], key) by {
        forall i, j | 0 <= i < j < |s[1..]| ensures key(s[1..][i]) <= key(s[1..][j]) {
          assert s[1..][i] == s[i + 1] && s[1..][j] == s[j + 1];
        }
      }
      var rest := Insert(x, s[1..], key);
      assert s == [s[0]] + s[1..];
      BoundBelow(s[0], x, s[1..], rest, key);
      SortedCons(s[0], rest, key);
      [s[0]] + rest
  }

  /** An element no greater than everything in a sorted sequence can go in
      front of it. */
  lemma {:induction false} SortedCons<T(!new)>(h: T, rest: seq<T>, key: T -> real)
    requires SortedBy(rest, key)
    requires forall k :: 0 <= k < |rest| ==> key(h) <= key(rest[k])
    ensures SortedBy([h] + rest, key)
  {
    var r := [h] + rest;
    forall i, j | 0 <= i < j < |r| ensures key(r[i]) <= key(r[j]) {
      assert r[j] == rest[j - 1];
      if i > 0 {
        assert r[i] == rest[i - 1];
      }
    }
  }

  /** Every element of `rest`, a permutation of `tail` plus `x`, has a key at
      least that of `h` when `x` and every element of `tail` do. */
  lemma {:induction false} BoundBelow<T(!new)>(h: T, x: T, tail: seq<T>, rest: seq<T>, key: T -> real)
    requires multiset(rest) == multiset(tail) + multiset{x}
    requires key(h) <= key(x)
    requires forall k :: 0 <= k < |tail| ==> key(h) <= key(tail[k])
    ensures forall k :: 0 <= k < |rest| ==> key(h) <= key(rest[k])
  {
    forall k | 0 <= k < |rest|
      ensures key(h) <= key(rest[k])
    {
      assert rest[k] in multiset(rest);
      if rest[k] != x {
        assert rest[k] in multiset(tail);
        var m :| 0 <= m < |tail| && tail[m] == rest[k];
      }
    }
  }

  /** Stable insertion sort of `s` by `key`. */
  function SortBy<T(!new)>(s: seq<T>, key: T -> real): (r: seq<T>)
    ensures SortedBy(r, key)
    ensures multiset(r) == multiset(s)
    ensures |r| == |s|
    decreases |s|
  {
    if s == [] then []
    else
      assert s == [s[0]] + s[1..];
      Insert(s[0], SortBy(s[1..], key), key)
  }

  /** The elements of `s` whose key is `v`, in their original order. */
  function KeyClass<T(!new)>(s: seq<T>, key: T -> real, v: real): seq<T>
    decreases |s|
  {
    if s == [] then [] else (if key(s[0]) == v then [s[0]] else []) + KeyClass(s[1..], key, v)
  }

  lemma {:induction false} InsertKeyClass<T(!new)>(x: T, s: seq<T>, key: T -> real, v: real)
    requires SortedBy(s, key)
    ensures KeyClass(Insert(x, s, key), key, v)
         == (if key(x) == v then [x] else []) + KeyClass(s, key, v)
    decreases |s|
  {
    if s == [] || key(x) <= key(s[0]) {
      assert ([x] + s)[1..] == s;
    } else {
      var rest := Insert(x, s[1..], key);
      var here := if key(s[0]) == v then [s[0]] else [];
      var mine := if key(x) == v then [x] else [];
      assert ([s[0]] + rest)[1..] == rest;
      assert KeyClass(Insert(x, s, key), key, v) == here + KeyClass(rest, key, v);
      InsertKeyClass(x, s[1..], key, v);
      assert KeyClass(s, key, v) == here + KeyClass(s[1..], key, v);
      // x sorts after s[0], so at most one of the two carries the key v.
      assert here == [] || mine == [];
    }
  }

  /** Stability: sorting keeps, for every key, the relative order of the
      elements carrying it. Together with sortedness and the multiset this is
      what a stable sort promises. */
  lemma {:induction false} SortByStable<T(!new)>(s: seq<T>, key: T -> real, v: real)
    ensures KeyClass(SortBy(s, key), key, v) == KeyClass(s, key, v)
    decreases |s|
  {
    if s != [] {
      SortByStable(s[1..], key, v);
      InsertKeyClass(s[0], SortBy(s[1..], key), key, v);
    }
  }

  /** Sorting by an optional value with the missing ones last, as pandas'
      `sort_values(na_position='last')` does; `descending` reverses the order
      of the present values. */
  function SortNoneLast<T(!new)>(s: seq<T>, val: T -> Option<real>, descending: bool): (r: seq<T>)
    ensures multiset(r) == multiset(s)
    ensures |r| == |s|
    ensures forall i, j :: 0 <= i < j < |r| && val(r[j]).Some? ==> val(r[i]).Some?
    ensures forall i, j :: 0 <= i < j < |r| && val(r[i]).Some? && val(r[j]).Some? ==>
              if descending then val(r[i]).value >= val(r[j]).value
              else val(r[i]).value <= val(r[j]).value
  {
    var present := Filter(s, x => val(x).Some?);
    var missing := Filter(s, x => val(x).None?);
    var sorted := SortBy(present, OrderKey(val, descending));
    SplitMultiset(s, present, missing, val);
    PresentFirst(sorted, missing, present, val, descending);
    sorted + missing
  }

  /** The sort key: the value, negated for a descending order. */
  function OrderKey<T>(val: T -> Option<real>, descending: bool): T -> real {
    x => match val(x)
         case Some(v) => if descending then -v else v
         case None => 0.0
  }

  lemma {:induction false} SplitMultiset<T(!new)>(s: seq<T>, present: seq<T>, missing: seq<T>, val: T -> Option<real>)
    requires forall x :: multiset(present)[x] == if val(x).Some? then multiset(s)[x] else 0
    requires forall x :: multiset(missing)[x] == if val(x).None? then multiset(s)[x] else 0
    ensures multiset(s) == multiset(present) + multiset(missing)
  {
    forall x
      ensures multiset(s)[x] == (multiset(present) + multiset(missing))[x]
    {
    }
  }

  lemma {:induction false} PresentFirst<T(!new)>(sorted: seq<T>, missing: seq<T>, present: seq<T>,
                              val: T -> Option<real>, descending: bool)
    requires multiset(sorted) == multiset(present)
    requires forall i :: 0 <= i < |present| ==> val(present[i]).Some?
    requires forall i :: 0 <= i < |missing| ==> val(missing[i]).None?
    requires SortedBy(sorted, OrderKey(val, descending))
    ensures forall i, j :: 0 <= i < j < |sorted + missing| && val((sorted + missing)[j]).Some? ==>
              val((sorted + missing)[i]).Some?
    ensures forall i, j ::
              (0 <= i < j < |sorted + missing| &&
               val((sorted + missing)[i]).Some? && val((sorted + missing)[j]).Some?) ==>
              if descending then val((sorted + missing)[i]).value >= val((sorted + missing)[j]).value
              else val((sorted + missing)[i]).value <= val((sorted + missing)[j]).value
  {
    var r := sorted + missing;
    forall i | 0 <= i < |sorted|
      ensures val(sorted[i]).Some?
    {
      assert sorted[i] in multiset(present);
      var m :| 0 <= m < |present| && present[m] == sorted[i];
    }
    forall i, j | 0 <= i < j < |r| && val(r[j]).Some?
      ensures val(r[i]).Some?
    {
      assert r[i] == sorted[i];
    }
    forall i, j | 0 <= i < j < |r| && val(r[i]).Some? && val(r[j]).Some?
      ensures if descending then val(r[i]).value >= val(r[j]).value
              else val(r[i]).value <= val(r[j]).value
    {
      assert r[i] == sorted[i] && r[j] == sorted[j];
      assert OrderKey(val, descending)(sorted[i]) <= OrderKey(val, descending)(sorted[j]);
    }
  }

  /** No two elements of `s` share a key. */
  predicate DistinctBy<T, K(==)>(s: seq<T>, key: T -> K) {
    forall i, j :: 0 <= i < j < |s| ==> key(s[i]) != key(s[j])
  }

  /** An element whose key no other element shares occurs once. */
  lemma {:induction false} DistinctByOnce<T(!new), K>(a: seq<T>, key: T -> K, p: int)
    requires DistinctBy(a, key) && 0 <= p < |a|
    ensures multiset(a)[a[p]] == 1
  {
    forall k | 0 <= k < |a| && k != p ensures a[k] != a[p] {
      if k < p {
        assert key(a[k]) != key(a[p]);
      } else {
        assert key(a[p]) != key(a[k]);
      }
    }
    assert a == a[..p] + [a[p]] + a[p + 1..];
    assert a[p] !in a[..p];
    assert a[p] !in a[p + 1..];
  }

  /** An element at two positions occurs at least twice. */
  lemma {:induction false} AtTwoPositions<T>(b: seq<T>, i: int, j: int)
    requires 0 <= i < j < |b| && b[i] == b[j]
    ensures multiset(b)[b[i]] >= 2
  {
    assert b == b[..j] + b[j..];
    assert b[i] in b[..j];
    assert b[j] in b[j..];
  }

  /** A permutation of a list with distinct keys has distinct keys. */
  lemma {:induction false} PermutationDistinctBy<T(!new), K>(a: seq<T>, b: seq<T>, key: T -> K)
    requires multiset(a) == multiset(b) && DistinctBy(a, key)
    ensures DistinctBy(b, key)
  {
    forall i, j | 0 <= i < j < |b| ensures key(b[i]) != key(b[j]) {
      if key(b[i]) == key(b[j]) {
        assert b[i] in multiset(a) && b[j] in multiset(a);
        var p :| 0 <= p < |a| && a[p] == b[i];
        var q :| 0 <= q < |a| && a[q] == b[j];
        if p == q {
          AtTwoPositions(b, i, j);
          DistinctByOnce(a, key, p);
        }
      }
    }
  }

  /** Concatenating two lists with distinct keys and no key in common keeps
      the keys distinct. */
  lemma {:induction false} DistinctByAppend<T, K>(a: seq<T>, b: seq<T>, key: T -> K)
    requires DistinctBy(a, key) && DistinctBy(b, key)
    requires forall i, j :: 0 <= i < |a| && 0 <= j < |b| ==> key(a[i]) != key(b[j])
    ensures DistinctBy(a + b, key)
  {
    forall i, j | 0 <= i < j < |a + b| ensures key((a + b)[i]) != key((a + b)[j]) {
      if j < |a| {
        assert (a + b)[i] == a[i] && (a + b)[j] == a[j];
      } else if i < |a| {
        assert (a + b)[i] == a[i] && (a + b)[j] == b[j - |a|];
      } else {
        assert (a + b)[i] == b[i - |a|] && (a + b)[j] == b[j - |a|];
      }
    }
  }

  /** `list.index`: the position of the first occurrence of `x`. */
  function IndexOf<T(==)>(s: seq<T>, x: T): (i: nat)
    requires x in s
    ensures i < |s| && s[i] == x
    ensures forall j :: 0 <= j < i ==> s[j] != x
  {
    if s[0] == x then 0 else 1 + IndexOf(s[1..], x)
  }
}
