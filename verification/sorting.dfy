/** LINQ's `OrderBy`/`ThenBy` family: a stable sort under a total preorder.
    Elements that the order cannot tell apart keep their input order. */
module Sorting {

  /** `le` is total and transitive: a comparison on sort keys. */
  ghost predicate TotalPreorder<T(!new)>(le: (T, T) -> bool) {
    (forall a: T, b: T :: le(a, b) || le(b, a))
    && (forall a: T, b: T, c: T :: le(a, b) && le(b, c) ==> le(a, c))
  }

  /** A total preorder that only relates equal elements both ways. */
  ghost predicate TotalOrder<T(!new)>(le: (T, T) -> bool) {
    TotalPreorder(le) && forall a: T, b: T :: le(a, b) && le(b, a) ==> a == b
  }

  predicate SortedBy<T>(s: seq<T>, le: (T, T) -> bool) {
    forall i, j | 0 <= i < j < |s| :: le(s[i], s[j])
  }

  /** The elements of `s` that `le` ranks equal to `v`, in input order. */
  function EquivalentsOf<T>(s: seq<T>, le: (T, T) -> bool, v: T): seq<T>
    decreases |s|
  {
    if |s| == 0 then []
    else (if le(s[0], v) && le(v, s[0]) then [s[0]] else []) + EquivalentsOf(s[1..], le, v)
  }

  function Insert<T(!new)>(x: T, s: seq<T>, le: (T, T) -> bool): (r: seq<T>)
    requires TotalPreorder(le)
    requires SortedBy(s, le)
    ensures SortedBy(r, le)
    ensures multiset(r) == multiset(s) + multiset{x}
    decreases |s|
  {
    if |s| == 0 then [x]
    else if le(x, s[0]) then
      assert forall j | 0 <= j < |s| :: le(x, s[j]) by {
        forall j | 0 <= j < |s|
          ensures le(x, s[j])
        {
          if j > 0 {
            assert le(s[0], s[j]);
          }
        }
      }
      assert s == [s[0]] + s[1..];
      [x] + s
    else
      var rest := Insert(x, s[1..], le);
      assert s == [s[0]] + s[1..];
      assert le(s[0], x);
      forall j | 0 <= j < |rest|
        ensures le(s[0], rest[j])
      {
        assert rest[j] in multiset(rest);
        if rest[j] != x {
          assert rest[j] in multiset(s[1..]);
          var k :| 0 <= k < |s[1..]| && s[1..][k] == rest[j];
          assert le(s[0], s[k + 1]);
        }
      }
      [s[0]] + rest
  }

  /** Inserting `x` adds it to its own equivalence class only, ahead of the
      elements it is equivalent to: this is what makes the sort stable. */
  lemma {:induction false} InsertEquivalents<T(!new)>(x: T, s: seq<T>, le: (T, T) -> bool, v: T)
    requires TotalPreorder(le)
    requires SortedBy(s, le)
    ensures EquivalentsOf(Insert(x, s, le), le, v)
      == (if le(x, v) && le(v, x) then [x] else []) + EquivalentsOf(s, le, v)
    decreases |s|
  {
    if |s| == 0 {
      assert Insert(x, s, le) == [x];
      assert [x][1..] == [];
    } else if le(x, s[0]) {
      assert Insert(x, s, le) == [x] + s;
      assert ([x] + s)[1..] == s;
    } else {
      var rest := Insert(x, s[1..], le);
      assert Insert(x, s, le) == [s[0]] + rest;
      InsertEquivalents(x, s[1..], le, v);
      assert ([s[0]] + rest)[1..] == rest;
      var h := s[0];
      var es := if le(h, v) && le(v, h) then [h] else [];
      var ex := if le(x, v) && le(v, x) then [x] else [];
      var tail := EquivalentsOf(s[1..], le, v);
      assert EquivalentsOf([h] + rest, le, v) == es + (ex + tail);
      if ex != [] && es != [] {
        assert false;
      }
      ConsSwap(es, ex, tail);
    }
  }

  lemma ConsSwap<T>(a: seq<T>, b: seq<T>, tail: seq<T>)
    requires a == [] || b == []
    ensures a + (b + tail) == b + (a + tail)
  {
    if a == [] {
      assert a + (b + tail) == b + tail;
    } else {
      assert b + (a + tail) == a + tail;
    }
  }

  /** `OrderBy` with the comparison `le`: a stable insertion sort. The result
      is ordered, a permutation of the input, and keeps equivalent elements
      in input order. */
  function SortBy<T(!new)>(s: seq<T>, le: (T, T) -> bool): (r: seq<T>)
    requires TotalPreorder(le)
    ensures SortedBy(r, le)
    ensures multiset(r) == multiset(s)
    ensures |r| == |s|
    ensures forall v :: EquivalentsOf(r, le, v) == EquivalentsOf(s, le, v)
    decreases |s|
  {
    if |s| == 0 then []
    else
      assert s == [s[0]] + s[1..];
      var sorted := SortBy(s[1..], le);
      var r := Insert(s[0], sorted, le);
      assert |r| == |multiset(r)|;
      assert forall v :: EquivalentsOf(r, le, v) == EquivalentsOf(s, le, v) by {
        forall v
          ensures EquivalentsOf(r, le, v) == EquivalentsOf(s, le, v)
        {
          InsertEquivalents(s[0], sorted, le, v);
        }
      }
      r
  }

  /** Two sorted permutations under a total order start alike. */
  lemma SortedHeads<T(!new)>(a: seq<T>, b: seq<T>, le: (T, T) -> bool)
    requires TotalOrder(le)
    requires SortedBy(a, le) && SortedBy(b, le)
    requires multiset(a) == multiset(b) && |a| > 0
    ensures |b| == |a| && a[0] == b[0]
  {
    assert |b| == |multiset(b)| == |multiset(a)| == |a|;
    assert a[0] in multiset(b);
    assert b[0] in multiset(a);
    var i :| 0 <= i < |b| && b[i] == a[0];
    var j :| 0 <= j < |a| && a[j] == b[0];
    assert le(b[0], a[0]) by {
      if i > 0 {
        assert le(b[0], b[i]);
      }
    }
    assert le(a[0], b[0]) by {
      if j > 0 {
        assert le(a[0], a[j]);
      }
    }
  }

  /** Permutations with the same first element have permuted tails. */
  lemma TailsPermutation<T>(a: seq<T>, b: seq<T>)
    requires multiset(a) == multiset(b) && |a| > 0 && |b| > 0 && a[0] == b[0]
    ensures multiset(a[1..]) == multiset(b[1..])
  {
    assert a == [a[0]] + a[1..];
    assert b == [b[0]] + b[1..];
    assert multiset(a) == multiset{a[0]} + multiset(a[1..]);
    assert multiset(b) == multiset{b[0]} + multiset(b[1..]);
    calc {
      multiset(a[1..]);
      multiset(a) - multiset{a[0]};
      multiset(b) - multiset{b[0]};
      multiset(b[1..]);
    }
  }

  /** Under a total order, a sorted permutation is unique. */
  lemma {:induction false} SortedUnique<T(!new)>(a: seq<T>, b: seq<T>, le: (T, T) -> bool)
    requires TotalOrder(le)
    requires SortedBy(a, le) && SortedBy(b, le)
    requires multiset(a) == multiset(b)
    ensures a == b
    decreases |a|
  {
    if |a| == 0 {
      assert |b| == |multiset(b)|;
    } else {
      SortedHeads(a, b, le);
      TailsPermutation(a, b);
      SortedUnique(a[1..], b[1..], le);
    }
  }

  /** Sorting two permutations of each other under a total order gives the
      same sequence. */
  lemma SortByPermutation<T(!new)>(a: seq<T>, b: seq<T>, le: (T, T) -> bool)
    requires TotalOrder(le)
    requires multiset(a) == multiset(b)
    ensures SortBy(a, le) == SortBy(b, le)
  {
    SortedUnique(SortBy(a, le), SortBy(b, le), le);
  }

  /** Sorting an already sorted sequence leaves it as it is: the sort moves
      no element past one it is not strictly greater than. */
  lemma {:induction false} SortBySorted<T(!new)>(s: seq<T>, le: (T, T) -> bool)
    requires TotalPreorder(le)
    requires SortedBy(s, le)
    ensures SortBy(s, le) == s
    decreases |s|
  {
    if |s| > 0 {
      assert SortedBy(s[1..], le);
      SortBySorted(s[1..], le);
      assert s == [s[0]] + s[1..];
      if |s| > 1 {
        assert le(s[0], s[1..][0]);
      }
    }
  }
}
