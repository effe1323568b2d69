/** LINQ's `GroupBy`: groups appear in the order their keys first occur, and
    each group holds, in input order, the elements with that key. */
module Grouping {
  import opened Seqs

  datatype Group<K, T> = Group(key: K, items: seq<T>)

  /** The distinct keys of `s`, in order of first occurrence. */
  function GroupKeys<T, K(==)>(s: seq<T>, key: T -> K): (ks: seq<K>)
    ensures Distinct(ks)
    ensures forall i | 0 <= i < |s| :: key(s[i]) in ks
    ensures forall j | 0 <= j < |ks| :: exists i :: 0 <= i < |s| && key(s[i]) == ks[j]
    decreases |s|
  {
    if |s| == 0 then []
    else
      var init := s[..|s| - 1];
      var ks := GroupKeys(init, key);
      assert forall i | 0 <= i < |init| :: init[i] == s[i];
      if key(s[|s| - 1]) in ks then ks else ks + [key(s[|s| - 1])]
  }

  function GroupBy<T, K(==)>(s: seq<T>, key: T -> K): (gs: seq<Group<K, T>>)
    ensures |gs| == |GroupKeys(s, key)|
    ensures forall g | 0 <= g < |gs| :: gs[g].key == GroupKeys(s, key)[g]
  {
    var ks := GroupKeys(s, key);
    seq(|ks|, g requires 0 <= g < |ks| => Group(ks[g], Filter(s, x => key(x) == ks[g])))
  }

  /** Group keys are distinct, no group is empty, and an element belongs to
      a group exactly when it has that group's key: every element lands in
      exactly one group. */
  lemma GroupByPartition<T, K>(s: seq<T>, key: T -> K, gs: seq<Group<K, T>>)
    requires gs == GroupBy(s, key)
    ensures forall g, h | 0 <= g < h < |gs| :: gs[g].key != gs[h].key
    ensures forall g | 0 <= g < |gs| :: |gs[g].items| > 0
    ensures forall g, i | 0 <= g < |gs| && 0 <= i < |s| :: (s[i] in gs[g].items <==> key(s[i]) == gs[g].key)
    ensures forall i | 0 <= i < |s| :: exists g :: 0 <= g < |gs| && gs[g].key == key(s[i])
  {
    var ks := GroupKeys(s, key);
    forall g | 0 <= g < |gs|
      ensures |gs[g].items| > 0
    {
      var i :| 0 <= i < |s| && key(s[i]) == ks[g];
      GroupMember(s, key, gs, g, i);
    }
    forall g, i | 0 <= g < |gs| && 0 <= i < |s|
      ensures s[i] in gs[g].items <==> key(s[i]) == gs[g].key
    {
      GroupMember(s, key, gs, g, i);
    }
    forall i | 0 <= i < |s|
      ensures exists g :: 0 <= g < |gs| && gs[g].key == key(s[i])
    {
      var g :| 0 <= g < |ks| && ks[g] == key(s[i]);
      assert gs[g].key == key(s[i]);
    }
  }

  lemma GroupMember<T, K>(s: seq<T>, key: T -> K, gs: seq<Group<K, T>>, g: nat, i: nat)
    requires gs == GroupBy(s, key)
    requires g < |gs| && i < |s|
    ensures s[i] in gs[g].items <==> key(s[i]) == gs[g].key
  {
    var k := gs[g].key;
    var items := Filter(s, x => key(x) == k);
    assert gs[g].items == items;
  }

  /** The test for key `k`. */
  function HasKey<T, K(==)>(key: T -> K, k: K): T -> bool {
    x => key(x) == k
  }

  /** Each group is the input restricted to the positions of its key: its
      `t`-th member is the input element at the `t`-th such position, and
      these positions increase, so members keep their input order. */
  lemma GroupItemsInOrder<T, K>(s: seq<T>, key: T -> K, g: nat)
    requires g < |GroupBy(s, key)|
    ensures var grp := GroupBy(s, key)[g];
      var pos := Positions(s, HasKey(key, grp.key));
      |grp.items| == |pos|
      && forall t | 0 <= t < |pos| :: grp.items[t] == s[pos[t]]
  {
    var kg := GroupBy(s, key)[g].key;
    GroupItemsBy(s, key, g, HasKey(key, kg));
    FilterAtPositions(s, HasKey(key, kg));
  }

  /** The same, for any test that picks out the group's key. */
  lemma GroupItemsBy<T, K>(s: seq<T>, key: T -> K, g: nat, p: T -> bool)
    requires g < |GroupBy(s, key)|
    requires forall x :: p(x) == (key(x) == GroupBy(s, key)[g].key)
    ensures GroupBy(s, key)[g].items == Filter(s, p)
  {
    var k := GroupBy(s, key)[g].key;
    FilterExt(s, x => key(x) == k, p);
  }

  /** When every element has the same key there is at most one group. */
  lemma {:induction false} GroupKeysSingle<T, K>(s: seq<T>, key: T -> K, k: K)
    requires forall i | 0 <= i < |s| :: key(s[i]) == k
    ensures GroupKeys(s, key) == if |s| == 0 then [] else [k]
    decreases |s|
  {
    if |s| > 0 {
      GroupKeysSingle(s[..|s| - 1], key, k);
    }
  }

  /** A group holds only elements of the input with the group's key. */
  lemma GroupHolds<T, K>(s: seq<T>, key: T -> K, gs: seq<Group<K, T>>, g: nat, x: T)
    requires gs == GroupBy(s, key)
    requires g < |gs| && x in gs[g].items
    ensures x in s && key(x) == gs[g].key
  {
    var items := gs[g].items;
    var i :| 0 <= i < |items| && items[i] == x;
    assert x in multiset(items);
  }
}
