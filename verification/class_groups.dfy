/** The class grouping every award report shares: items are grouped by a
    class key, each group takes its display name, bucket and sort order from
    the first class definition whose key matches ignoring case, and the
    groups are ordered by a bucket priority, then sort order, then display
    name. */
module ClassGrouping {
  import opened Wrappers
  import opened Text
  import opened Seqs
  import Grouping
  import Sorting
  import ClassConfig

  /** A class group before ranking. */
  datatype ClassGroup<T> = ClassGroup(
    classKey: string,
    displayName: string,
    bucket: string,
    sortOrder: int,
    members: seq<T>)

  /** Definition `i` is the first whose key equals `key` ignoring case. */
  predicate FirstMatch(defs: seq<ClassConfig.ClassDefinition>, key: string, i: int) {
    0 <= i < |defs| && EqualsIgnoreCase(defs[i].classKey, key)
    && forall j | 0 <= j < i :: !EqualsIgnoreCase(defs[j].classKey, key)
  }

  /** `defs.FirstOrDefault(d => string.Equals(d.ClassKey, key,
      OrdinalIgnoreCase))`. */
  function FindDefinition(defs: seq<ClassConfig.ClassDefinition>, key: string): (r: Option<ClassConfig.ClassDefinition>)
    ensures r.Some? ==> exists i :: FirstMatch(defs, key, i) && defs[i] == r.value
    ensures r.None? <==> forall i | 0 <= i < |defs| :: !EqualsIgnoreCase(defs[i].classKey, key)
    decreases |defs|
  {
    if |defs| == 0 then None
    else if EqualsIgnoreCase(defs[0].classKey, key) then Some(defs[0])
    else
      var r := FindDefinition(defs[1..], key);
      assert r.Some? ==> exists i :: FirstMatch(defs, key, i) && defs[i] == r.value by {
        if r.Some? {
          var i :| FirstMatch(defs[1..], key, i) && defs[1..][i] == r.value;
          assert forall j | 1 <= j < i + 1 :: defs[j] == defs[1..][j - 1];
          assert FirstMatch(defs, key, i + 1);
        }
      }
      assert forall i | 1 <= i < |defs| :: defs[i] == defs[1..][i - 1];
      r
  }

  /** A group takes bucket, display name and sort order from the matching
      definition, or "", its key and 1000 when none matches. */
  function ClassGroupOf<T>(defs: seq<ClassConfig.ClassDefinition>, g: Grouping.Group<string, T>): (r: ClassGroup<T>)
    ensures r.classKey == g.key && r.members == g.items
    ensures FindDefinition(defs, g.key).None? ==> r.bucket == "" && r.displayName == g.key && r.sortOrder == 1000
    ensures FindDefinition(defs, g.key).Some? ==>
      var d := FindDefinition(defs, g.key).value;
      r.bucket == d.bucket && r.displayName == d.displayName && r.sortOrder == d.sortOrder
  {
    match FindDefinition(defs, g.key)
    case Some(d) => ClassGroup(g.key, d.displayName, d.bucket, d.sortOrder, g.items)
    case None => ClassGroup(g.key, g.key, "", 1000, g.items)
  }

  /** OrderBy bucket priority, ThenBy sort order, ThenBy display name. */
  predicate GroupLe<T>(prio: string -> int, a: ClassGroup<T>, b: ClassGroup<T>) {
    var pa := prio(a.bucket);
    var pb := prio(b.bucket);
    pa < pb || (pa == pb && (a.sortOrder < b.sortOrder || (a.sortOrder == b.sortOrder && StrLe(a.displayName, b.displayName))))
  }

  function GroupOrder<T>(prio: string -> int): (ClassGroup<T>, ClassGroup<T>) -> bool {
    (a, b) => GroupLe(prio, a, b)
  }

  lemma GroupOrderTotal<T(!new)>(prio: string -> int)
    ensures Sorting.TotalPreorder(GroupOrder<T>(prio))
  {
    forall a: ClassGroup<T>, b: ClassGroup<T>
      ensures GroupLe(prio, a, b) || GroupLe(prio, b, a)
    {
      StrLeTotal(a.displayName, b.displayName);
    }
    forall a: ClassGroup<T>, b: ClassGroup<T>, c: ClassGroup<T> | GroupLe(prio, a, b) && GroupLe(prio, b, c)
      ensures GroupLe(prio, a, c)
    {
      if StrLe(a.displayName, b.displayName) && StrLe(b.displayName, c.displayName) {
        StrLeTrans(a.displayName, b.displayName, c.displayName);
      }
    }
  }

  /** The class groups in order of first key, before sorting. */
  function UnsortedGroups<T>(defs: seq<ClassConfig.ClassDefinition>, items: seq<T>, key: T -> string): (r: seq<ClassGroup<T>>)
    ensures |r| == |Grouping.GroupBy(items, key)|
    ensures forall g | 0 <= g < |r| :: r[g] == ClassGroupOf(defs, Grouping.GroupBy(items, key)[g])
  {
    var gs := Grouping.GroupBy(items, key);
    seq(|gs|, g requires 0 <= g < |gs| => ClassGroupOf(defs, gs[g]))
  }

  /** The ordered class groups; groups the order cannot tell apart keep
      the order of their first item. */
  function ClassGroups<T(!new)>(defs: seq<ClassConfig.ClassDefinition>, items: seq<T>, key: T -> string, prio: string -> int): (r: seq<ClassGroup<T>>)
    ensures Sorting.SortedBy(r, GroupOrder(prio))
    ensures multiset(r) == multiset(UnsortedGroups(defs, items, key))
    ensures forall v :: Sorting.EquivalentsOf(r, GroupOrder(prio), v) == Sorting.EquivalentsOf(UnsortedGroups(defs, items, key), GroupOrder(prio), v)
  {
    GroupOrderTotal<T>(prio);
    Sorting.SortBy(UnsortedGroups(defs, items, key), GroupOrder(prio))
  }

  /** Each sorted group is one of the groups GroupBy formed. */
  lemma ClassGroupOrigin<T(!new)>(defs: seq<ClassConfig.ClassDefinition>, items: seq<T>, key: T -> string, prio: string -> int, g: nat) returns (x: nat)
    requires g < |ClassGroups(defs, items, key, prio)|
    ensures x < |Grouping.GroupBy(items, key)|
    ensures ClassGroups(defs, items, key, prio)[g] == ClassGroupOf(defs, Grouping.GroupBy(items, key)[x])
  {
    var u := UnsortedGroups(defs, items, key);
    var r := ClassGroups(defs, items, key, prio);
    assert r[g] in multiset(u);
    x :| 0 <= x < |u| && u[x] == r[g];
  }

  /** No two groups share a key. */
  lemma ClassGroupKeysDistinct<T(!new)>(defs: seq<ClassConfig.ClassDefinition>, items: seq<T>, key: T -> string, prio: string -> int)
    ensures var r := ClassGroups(defs, items, key, prio);
      forall g, h | 0 <= g < h < |r| :: r[g].classKey != r[h].classKey
  {
    var gs := Grouping.GroupBy(items, key);
    var u := UnsortedGroups(defs, items, key);
    Grouping.GroupByPartition(items, key, gs);
    assert DistinctBy(u, (x: ClassGroup<T>) => x.classKey);
    DistinctByPermutation(u, ClassGroups(defs, items, key, prio), (x: ClassGroup<T>) => x.classKey);
  }

  /** An item sits in a group exactly when its key is the group's, and no
      group is empty. */
  lemma ClassGroupMembers<T(!new)>(defs: seq<ClassConfig.ClassDefinition>, items: seq<T>, key: T -> string, prio: string -> int, g: nat)
    requires g < |ClassGroups(defs, items, key, prio)|
    ensures var cg := ClassGroups(defs, items, key, prio)[g];
      |cg.members| > 0
      && forall i | 0 <= i < |items| :: items[i] in cg.members <==> key(items[i]) == cg.classKey
  {
    var gs := Grouping.GroupBy(items, key);
    var x := ClassGroupOrigin(defs, items, key, prio, g);
    Grouping.GroupByPartition(items, key, gs);
  }

  /** Every item has a group. */
  lemma ClassGroupsCover<T(!new)>(defs: seq<ClassConfig.ClassDefinition>, items: seq<T>, key: T -> string, prio: string -> int, i: nat)
    requires i < |items|
    ensures var r := ClassGroups(defs, items, key, prio);
      exists g :: 0 <= g < |r| && r[g].classKey == key(items[i])
  {
    var gs := Grouping.GroupBy(items, key);
    var u := UnsortedGroups(defs, items, key);
    var r := ClassGroups(defs, items, key, prio);
    Grouping.GroupByPartition(items, key, gs);
    var x :| 0 <= x < |gs| && gs[x].key == key(items[i]);
    assert u[x] in multiset(r);
    var g :| 0 <= g < |r| && r[g] == u[x];
  }

  /** A member of a group is one of the items, with the group's key. */
  lemma GroupMemberIsItem<T(!new)>(defs: seq<ClassConfig.ClassDefinition>, items: seq<T>, key: T -> string, prio: string -> int, g: nat, c: T)
    requires g < |ClassGroups(defs, items, key, prio)| && c in ClassGroups(defs, items, key, prio)[g].members
    ensures c in items && key(c) == ClassGroups(defs, items, key, prio)[g].classKey
  {
    var gs := Grouping.GroupBy(items, key);
    var x := ClassGroupOrigin(defs, items, key, prio, g);
    Grouping.GroupHolds(items, key, gs, x, c);
  }

  /** Groups come in order of bucket priority. */
  lemma ClassGroupsByPriority<T(!new)>(defs: seq<ClassConfig.ClassDefinition>, items: seq<T>, key: T -> string, prio: string -> int)
    ensures var r := ClassGroups(defs, items, key, prio);
      forall g, h | 0 <= g < h < |r| :: prio(r[g].bucket) <= prio(r[h].bucket)
  {
    var r := ClassGroups(defs, items, key, prio);
    forall g, h | 0 <= g < h < |r|
      ensures prio(r[g].bucket) <= prio(r[h].bucket)
    {
      assert GroupOrder(prio)(r[g], r[h]);
    }
  }
}
