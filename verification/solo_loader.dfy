/** The solo awards data loader of the report framework: candidates are
    grouped by bucket, then by class within each bucket; each class group
    is ranked by score and cut to the scheme's top-N limit, without ties
    at the cut and without places; the class groups are then regrouped by
    bucket. */
module SoloLoader {
  import opened Wrappers
  import opened Seqs
  import Grouping
  import Sorting
  import ScoreRepository

  type Candidate = ScoreRepository.Candidate

  /** The solo awards scheme's `LimitTopN`. */
  const SchemeLimit: int := 10

  /** A `SoloAwardCandidate` record. Its text properties default to the
      empty string, and a NULL column leaves that default in place. */
  datatype Item = Item(
    bucket: string,
    cls: string,
    participants: string,
    programNumber: int,
    studioName: string,
    routineTitle: string,
    finalScore: real)

  function BucketOf(x: Item): string {
    x.bucket
  }

  function ClassOf(x: Item): string {
    x.cls
  }

  /** A class group: key and display name are both the raw class text and
      the sort order is 0. */
  datatype ClassGroup = ClassGroup(
    classKey: string,
    displayName: string,
    sortOrder: int,
    bucket: string,
    items: seq<Item>)

  datatype BucketGroup = BucketGroup(bucket: string, classes: seq<ClassGroup>)

  // ---------------------------------------------------------------------
  // One class group

  /** `OrderByDescending(c => c.FinalScore)`. */
  predicate ScoreDesc(a: Item, b: Item) {
    a.finalScore >= b.finalScore
  }

  lemma ScoreDescTotal()
    ensures Sorting.TotalPreorder(ScoreDesc)
  {
  }

  predicate Descending(s: seq<Item>) {
    forall j, k | 0 <= j < k < |s| :: s[j].finalScore >= s[k].finalScore
  }

  /** The items by score, highest first; equal scores keep their order. */
  function Ranked(s: seq<Item>): (r: seq<Item>)
    ensures |r| == |s| && multiset(r) == multiset(s)
    ensures Descending(r)
    ensures forall v :: Sorting.EquivalentsOf(r, ScoreDesc, v) == Sorting.EquivalentsOf(s, ScoreDesc, v)
  {
    ScoreDescTotal();
    Sorting.SortBy(s, ScoreDesc)
  }

  /** How many items `Take` keeps of `len`: all without a limit, none for
      a limit of zero or less. */
  function TakeCount(limit: Option<int>, len: nat): (n: nat)
    ensures n <= len
    ensures limit.None? ==> n == len
    ensures limit.Some? && limit.value >= 0 ==> n <= limit.value
    ensures limit.Some? && 0 <= len <= limit.value ==> n == len
  {
    match limit
    case None => len
    case Some(k) => if k <= 0 then 0 else if k < len then k else len
  }

  function MakeClassGroup(bucket: string, g: Grouping.Group<string, Item>, limit: Option<int>): ClassGroup {
    var sorted := Ranked(g.items);
    ClassGroup(g.key, g.key, 0, bucket, sorted[..TakeCount(limit, |sorted|)])
  }

  // ---------------------------------------------------------------------
  // The pipeline

  /** The class groups of one bucket group, in order of first occurrence. */
  function BucketClassGroups(bg: Grouping.Group<string, Item>, limit: Option<int>): (r: seq<ClassGroup>)
    ensures forall k | 0 <= k < |r| :: r[k].bucket == bg.key
  {
    var cgs := Grouping.GroupBy(bg.items, ClassOf);
    seq(|cgs|, j requires 0 <= j < |cgs| => MakeClassGroup(bg.key, cgs[j], limit))
  }

  /** `SelectMany` over the bucket groups. */
  function Flatten(bgs: seq<Grouping.Group<string, Item>>, limit: Option<int>): seq<ClassGroup>
    decreases |bgs|
  {
    if |bgs| == 0 then [] else BucketClassGroups(bgs[0], limit) + Flatten(bgs[1..], limit)
  }

  function ClassGroups(items: seq<Item>, limit: Option<int>): seq<ClassGroup> {
    Flatten(Grouping.GroupBy(items, BucketOf), limit)
  }

  function GroupBucket(cg: ClassGroup): string {
    cg.bucket
  }

  function BucketGroups(cgs: seq<ClassGroup>): seq<BucketGroup> {
    var gs := Grouping.GroupBy(cgs, GroupBucket);
    seq(|gs|, i requires 0 <= i < |gs| => BucketGroup(gs[i].key, gs[i].items))
  }

  /** `LoadAsync` on the given candidates with the given limit. */
  function LoadGroups(items: seq<Item>, limit: Option<int>): seq<BucketGroup> {
    BucketGroups(ClassGroups(items, limit))
  }

  /** The text a record holds for a nullable column. */
  function RecordText(v: Option<string>): string {
    v.GetOr("")
  }

  /** The record a query row becomes. The repository's solo query selects
      no bucket column, so the bucket keeps its default "". */
  function ItemOf(c: Candidate): Item {
    Item("", RecordText(c.cls), RecordText(c.participants), c.programNumber, RecordText(c.studioName),
         c.routineTitle, c.finalScore)
  }

  /** The candidates as records: every item has the empty bucket, a NULL
      text column reads as "", and the rest is carried over. */
  function FromRepository(cands: seq<Candidate>): (r: seq<Item>)
    ensures |r| == |cands|
    ensures forall i | 0 <= i < |r| ::
      && r[i].bucket == ""
      && (cands[i].cls.None? ==> r[i].cls == "") && (cands[i].cls.Some? ==> r[i].cls == cands[i].cls.value)
      && (cands[i].participants.None? ==> r[i].participants == "")
      && (cands[i].participants.Some? ==> r[i].participants == cands[i].participants.value)
      && (cands[i].studioName.None? ==> r[i].studioName == "")
      && (cands[i].studioName.Some? ==> r[i].studioName == cands[i].studioName.value)
      && r[i].programNumber == cands[i].programNumber && r[i].routineTitle == cands[i].routineTitle
      && r[i].finalScore == cands[i].finalScore
  {
    seq(|cands|, i requires 0 <= i < |cands| => ItemOf(cands[i]))
  }

  /** The loader as the solo awards scheme runs it. */
  function Load(cands: seq<Candidate>): seq<BucketGroup> {
    LoadGroups(FromRepository(cands), Some(SchemeLimit))
  }

  // ---------------------------------------------------------------------
  // Properties

  /** The candidates filed under a bucket and a class, in input order. */
  function Members(items: seq<Item>, bucket: string, cls: string): (r: seq<Item>)
    ensures forall x :: x in r <==> x in items && x.bucket == bucket && x.cls == cls
  {
    var r := Filter(items, (x: Item) => x.bucket == bucket && x.cls == cls);
    forall x
      ensures x in r <==> x in items && x.bucket == bucket && x.cls == cls
    {
      FilterIn(items, (x: Item) => x.bucket == bucket && x.cls == cls, x);
    }
    r
  }

  /** A class group of a flattened list comes from one bucket group. */
  lemma {:induction false} FlattenFrom(bgs: seq<Grouping.Group<string, Item>>, limit: Option<int>, cg: ClassGroup)
    requires cg in Flatten(bgs, limit)
    ensures exists b, j ::
              0 <= b < |bgs| && 0 <= j < |BucketClassGroups(bgs[b], limit)| && cg == BucketClassGroups(bgs[b], limit)[j]
    decreases |bgs|
  {
    var head := BucketClassGroups(bgs[0], limit);
    if cg in head {
      var j :| 0 <= j < |head| && head[j] == cg;
      assert 0 <= 0 < |bgs| && 0 <= j < |BucketClassGroups(bgs[0], limit)|;
    } else {
      FlattenFrom(bgs[1..], limit, cg);
      var b, j :| 0 <= b < |bgs[1..]| && 0 <= j < |BucketClassGroups(bgs[1..][b], limit)|
        && cg == BucketClassGroups(bgs[1..][b], limit)[j];
      assert bgs[1..][b] == bgs[b + 1];
    }
  }

  /** Every class group of every bucket group is in the flattened list. */
  lemma FlattenHas(bgs: seq<Grouping.Group<string, Item>>, limit: Option<int>, b: nat, j: nat)
    requires b < |bgs| && j < |BucketClassGroups(bgs[b], limit)|
    ensures BucketClassGroups(bgs[b], limit)[j] in Flatten(bgs, limit)
  {
    var cgs := BucketClassGroups(bgs[b], limit);
    FlattenHasAll(bgs, limit, b);
    assert cgs[j] in cgs;
  }

  lemma {:induction false} FlattenHasAll(bgs: seq<Grouping.Group<string, Item>>, limit: Option<int>, b: nat)
    requires b < |bgs|
    ensures forall x | x in BucketClassGroups(bgs[b], limit) :: x in Flatten(bgs, limit)
    decreases |bgs|
  {
    if b > 0 {
      Seqs.TailAt(bgs, b);
      FlattenHasAll(bgs[1..], limit, b - 1);
      FlattenHasTail(bgs, limit);
    } else {
      FlattenHasHead(bgs, limit);
    }
  }

  lemma FlattenHasHead(bgs: seq<Grouping.Group<string, Item>>, limit: Option<int>)
    requires |bgs| > 0
    ensures forall x | x in BucketClassGroups(bgs[0], limit) :: x in Flatten(bgs, limit)
  {
    assert Flatten(bgs, limit) == BucketClassGroups(bgs[0], limit) + Flatten(bgs[1..], limit);
  }

  lemma FlattenHasTail(bgs: seq<Grouping.Group<string, Item>>, limit: Option<int>)
    requires |bgs| > 0
    ensures forall x | x in Flatten(bgs[1..], limit) :: x in Flatten(bgs, limit)
  {
    assert Flatten(bgs, limit) == BucketClassGroups(bgs[0], limit) + Flatten(bgs[1..], limit);
  }

  /** The items of a bucket's class group before the cut are the members
      of that bucket and class. */
  lemma ClassGroupMembers(items: seq<Item>, b: nat, j: nat)
    requires b < |Grouping.GroupBy(items, BucketOf)|
    requires j < |Grouping.GroupBy(Grouping.GroupBy(items, BucketOf)[b].items, ClassOf)|
    ensures var bg := Grouping.GroupBy(items, BucketOf)[b];
      var g := Grouping.GroupBy(bg.items, ClassOf)[j];
      g.items == Members(items, bg.key, g.key)
  {
    var bg := Grouping.GroupBy(items, BucketOf)[b];
    var g := Grouping.GroupBy(bg.items, ClassOf)[j];
    var inBucket := (x: Item) => x.bucket == bg.key;
    var inClass := (x: Item) => x.cls == g.key;
    var both := (x: Item) => x.bucket == bg.key && x.cls == g.key;
    Grouping.GroupItemsBy(items, BucketOf, b, inBucket);
    Grouping.GroupItemsBy(bg.items, ClassOf, j, inClass);
    FilterFilter(items, inBucket, inClass, both);
    assert Members(items, bg.key, g.key) == Filter(items, both);
  }

  /** Every class group is keyed and labelled by its class, has sort order
      0, and holds the first `TakeCount` of its bucket-and-class members
      ranked by score: a hard cut, without the ties that follow it. */
  lemma ClassGroupIsTopOfMembers(items: seq<Item>, limit: Option<int>, cg: ClassGroup)
    requires cg in ClassGroups(items, limit)
    ensures cg.displayName == cg.classKey && cg.sortOrder == 0
    ensures var m := Members(items, cg.bucket, cg.classKey);
      cg.items == Ranked(m)[..TakeCount(limit, |m|)]
  {
    var bgs := Grouping.GroupBy(items, BucketOf);
    FlattenFrom(bgs, limit, cg);
    var b, j :| 0 <= b < |bgs| && 0 <= j < |BucketClassGroups(bgs[b], limit)|
      && cg == BucketClassGroups(bgs[b], limit)[j];
    ClassGroupMembers(items, b, j);
  }

  /** Consequences of the cut: at most N items, highest score first, all
      from the group's bucket and class. */
  lemma ClassGroupBounds(items: seq<Item>, limit: Option<int>, cg: ClassGroup)
    requires cg in ClassGroups(items, limit)
    ensures limit.Some? && limit.value >= 0 ==> |cg.items| <= limit.value
    ensures Descending(cg.items)
    ensures forall x | x in cg.items :: x in items && x.bucket == cg.bucket && x.cls == cg.classKey
  {
    ClassGroupIsTopOfMembers(items, limit, cg);
    var m := Members(items, cg.bucket, cg.classKey);
    RankedPrefix(m, TakeCount(limit, |m|));
  }

  lemma RankedPrefix(m: seq<Item>, n: nat)
    requires n <= |m|
    ensures Descending(Ranked(m)[..n])
    ensures forall x | x in Ranked(m)[..n] :: x in m
  {
    var r := Ranked(m);
    forall x | x in r[..n]
      ensures x in m
    {
      assert x in r;
      assert x in multiset(r);
    }
  }

  /** Every candidate has a class group: the one of its bucket and class. */
  lemma EveryCandidateGrouped(items: seq<Item>, limit: Option<int>, x: Item)
    requires x in items
    ensures exists cg :: cg in ClassGroups(items, limit) && cg.bucket == x.bucket && cg.classKey == x.cls
  {
    var b := BucketIndex(items, x);
    var bgs := Grouping.GroupBy(items, BucketOf);
    var j := ClassIndex(bgs[b], x);
    FlattenHas(bgs, limit, b, j);
    var cg := BucketClassGroups(bgs[b], limit)[j];
    assert cg.bucket == x.bucket && cg.classKey == x.cls;
  }

  /** The bucket group an item falls in. */
  lemma BucketIndex(items: seq<Item>, x: Item) returns (b: nat)
    requires x in items
    ensures b < |Grouping.GroupBy(items, BucketOf)|
    ensures Grouping.GroupBy(items, BucketOf)[b].key == x.bucket
    ensures x in Grouping.GroupBy(items, BucketOf)[b].items
  {
    var bgs := Grouping.GroupBy(items, BucketOf);
    var ks := Grouping.GroupKeys(items, BucketOf);
    var i :| 0 <= i < |items| && items[i] == x;
    assert BucketOf(items[i]) in ks;
    b :| 0 <= b < |ks| && ks[b] == BucketOf(x);
    Grouping.GroupMember(items, BucketOf, bgs, b, i);
  }

  /** The class group an item of a bucket group falls in. */
  lemma ClassIndex(bg: Grouping.Group<string, Item>, x: Item) returns (j: nat)
    requires x in bg.items
    ensures j < |Grouping.GroupBy(bg.items, ClassOf)|
    ensures Grouping.GroupBy(bg.items, ClassOf)[j].key == x.cls
  {
    var ks := Grouping.GroupKeys(bg.items, ClassOf);
    var i :| 0 <= i < |bg.items| && bg.items[i] == x;
    assert ClassOf(bg.items[i]) in ks;
    j :| 0 <= j < |ks| && ks[j] == ClassOf(x);
  }

  /** No two class groups share a bucket and a class. */
  predicate DistinctPairs(cgs: seq<ClassGroup>) {
    forall i, j | 0 <= i < j < |cgs| :: cgs[i].bucket != cgs[j].bucket || cgs[i].classKey != cgs[j].classKey
  }

  lemma BucketClassGroupsDistinct(bg: Grouping.Group<string, Item>, limit: Option<int>)
    ensures DistinctPairs(BucketClassGroups(bg, limit))
  {
    var gs := Grouping.GroupBy(bg.items, ClassOf);
    Grouping.GroupByPartition(bg.items, ClassOf, gs);
  }

  lemma DistinctPairsConcat(a: seq<ClassGroup>, b: seq<ClassGroup>)
    requires DistinctPairs(a) && DistinctPairs(b)
    requires forall x, y | x in a && y in b :: x.bucket != y.bucket
    ensures DistinctPairs(a + b)
  {
    forall i, j | 0 <= i < j < |a + b|
      ensures (a + b)[i].bucket != (a + b)[j].bucket || (a + b)[i].classKey != (a + b)[j].classKey
    {
      if j < |a| {
      } else if i >= |a| {
        assert (a + b)[i] == b[i - |a|] && (a + b)[j] == b[j - |a|];
      } else {
        assert (a + b)[i] in a && (a + b)[j] == b[j - |a|];
      }
    }
  }

  /** Bucket groups with distinct keys flatten to class groups with
      distinct bucket-and-class pairs. */
  lemma {:induction false} FlattenDistinct(bgs: seq<Grouping.Group<string, Item>>, limit: Option<int>)
    requires forall g, h | 0 <= g < h < |bgs| :: bgs[g].key != bgs[h].key
    ensures DistinctPairs(Flatten(bgs, limit))
    decreases |bgs|
  {
    if |bgs| > 0 {
      var head := BucketClassGroups(bgs[0], limit);
      var rest := Flatten(bgs[1..], limit);
      FlattenDistinct(bgs[1..], limit);
      BucketClassGroupsDistinct(bgs[0], limit);
      forall x, y | x in head && y in rest
        ensures x.bucket != y.bucket
      {
        FlattenFrom(bgs[1..], limit, y);
        var b, j :| 0 <= b < |bgs[1..]| && 0 <= j < |BucketClassGroups(bgs[1..][b], limit)|
          && y == BucketClassGroups(bgs[1..][b], limit)[j];
        assert bgs[1..][b] == bgs[b + 1];
      }
      DistinctPairsConcat(head, rest);
    }
  }

  /** Each candidate is in at most one class group: the groups' bucket-
      and-class pairs are distinct. */
  lemma ClassGroupsDistinct(items: seq<Item>, limit: Option<int>)
    ensures DistinctPairs(ClassGroups(items, limit))
  {
    var bgs := Grouping.GroupBy(items, BucketOf);
    Grouping.GroupByPartition(items, BucketOf, bgs);
    FlattenDistinct(bgs, limit);
  }

  /** The buckets of the bucket groups are distinct. */
  lemma BucketGroupsDistinct(cgs: seq<ClassGroup>)
    ensures var bs := BucketGroups(cgs);
      forall g, h | 0 <= g < h < |bs| :: bs[g].bucket != bs[h].bucket
  {
    var ks := Grouping.GroupKeys(cgs, GroupBucket);
    assert Distinct(ks);
  }

  /** Each bucket group holds, in order, exactly the class groups of its
      bucket, and at least one. */
  lemma BucketGroupHolds(cgs: seq<ClassGroup>, g: nat)
    requires g < |BucketGroups(cgs)|
    ensures var bg := BucketGroups(cgs)[g];
      bg.classes == Filter(cgs, (cg: ClassGroup) => cg.bucket == bg.bucket) && |bg.classes| > 0
  {
    var gs := Grouping.GroupBy(cgs, GroupBucket);
    var bg := BucketGroups(cgs)[g];
    var p := (cg: ClassGroup) => cg.bucket == bg.bucket;
    Grouping.GroupItemsBy(cgs, GroupBucket, g, p);
    assert bg.classes == Filter(cgs, p);
    var ks := Grouping.GroupKeys(cgs, GroupBucket);
    var i :| 0 <= i < |cgs| && GroupBucket(cgs[i]) == ks[g];
    assert cgs[i] in Filter(cgs, p);
  }

  /** Every class group lands in the bucket group of its bucket. */
  lemma BucketGroupsCover(cgs: seq<ClassGroup>, cg: ClassGroup)
    requires cg in cgs
    ensures exists g :: 0 <= g < |BucketGroups(cgs)| && BucketGroups(cgs)[g].bucket == cg.bucket
  {
    var ks := Grouping.GroupKeys(cgs, GroupBucket);
    var i :| 0 <= i < |cgs| && cgs[i] == cg;
    assert GroupBucket(cgs[i]) in ks;
    var g :| 0 <= g < |ks| && ks[g] == cg.bucket;
    assert BucketGroups(cgs)[g].bucket == cg.bucket;
  }

  /** A class group's bucket is the bucket of some candidate. */
  lemma ClassGroupBucketFrom(items: seq<Item>, limit: Option<int>, cg: ClassGroup) returns (x: Item)
    requires cg in ClassGroups(items, limit)
    ensures x in items && x.bucket == cg.bucket
  {
    var bgs := Grouping.GroupBy(items, BucketOf);
    FlattenFrom(bgs, limit, cg);
    var b, j :| 0 <= b < |bgs| && 0 <= j < |BucketClassGroups(bgs[b], limit)|
      && cg == BucketClassGroups(bgs[b], limit)[j];
    var ks := Grouping.GroupKeys(items, BucketOf);
    var i :| 0 <= i < |items| && BucketOf(items[i]) == ks[b];
    x := items[i];
  }

  /** A NULL class reads as "", so a candidate without a class and one whose
      class is "" are members of the same class group. */
  lemma NullClassJoinsEmpty(cands: seq<Candidate>, limit: Option<int>, i: nat, j: nat)
    requires i < |cands| && j < |cands|
    requires cands[i].cls.None? && cands[j].cls == Some("")
    ensures var items := FromRepository(cands);
      && ClassOf(items[i]) == ClassOf(items[j]) == ""
      && items[i] in Members(items, "", "") && items[j] in Members(items, "", "")
      && exists cg :: cg in ClassGroups(items, limit) && cg.bucket == "" && cg.classKey == ""
  {
    var items := FromRepository(cands);
    assert items[i] in items && items[j] in items;
    EveryCandidateGrouped(items, limit, items[i]);
  }

  /** With the repository's candidates everything is in the one bucket "":
      at most one bucket group. */
  lemma LoadHasOneBucket(cands: seq<Candidate>)
    ensures |Load(cands)| <= 1
    ensures forall g | 0 <= g < |Load(cands)| :: Load(cands)[g].bucket == ""
  {
    var items := FromRepository(cands);
    ClassGroupsInBucket(items, Some(SchemeLimit));
    OneBucketGroup(ClassGroups(items, Some(SchemeLimit)));
  }

  /** Items all in bucket "" give class groups all in bucket "". */
  lemma ClassGroupsInBucket(items: seq<Item>, limit: Option<int>)
    requires forall i | 0 <= i < |items| :: items[i].bucket == ""
    ensures forall i | 0 <= i < |ClassGroups(items, limit)| :: GroupBucket(ClassGroups(items, limit)[i]) == ""
  {
    var cgs := ClassGroups(items, limit);
    forall i | 0 <= i < |cgs|
      ensures GroupBucket(cgs[i]) == ""
    {
      var x := ClassGroupBucketFrom(items, limit, cgs[i]);
    }
  }

  /** Class groups all in bucket "" make at most one bucket group. */
  lemma OneBucketGroup(cgs: seq<ClassGroup>)
    requires forall i | 0 <= i < |cgs| :: GroupBucket(cgs[i]) == ""
    ensures |BucketGroups(cgs)| <= 1
    ensures forall g | 0 <= g < |BucketGroups(cgs)| :: BucketGroups(cgs)[g].bucket == ""
  {
    Grouping.GroupKeysSingle(cgs, GroupBucket, "");
  }
}
