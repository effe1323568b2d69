/** The display order of competition classes: age keywords first, then
    level keywords, then the rest; and the order of buckets. */
module ClassOrder {
  import opened Wrappers
  import opened Text
  import AwardRanking

  const IntMax: int := 0x7FFF_FFFF

  /** `ClassOrder.GetOrder`: blank names sort last of all; otherwise the
      order of the trimmed, lower-cased name. */
  function GetOrder(className: Option<string>): (r: int)
    ensures IsNullOrWhiteSpace(className) <==> r == IntMax
    ensures !IsNullOrWhiteSpace(className) ==> r == NameOrder(Lower(Trim(className.value)))
  {
    if IsNullOrWhiteSpace(className) then IntMax
    else NameOrder(Lower(Trim(className.value)))
  }

  /** The keyword tests of `GetOrder`, ages before levels. */
  function NameOrder(n: string): (r: int)
    ensures 10 <= r <= 1000
  {
    if Contains(n, "petite") then 10
    else if Contains(n, "mini") then 20
    else if Contains(n, "junior") then 30
    else if Contains(n, "teen") then 40
    else if Contains(n, "senior") then 50
    else if Contains(n, "adult") then 60
    else if Contains(n, "recreational") then 100
    else if Contains(n, "novice") then 110
    else if Contains(n, "intermediate") then 120
    else if Contains(n, "advanced") then 130
    else if Contains(n, "competitive") then 140
    else if Contains(n, "elite") then 150
    else 1000
  }

  /** A keyword and the order it gives. */
  datatype Keyword = Keyword(word: string, order: int)

  /** The keywords in the order they are tried: six ages, then six
      levels. */
  const Keywords: seq<Keyword> := [
    Keyword("petite", 10), Keyword("mini", 20), Keyword("junior", 30),
    Keyword("teen", 40), Keyword("senior", 50), Keyword("adult", 60),
    Keyword("recreational", 100), Keyword("novice", 110), Keyword("intermediate", 120),
    Keyword("advanced", 130), Keyword("competitive", 140), Keyword("elite", 150)
  ]

  /** The order of the first keyword from `i` on that the name contains,
      or 1000. */
  function FirstKeyword(n: string, i: nat): (r: int)
    requires i <= |Keywords|
    decreases |Keywords| - i
  {
    if i == |Keywords| then 1000
    else if Contains(n, Keywords[i].word) then Keywords[i].order
    else FirstKeyword(n, i + 1)
  }

  /** GetOrder is the first-match lookup in the keyword table. */
  lemma GetOrderIsTableLookup(n: string)
    ensures NameOrder(n) == FirstKeyword(n, 0)
  {
  }

  /** The order of the first matching table entry, when one matches. */
  lemma {:induction false} FirstKeywordHit(n: string, i: nat, j: nat)
    requires i <= j < |Keywords|
    requires Contains(n, Keywords[j].word)
    requires forall k | i <= k < j :: !Contains(n, Keywords[k].word)
    ensures FirstKeyword(n, i) == Keywords[j].order
    decreases j - i
  {
    if i < j {
      FirstKeywordHit(n, i + 1, j);
    }
  }

  /** A matching keyword bounds the lookup by its own order: the table is
      ordered by increasing order. */
  lemma {:induction false} FirstKeywordAtMost(n: string, i: nat, j: nat)
    requires i <= j < |Keywords|
    requires Contains(n, Keywords[j].word)
    ensures FirstKeyword(n, i) <= Keywords[j].order
    decreases j - i
  {
    if i < j && !Contains(n, Keywords[i].word) {
      FirstKeywordAtMost(n, i + 1, j);
    }
  }

  /** Past the age keywords, every order is at least 100. */
  lemma {:induction false} LevelsFrom(n: string, i: nat)
    requires 6 <= i <= |Keywords|
    ensures FirstKeyword(n, i) >= 100
    decreases |Keywords| - i
  {
    if i < |Keywords| && !Contains(n, Keywords[i].word) {
      LevelsFrom(n, i + 1);
    }
  }

  /** With no age keyword the lookup skips the age entries. */
  lemma {:induction false} SkipAges(n: string, i: nat)
    requires i <= 6
    requires forall k | 0 <= k < 6 :: !Contains(n, Keywords[k].word)
    ensures FirstKeyword(n, i) == FirstKeyword(n, 6)
    decreases 6 - i
  {
    if i < 6 {
      SkipAges(n, i + 1);
    }
  }

  /** A name containing an age keyword orders at most 60. */
  lemma AgeOrder(n: string, j: nat)
    requires j < 6 && Contains(n, Keywords[j].word)
    ensures NameOrder(n) <= 60
  {
    GetOrderIsTableLookup(n);
    FirstKeywordAtMost(n, 0, j);
  }

  /** A name containing no age keyword orders at least 100. */
  lemma LevelOrder(n: string)
    requires forall k | 0 <= k < 6 :: !Contains(n, Keywords[k].word)
    ensures NameOrder(n) >= 100
  {
    GetOrderIsTableLookup(n);
    SkipAges(n, 0);
    LevelsFrom(n, 6);
  }

  /** A name containing an age keyword orders before every name that
      contains none: ages take precedence over levels. */
  lemma AgeBeforeLevel(className: string, j: nat, other: string)
    requires !AllWhite(className) && !AllWhite(other)
    requires j < 6 && Contains(Lower(Trim(className)), Keywords[j].word)
    requires forall k | 0 <= k < 6 :: !Contains(Lower(Trim(other)), Keywords[k].word)
    ensures GetOrder(Some(className)) <= 60
    ensures GetOrder(Some(other)) >= 100
  {
    var a, b := Lower(Trim(className)), Lower(Trim(other));
    assert GetOrder(Some(className)) == NameOrder(a);
    assert GetOrder(Some(other)) == NameOrder(b);
    AgeOrder(a, j);
    LevelOrder(b);
  }

  /** The first age keyword decides, whatever level follows it: a
      "junior elite" class is a junior class. */
  lemma JuniorName(n: string)
    requires !Contains(n, "petite") && !Contains(n, "mini") && Contains(n, "junior")
    ensures NameOrder(n) == 30
  {
    GetOrderIsTableLookup(n);
    FirstKeywordHit(n, 0, 2);
  }

  /** `ClassOrder.GetBucketOrder`: exact match after lower-casing, without
      trimming. */
  function GetBucketOrder(bucket: Option<string>): (r: int)
    ensures r == 1 || r == 2 || r == 999
    ensures bucket.None? ==> r == 999
  {
    match bucket
    case None => 999
    case Some(b) =>
      if Lower(b) == "studio" then 1
      else if Lower(b) == "school" then 2
      else 999
  }

  /** The bucket order agrees with the award reports' bucket priority:
      Studio first, School second, the rest last. */
  lemma BucketOrderAgrees(b: string)
    ensures GetBucketOrder(Some(b)) == 1 <==> AwardRanking.BucketPriority(b) == 1
    ensures GetBucketOrder(Some(b)) == 2 <==> AwardRanking.BucketPriority(b) == 2
    ensures GetBucketOrder(Some(b)) == 999 <==> AwardRanking.BucketPriority(b) == 99
  {
    LowerUpperAgree(b, "studio");
    LowerUpperAgree(b, "school");
    assert Lower("studio") == "studio";
    assert Lower("school") == "school";
  }

  /** Padding defeats the bucket match. */
  lemma PaddedBucketIsLast()
    ensures GetBucketOrder(Some(" studio")) == 999
  {
    assert |Lower(" studio")| == 7;
  }
}
