/** The placing loop shared by the Solo, Duet and Trio award services: scores
    arrive sorted, a run of scores within 0.0001 of the run's first score
    shares one place, the next run's place skips by the run's size, and the
    list stops at 12 entries unless the next entry still ties the current
    run. */
module Placement {
  import opened Wrappers

  const MaxEntriesPerGroup: nat := 12
  const Epsilon: real := 0.0001

  /** `Math.Abs(a - b) < 0.0001`, over exact reals. */
  predicate Ties(a: real, b: real) {
    -Epsilon < a - b < Epsilon
  }

  // ---------------------------------------------------------------------
  // The loop as written

  /** One pass of the `foreach` over the sorted scores: `place` is
      `currentPlace`, `prev` is `previousScore`, `count` is
      `countAtCurrentScore`, and `acc` holds the places of the entries added
      so far (so `|acc|` is `totalEntriesAdded`). */
  function Loop(s: seq<real>, place: int, prev: Option<real>, count: int, acc: seq<int>): seq<int>
    requires |acc| <= |s|
    decreases |s| - |acc|
  {
    var i := |acc|;
    if i == |s| then acc
    else if i >= MaxEntriesPerGroup && (prev.None? || !Ties(s[i], prev.value)) then acc
    else if prev.Some? && Ties(s[i], prev.value) then
      Loop(s, place, prev, count + 1, acc + [place])
    else
      var next := if prev.Some? then place + count else place;
      Loop(s, next, Some(s[i]), 1, acc + [next])
  }

  /** The places CreateGroup hands out, one per entry it keeps. */
  function Places(s: seq<real>): seq<int> {
    Loop(s, 1, None, 0, [])
  }

  // ---------------------------------------------------------------------
  // The rule the loop implements

  /** The index of the first entry of the run that entry `k` belongs to: an
      entry joins the current run when it ties the run's first score, and
      starts a new run otherwise. The comparison is with the run's first
      entry, not with the entry just before. */
  function Anchor(s: seq<real>, k: nat): (a: nat)
    requires k < |s|
    ensures a <= k
    ensures a == k || Ties(s[k], s[Anchor(s, k - 1)])
  {
    if k == 0 then 0
    else if Ties(s[k], s[Anchor(s, k - 1)]) then Anchor(s, k - 1)
    else k
  }

  /** Where the list stops: the first index from 12 on that starts a new
      run, or the end of the input. */
  function Cut(s: seq<real>, k: nat): (c: nat)
    requires k <= |s|
    ensures k <= c <= |s|
    ensures forall j | k <= j < c && MaxEntriesPerGroup <= j :: Anchor(s, j) < j
    ensures c < |s| ==> Anchor(s, c) == c && MaxEntriesPerGroup <= c
    decreases |s| - k
  {
    if k == |s| then k
    else if MaxEntriesPerGroup <= k && Anchor(s, k) == k then k
    else Cut(s, k + 1)
  }

  function CutIndex(s: seq<real>): nat
    ensures CutIndex(s) <= |s|
  {
    Cut(s, 0)
  }

  /** The place rule: entry `k` gets one more than the index of its run's
      first entry, and exactly the entries before the cut are kept. */
  function PlaceRule(s: seq<real>): (r: seq<int>)
    ensures |r| == CutIndex(s)
    ensures forall k | 0 <= k < |r| :: r[k] == 1 + Anchor(s, k)
  {
    seq(CutIndex(s), k requires 0 <= k < CutIndex(s) => 1 + Anchor(s, k))
  }

  /** The state the loop carries after handling the first `i` entries. */
  ghost predicate LoopState(s: seq<real>, place: int, prev: Option<real>, count: int, acc: seq<int>) {
    |acc| <= |s|
    && (forall k | 0 <= k < |acc| :: acc[k] == 1 + Anchor(s, k))
    && (forall j | MaxEntriesPerGroup <= j < |acc| :: Anchor(s, j) < j)
    && (|acc| == 0 ==> place == 1 && prev.None? && count == 0)
    && (|acc| > 0 ==>
          var a := Anchor(s, |acc| - 1);
          prev == Some(s[a]) && place == 1 + a && count == |acc| - a)
  }

  lemma {:induction false} LoopMeetsRule(s: seq<real>, place: int, prev: Option<real>, count: int, acc: seq<int>)
    requires LoopState(s, place, prev, count, acc)
    ensures Loop(s, place, prev, count, acc) == PlaceRule(s)
    decreases |s| - |acc|
  {
    var i := |acc|;
    if i == |s| || (i >= MaxEntriesPerGroup && (prev.None? || !Ties(s[i], prev.value))) {
      StopStep(s, place, prev, count, acc);
    } else if prev.Some? && Ties(s[i], prev.value) {
      TieStep(s, place, prev, count, acc);
      LoopMeetsRule(s, place, prev, count + 1, acc + [place]);
    } else {
      var next := if prev.Some? then place + count else place;
      NewRunStep(s, place, prev, count, acc);
      LoopMeetsRule(s, next, Some(s[i]), 1, acc + [next]);
    }
  }

  /** Where the loop stops, the places it has handed out are the rule's. */
  lemma StopStep(s: seq<real>, place: int, prev: Option<real>, count: int, acc: seq<int>)
    requires LoopState(s, place, prev, count, acc)
    requires |acc| == |s| || (|acc| >= MaxEntriesPerGroup && (prev.None? || !Ties(s[|acc|], prev.value)))
    ensures acc == PlaceRule(s)
  {
    var i := |acc|;
    if i < |s| {
      assert Anchor(s, i) == i;
    }
    CutAt(s, i);
  }

  /** An entry that ties the run's first score joins the run. */
  lemma TieStep(s: seq<real>, place: int, prev: Option<real>, count: int, acc: seq<int>)
    requires LoopState(s, place, prev, count, acc) && |acc| < |s|
    requires prev.Some? && Ties(s[|acc|], prev.value)
    ensures LoopState(s, place, prev, count + 1, acc + [place])
  {
    var i := |acc|;
    assert Anchor(s, i) == Anchor(s, i - 1);
    var acc' := acc + [place];
    assert forall k | 0 <= k < i :: acc'[k] == acc[k];
  }

  /** An entry that does not tie starts a new run, placed one past its own
      index. */
  lemma NewRunStep(s: seq<real>, place: int, prev: Option<real>, count: int, acc: seq<int>)
    requires LoopState(s, place, prev, count, acc) && |acc| < |s|
    requires !(prev.Some? && Ties(s[|acc|], prev.value))
    requires !(|acc| >= MaxEntriesPerGroup && (prev.None? || !Ties(s[|acc|], prev.value)))
    ensures var next := if prev.Some? then place + count else place;
      LoopState(s, next, Some(s[|acc|]), 1, acc + [next])
  {
    var i := |acc|;
    assert Anchor(s, i) == i;
    var next := if prev.Some? then place + count else place;
    var acc' := acc + [next];
    assert forall k | 0 <= k < i :: acc'[k] == acc[k];
  }

  /** When no index from 12 up to `i` starts a run and `i` ends the list,
      the cut falls at `i`. */
  lemma {:induction false} CutAt(s: seq<real>, i: nat)
    requires i <= |s|
    requires forall j | MaxEntriesPerGroup <= j < i :: Anchor(s, j) < j
    requires i == |s| || (MaxEntriesPerGroup <= i && Anchor(s, i) == i)
    ensures CutIndex(s) == i
  {
    CutFrom(s, 0, i);
  }

  lemma {:induction false} CutFrom(s: seq<real>, k: nat, i: nat)
    requires k <= i <= |s|
    requires forall j | MaxEntriesPerGroup <= j < i :: Anchor(s, j) < j
    requires i == |s| || (MaxEntriesPerGroup <= i && Anchor(s, i) == i)
    ensures Cut(s, k) == i
    decreases i - k
  {
    if k < i {
      CutFrom(s, k + 1, i);
    }
  }

  /** The loop of CreateGroup hands out exactly the places of the rule. */
  lemma PlacesMeetRule(s: seq<real>)
    ensures Places(s) == PlaceRule(s)
  {
    LoopMeetsRule(s, 1, None, 0, []);
  }

  // ---------------------------------------------------------------------
  // Consequences

  /** A run's first entry ties every later member of its run. */
  lemma {:induction false} AnchorTies(s: seq<real>, k: nat)
    requires k < |s|
    ensures Ties(s[k], s[Anchor(s, k)])
  {
    if k > 0 && Ties(s[k], s[Anchor(s, k - 1)]) {
    }
  }

  lemma {:induction false} AnchorMonotone(s: seq<real>, j: nat, k: nat)
    requires j <= k < |s|
    ensures Anchor(s, j) <= Anchor(s, k)
    decreases k - j
  {
    if j < k {
      AnchorMonotone(s, j, k - 1);
    }
  }

  /** An index inside a run has that run's anchor. */
  lemma {:induction false} AnchorWithinRun(s: seq<real>, j: nat, k: nat)
    requires j <= k < |s|
    requires Anchor(s, k) <= j
    ensures Anchor(s, j) == Anchor(s, k)
    decreases k - j
  {
    if j < k {
      assert Anchor(s, k) < k;
      AnchorWithinRun(s, j, k - 1);
    }
  }

  /** The first entry is placed first; places never decrease and never
      exceed the entry's position; and at least the first 12 entries (or all
      of them) are kept, never more than the input. */
  lemma PlacesShape(s: seq<real>)
    ensures |Places(s)| <= |s|
    ensures |Places(s)| >= (if |s| < MaxEntriesPerGroup then |s| else MaxEntriesPerGroup)
    ensures |s| > 0 ==> Places(s)[0] == 1
    ensures forall k | 0 <= k < |Places(s)| :: 1 <= Places(s)[k] <= k + 1
    ensures forall j, k | 0 <= j <= k < |Places(s)| :: Places(s)[j] <= Places(s)[k]
  {
    PlacesMeetRule(s);
    var r := PlaceRule(s);
    forall j, k | 0 <= j <= k < |r|
      ensures r[j] <= r[k]
    {
      AnchorMonotone(s, j, k);
    }
  }

  /** Tied entries share a place: an entry that ties its predecessor's run
      gets that run's place, and an entry that does not gets its own
      position plus one, skipping over the whole previous run. */
  lemma PlacesTieRule(s: seq<real>, k: nat)
    requires 0 < k < |s| && k < |Places(s)|
    ensures Ties(s[k], s[Anchor(s, k - 1)]) ==> Places(s)[k] == Places(s)[k - 1]
    ensures !Ties(s[k], s[Anchor(s, k - 1)]) ==> Places(s)[k] == k + 1
  {
    PlacesMeetRule(s);
  }

  /** Past the 12th entry, the list only goes on while entries tie the run
      the 12th entry is in, and they all share its place; when entries are
      dropped, the first dropped entry starts a new run. */
  lemma PlacesCap(s: seq<real>)
    ensures forall k | MaxEntriesPerGroup <= k < |Places(s)| :: Places(s)[k] == Places(s)[MaxEntriesPerGroup - 1]
    ensures |Places(s)| < |s| ==>
      |Places(s)| >= MaxEntriesPerGroup && !Ties(s[|Places(s)|], s[Anchor(s, |Places(s)| - 1)])
  {
    PlacesMeetRule(s);
    var r := PlaceRule(s);
    forall k | MaxEntriesPerGroup <= k < |r|
      ensures r[k] == r[MaxEntriesPerGroup - 1]
    {
      CutPrefixNoRuns(s, k);
      AnchorBeforeCap(s, k);
    }
    var c := CutIndex(s);
    if c < |s| {
      assert Anchor(s, c) == c;
    }
  }

  lemma CutPrefixNoRuns(s: seq<real>, k: nat)
    requires k < CutIndex(s)
    ensures forall j | MaxEntriesPerGroup <= j <= k :: Anchor(s, j) < j
  {
  }

  /** If no run starts between 12 and `k`, entry `k` is in the 12th entry's
      run. */
  lemma {:induction false} AnchorBeforeCap(s: seq<real>, k: nat)
    requires MaxEntriesPerGroup <= k < |s|
    requires forall j | MaxEntriesPerGroup <= j <= k :: Anchor(s, j) < j
    ensures Anchor(s, k) == Anchor(s, MaxEntriesPerGroup - 1)
    decreases k
  {
    if k > MaxEntriesPerGroup {
      AnchorBeforeCap(s, k - 1);
    }
  }

  /** Scores that pairwise differ by at least 0.0001 get places 1, 2, 3, …
      up to the cap of 12. */
  lemma DistinctScoresPlaces(s: seq<real>)
    requires forall i, j | 0 <= i < j < |s| :: !Ties(s[i], s[j])
    ensures |Places(s)| == (if |s| < MaxEntriesPerGroup then |s| else MaxEntriesPerGroup)
    ensures forall k | 0 <= k < |Places(s)| :: Places(s)[k] == k + 1
  {
    PlacesMeetRule(s);
    forall k | 0 <= k < |s|
      ensures Anchor(s, k) == k
    {
      if Anchor(s, k) < k {
        AnchorTies(s, k);
      }
    }
    if MaxEntriesPerGroup <= |s| {
      CutAt(s, MaxEntriesPerGroup);
    } else {
      CutAt(s, |s|);
    }
  }

  /** Scores 95.5, 95.5 and 92.0 are placed 1, 1 and 3. */
  lemma SharedFirstPlace()
    ensures Places([95.5, 95.5, 92.0]) == [1, 1, 3]
  {
    var s := [95.5, 95.5, 92.0];
    PlacesMeetRule(s);
    assert Anchor(s, 1) == 0;
    assert Anchor(s, 2) == 2;
    CutAt(s, 3);
  }

  /** Thirteen entries where the last two tie: all thirteen are kept and the
      last two share 12th place. A fourteenth, lower entry is dropped. */
  lemma TieAtTheCut()
    ensures var s := [20.0, 19.0, 18.0, 17.0, 16.0, 15.0, 14.0, 13.0, 12.0, 11.0, 10.0, 9.0, 9.0, 8.0];
      Places(s) == [1, 2, 3, 4, 5, 6, 7, 8, 9, 10, 11, 12, 12]
  {
    var s := [20.0, 19.0, 18.0, 17.0, 16.0, 15.0, 14.0, 13.0, 12.0, 11.0, 10.0, 9.0, 9.0, 8.0];
    PlacesMeetRule(s);
    CutAfterTie(s);
  }

  /** The list of `TieAtTheCut` stops after its thirteenth entry. */
  lemma CutAfterTie(s: seq<real>)
    requires s == [20.0, 19.0, 18.0, 17.0, 16.0, 15.0, 14.0, 13.0, 12.0, 11.0, 10.0, 9.0, 9.0, 8.0]
    ensures CutIndex(s) == 13
  {
    assert Anchor(s, 12) == 11;
    assert Anchor(s, 13) == 13;
    CutAt(s, 13);
  }
}
