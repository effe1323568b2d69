/** The group headers of a score sheet: one header per maximal run of
    consecutive columns that share a group, placed at the run's column. */
module GroupHeaders {
  import opened Wrappers

  /** A header spanning `span` columns from `startIndex`. */
  datatype Header = Header(text: string, startIndex: int, span: int)

  /** Some column has a group (`ShowGroupHeaders`). */
  predicate AnyGrouped(gs: seq<Option<string>>) {
    exists i :: 0 <= i < |gs| && gs[i].Some?
  }

  /** The end of the run of group `g` that starts at `i`: the first index
      from `i` on whose group is not `g`. */
  function RunEnd(gs: seq<Option<string>>, i: nat, g: string): (e: nat)
    requires i <= |gs|
    ensures i <= e <= |gs|
    ensures forall k | i <= k < e :: gs[k] == Some(g)
    ensures e < |gs| ==> gs[e] != Some(g)
    decreases |gs| - i
  {
    if i == |gs| || gs[i] != Some(g) then i else RunEnd(gs, i + 1, g)
  }

  /** The headers of the columns from `i` on. */
  function HeadersFrom(gs: seq<Option<string>>, i: nat): seq<Header>
    requires i <= |gs|
    decreases |gs| - i
  {
    if i == |gs| then []
    else if gs[i].None? then HeadersFrom(gs, i + 1)
    else
      var e := RunEnd(gs, i, gs[i].value);
      [Header(gs[i].value, i, e - i)] + HeadersFrom(gs, e)
  }

  /** `ComputeGroupHeaders` as a function: no headers when no column is
      grouped, else the runs from the first column. */
  function Headers(gs: seq<Option<string>>): seq<Header> {
    if !AnyGrouped(gs) then [] else HeadersFrom(gs, 0)
  }

  /** `ComputeGroupHeaders`, with its two loops. The column index it keeps
      apart from `i` never differs from `i`. */
  method ComputeGroupHeaders(gs: seq<Option<string>>) returns (headers: seq<Header>)
    ensures headers == Headers(gs)
  {
    headers := [];
    if !AnyGrouped(gs) {
      return;
    }
    var currentIndex := 0;
    var i := 0;
    while i < |gs|
      invariant 0 <= i <= |gs| && currentIndex == i
      invariant headers + HeadersFrom(gs, i) == HeadersFrom(gs, 0)
      decreases |gs| - i
    {
      if gs[i].None? {
        i := i + 1;
        currentIndex := currentIndex + 1;
        continue;
      }
      var groupName := gs[i].value;
      var startIndex := currentIndex;
      var span := 0;
      ghost var e := RunEnd(gs, i, groupName);
      ghost var rest := HeadersFrom(gs, e);
      assert HeadersFrom(gs, i) == [Header(groupName, i, e - i)] + rest;
      while i < |gs| && gs[i] == Some(groupName)
        invariant startIndex <= i <= e && span == i - startIndex
        invariant RunEnd(gs, i, groupName) == e
        decreases |gs| - i
      {
        span := span + 1;
        i := i + 1;
      }
      assert headers + [Header(groupName, startIndex, span)] + rest == headers + ([Header(groupName, startIndex, span)] + rest);
      headers := headers + [Header(groupName, startIndex, span)];
      currentIndex := currentIndex + span;
    }
  }

  // ---------------------------------------------------------------------
  // Properties

  /** Without grouped columns there are no headers, and with one there is
      at least one header. */
  lemma {:induction false} HeadersFromEmptyIff(gs: seq<Option<string>>, i: nat)
    requires i <= |gs|
    ensures HeadersFrom(gs, i) == [] <==> forall k | i <= k < |gs| :: gs[k].None?
    decreases |gs| - i
  {
    if i < |gs| && gs[i].None? {
      HeadersFromEmptyIff(gs, i + 1);
    }
  }

  lemma HeadersEmptyIff(gs: seq<Option<string>>)
    ensures Headers(gs) == [] <==> !AnyGrouped(gs)
  {
    HeadersFromEmptyIff(gs, 0);
  }

  /** The `ShowGroupHeaders` guard changes nothing: the runs of an
      ungrouped sheet are already empty. */
  lemma GuardIsRedundant(gs: seq<Option<string>>)
    ensures Headers(gs) == HeadersFrom(gs, 0)
  {
    HeadersFromEmptyIff(gs, 0);
  }

  /** Header `h` covers exactly one maximal run of its group: every column
      it spans has that group, and the columns on either side do not. */
  predicate MaximalRun(gs: seq<Option<string>>, h: Header) {
    0 <= h.startIndex && 1 <= h.span && h.startIndex + h.span <= |gs|
    && (forall k | h.startIndex <= k < h.startIndex + h.span :: gs[k] == Some(h.text))
    && (h.startIndex == 0 || gs[h.startIndex - 1] != Some(h.text))
    && (h.startIndex + h.span == |gs| || gs[h.startIndex + h.span] != Some(h.text))
  }

  /** Headers follow each other without overlapping. */
  predicate Disjoint(hs: seq<Header>) {
    forall k | 0 <= k < |hs| - 1 :: hs[k].startIndex + hs[k].span <= hs[k + 1].startIndex
  }

  /** The column before `i`, if any, does not carry the group of column
      `i`: `i` is where a run starts. */
  predicate RunStart(gs: seq<Option<string>>, i: nat) {
    i <= |gs| && (i == 0 || i == |gs| || gs[i - 1] != gs[i] || gs[i].None?)
  }

  lemma {:induction false} HeadersFromShape(gs: seq<Option<string>>, i: nat)
    requires i <= |gs| && RunStart(gs, i)
    ensures forall k | 0 <= k < |HeadersFrom(gs, i)| ::
      MaximalRun(gs, HeadersFrom(gs, i)[k]) && HeadersFrom(gs, i)[k].startIndex >= i
    ensures Disjoint(HeadersFrom(gs, i))
    decreases |gs| - i
  {
    if i < |gs| {
      if gs[i].None? {
        HeadersFromShape(gs, i + 1);
      } else {
        var e := RunEnd(gs, i, gs[i].value);
        HeadersFromShape(gs, e);
        var rest := HeadersFrom(gs, e);
        var hs := HeadersFrom(gs, i);
        assert hs == [Header(gs[i].value, i, e - i)] + rest;
        assert MaximalRun(gs, hs[0]);
        forall k | 0 <= k < |hs| - 1
          ensures hs[k].startIndex + hs[k].span <= hs[k + 1].startIndex
        {
          if k > 0 {
            assert hs[k] == rest[k - 1] && hs[k + 1] == rest[k];
          }
        }
      }
    }
  }

  /** Every header covers a maximal run of its group, headers start at
      strictly increasing columns and do not overlap. */
  lemma HeadersShape(gs: seq<Option<string>>)
    ensures forall k | 0 <= k < |Headers(gs)| :: MaximalRun(gs, Headers(gs)[k])
    ensures Disjoint(Headers(gs))
    ensures forall k | 0 <= k < |Headers(gs)| - 1 :: Headers(gs)[k].startIndex < Headers(gs)[k + 1].startIndex
  {
    GuardIsRedundant(gs);
    HeadersFromShape(gs, 0);
  }

  /** Every grouped column from `i` on lies under some header. */
  lemma {:induction false} HeadersFromCover(gs: seq<Option<string>>, i: nat, c: nat)
    requires i <= c < |gs| && gs[c].Some?
    ensures exists k :: (0 <= k < |HeadersFrom(gs, i)|
      && HeadersFrom(gs, i)[k].startIndex <= c < HeadersFrom(gs, i)[k].startIndex + HeadersFrom(gs, i)[k].span)
    decreases |gs| - i
  {
    var hs := HeadersFrom(gs, i);
    if gs[i].None? {
      HeadersFromCover(gs, i + 1, c);
    } else {
      var e := RunEnd(gs, i, gs[i].value);
      var rest := HeadersFrom(gs, e);
      assert hs == [Header(gs[i].value, i, e - i)] + rest;
      if c < e {
        assert hs[0].startIndex <= c < hs[0].startIndex + hs[0].span;
      } else {
        HeadersFromCover(gs, e, c);
        var k :| 0 <= k < |rest| && rest[k].startIndex <= c < rest[k].startIndex + rest[k].span;
        assert hs[k + 1] == rest[k];
      }
    }
  }

  /** Every grouped column lies under exactly one header, and ungrouped
      columns under none. */
  lemma HeadersCover(gs: seq<Option<string>>, c: nat)
    requires c < |gs|
    ensures gs[c].Some? ==> exists k :: 0 <= k < |Headers(gs)| && Headers(gs)[k].startIndex <= c < Headers(gs)[k].startIndex + Headers(gs)[k].span
    ensures forall k, l | 0 <= k < l < |Headers(gs)| ::
      !(Headers(gs)[k].startIndex <= c < Headers(gs)[k].startIndex + Headers(gs)[k].span
        && Headers(gs)[l].startIndex <= c < Headers(gs)[l].startIndex + Headers(gs)[l].span)
    ensures gs[c].None? ==> forall k | 0 <= k < |Headers(gs)| ::
      !(Headers(gs)[k].startIndex <= c < Headers(gs)[k].startIndex + Headers(gs)[k].span)
  {
    GuardIsRedundant(gs);
    HeadersShape(gs);
    var hs := Headers(gs);
    if gs[c].Some? {
      HeadersFromCover(gs, 0, c);
    }
    forall k, l | 0 <= k < l < |hs|
      ensures hs[k].startIndex + hs[k].span <= hs[l].startIndex
    {
      DisjointApart(hs, k, l);
    }
  }

  /** In disjoint headers, every later header starts after an earlier one
      ends. */
  lemma {:induction false} DisjointApart(hs: seq<Header>, k: nat, l: nat)
    requires Disjoint(hs) && k < l < |hs|
    requires forall m | 0 <= m < |hs| :: hs[m].span >= 1
    ensures hs[k].startIndex + hs[k].span <= hs[l].startIndex
    decreases l - k
  {
    if k + 1 < l {
      DisjointApart(hs, k + 1, l);
    }
  }

  /** The sum of the spans. */
  function SpanSum(hs: seq<Header>): int
    decreases |hs|
  {
    if |hs| == 0 then 0 else hs[0].span + SpanSum(hs[1..])
  }

  lemma {:induction false} HeadersFromSpans(gs: seq<Option<string>>, i: nat)
    requires i <= |gs|
    ensures SpanSum(HeadersFrom(gs, i)) <= |gs| - i
    ensures (forall k | i <= k < |gs| :: gs[k].Some?) ==> SpanSum(HeadersFrom(gs, i)) == |gs| - i
    decreases |gs| - i
  {
    if i < |gs| {
      if gs[i].None? {
        HeadersFromSpans(gs, i + 1);
      } else {
        var e := RunEnd(gs, i, gs[i].value);
        HeadersFromSpans(gs, e);
        assert ([Header(gs[i].value, i, e - i)] + HeadersFrom(gs, e))[1..] == HeadersFrom(gs, e);
      }
    }
  }

  /** The spans add up to at most the number of columns, and to exactly
      that number when every column is grouped. */
  lemma HeadersSpans(gs: seq<Option<string>>)
    ensures SpanSum(Headers(gs)) <= |gs|
    ensures (forall k | 0 <= k < |gs| :: gs[k].Some?) ==> SpanSum(Headers(gs)) == |gs|
  {
    GuardIsRedundant(gs);
    HeadersFromSpans(gs, 0);
  }
}
