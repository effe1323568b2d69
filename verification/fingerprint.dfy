/** Routine fingerprints: the identity of a routine across imports, built
    from normalized names so that case and spacing do not matter. */
module Fingerprint {
  import opened Wrappers
  import opened Text
  import opened Seqs
  import Sorting

  // ---------------------------------------------------------------------
  // Name normalization

  function NotWhite(c: char): bool {
    !IsWhiteSpace(c)
  }

  /** The characters that carry content: everything but whitespace. */
  function Content(s: string): string {
    Filter(s, NotWhite)
  }

  /** Every whitespace character is a plain space. */
  predicate OnlySpaces(s: string)
    decreases |s|
  {
    |s| == 0 || ((IsWhiteSpace(s[0]) ==> s[0] == ' ') && OnlySpaces(s[1..]))
  }

  /** No two spaces are adjacent. */
  predicate NoDoubleSpace(s: string)
    decreases |s|
  {
    |s| < 2 || (!(s[0] == ' ' && s[1] == ' ') && NoDoubleSpace(s[1..]))
  }

  /** No lower-case ASCII letter. */
  predicate NoLower(s: string)
    decreases |s|
  {
    |s| == 0 || (!('a' <= s[0] <= 'z') && NoLower(s[1..]))
  }

  /** The shape of a normalized name: no outer whitespace, and words
      separated by single spaces. */
  predicate Normal(s: string) {
    Trimmed(s) && OnlySpaces(s) && NoDoubleSpace(s)
  }

  /** `Regex.Replace(s, @"\s+", " ")`, scanning left to right; `inRun` says
      the previous character was whitespace already replaced. */
  function CollapseFrom(s: string, inRun: bool): (r: string)
    ensures OnlySpaces(r) && NoDoubleSpace(r)
    ensures inRun && |r| > 0 ==> r[0] != ' '
    ensures |s| > 0 && !IsWhiteSpace(s[0]) ==> |r| > 0 && r[0] == s[0]
    ensures |s| > 0 && !IsWhiteSpace(s[|s| - 1]) ==> |r| > 0 && r[|r| - 1] == s[|s| - 1]
    ensures |s| == 0 ==> r == []
    decreases |s|
  {
    if |s| == 0 then []
    else
      var rest := CollapseFrom(s[1..], IsWhiteSpace(s[0]));
      if IsWhiteSpace(s[0]) then
        if inRun then rest
        else
          assert ([' '] + rest)[1..] == rest;
          [' '] + rest
      else
        assert ([s[0]] + rest)[1..] == rest;
        [s[0]] + rest
  }

  /** Collapsing and upper-casing in one pass: what `NormalizeName` does
      to the trimmed name. */
  function UpperCollapse(s: string, inRun: bool): (r: string)
    decreases |s|
  {
    if |s| == 0 then []
    else
      var rest := UpperCollapse(s[1..], IsWhiteSpace(s[0]));
      if IsWhiteSpace(s[0]) then
        if inRun then rest else [' '] + rest
      else [UpperChar(s[0])] + rest
  }

  /** The one pass leaves single spaces between words, no lower-case
      letter, and keeps an outer non-whitespace character outer. */
  lemma {:induction false} UpperCollapseShape(s: string, inRun: bool)
    ensures OnlySpaces(UpperCollapse(s, inRun)) && NoDoubleSpace(UpperCollapse(s, inRun))
    ensures NoLower(UpperCollapse(s, inRun))
    ensures inRun && |UpperCollapse(s, inRun)| > 0 ==> UpperCollapse(s, inRun)[0] != ' '
    ensures |s| > 0 && !IsWhiteSpace(s[0]) ==>
      |UpperCollapse(s, inRun)| > 0 && !IsWhiteSpace(UpperCollapse(s, inRun)[0])
    ensures |s| > 0 && !IsWhiteSpace(s[|s| - 1]) ==>
      |UpperCollapse(s, inRun)| > 0 && !IsWhiteSpace(UpperCollapse(s, inRun)[|UpperCollapse(s, inRun)| - 1])
    decreases |s|
  {
    if |s| > 0 {
      var r := UpperCollapse(s, inRun);
      var rest := UpperCollapse(s[1..], IsWhiteSpace(s[0]));
      UpperCollapseShape(s[1..], IsWhiteSpace(s[0]));
      if IsWhiteSpace(s[0]) {
        if !inRun {
          assert r[1..] == rest;
        }
      } else {
        UpperKeepsWhite(s[0]);
        assert r[1..] == rest;
      }
    }
  }

  /** The one pass is the regular-expression replacement followed by
      `ToUpperInvariant`. */
  lemma {:induction false} UpperCollapseIsUpperOfCollapse(s: string, inRun: bool)
    ensures UpperCollapse(s, inRun) == Upper(CollapseFrom(s, inRun))
    decreases |s|
  {
    if |s| > 0 {
      UpperCollapseIsUpperOfCollapse(s[1..], IsWhiteSpace(s[0]));
      var rest := CollapseFrom(s[1..], IsWhiteSpace(s[0]));
      if IsWhiteSpace(s[0]) {
        if !inRun {
          UpperConcat([' '], rest);
        }
      } else {
        UpperConcat([s[0]], rest);
      }
    }
  }

  /** Collapsing keeps every non-whitespace character, in order. */
  lemma {:induction false} CollapseContent(s: string, inRun: bool)
    ensures Content(CollapseFrom(s, inRun)) == Content(s)
    decreases |s|
  {
    if |s| > 0 {
      var rest := CollapseFrom(s[1..], IsWhiteSpace(s[0]));
      CollapseContent(s[1..], IsWhiteSpace(s[0]));
      assert s == [s[0]] + s[1..];
      if IsWhiteSpace(s[0]) {
        if !inRun {
          assert ([' '] + rest)[1..] == rest;
        }
      } else {
        assert ([s[0]] + rest)[1..] == rest;
      }
    }
  }

  /** A string already in normal shape collapses to itself. */
  lemma {:induction false} CollapseNormal(s: string, inRun: bool)
    requires OnlySpaces(s) && NoDoubleSpace(s)
    requires inRun ==> |s| == 0 || s[0] != ' '
    ensures CollapseFrom(s, inRun) == s
    decreases |s|
  {
    if |s| > 0 {
      CollapseNormal(s[1..], IsWhiteSpace(s[0]));
      assert s == [s[0]] + s[1..];
    }
  }

  lemma {:induction false} UpperContent(s: string)
    ensures Content(Upper(s)) == Upper(Content(s))
    decreases |s|
  {
    if |s| > 0 {
      var u := Upper(s);
      assert u[1..] == Upper(s[1..]);
      UpperContent(s[1..]);
      UpperKeepsWhite(s[0]);
      if NotWhite(s[0]) {
        assert Content(u) == [u[0]] + Content(u[1..]);
        assert Content(s) == [s[0]] + Content(s[1..]);
        UpperConcat([s[0]], Content(s[1..]));
      } else {
        assert Content(u) == Content(u[1..]);
        assert Content(s) == Content(s[1..]);
      }
    }
  }

  /** Dropping a whitespace prefix keeps the content. */
  lemma WhitePrefixContent(w: string, t: string)
    requires AllWhite(w)
    ensures Content(w + t) == Content(t)
  {
    forall i | 0 <= i < |w|
      ensures !NotWhite(w[i])
    {
    }
    FilterNone(w, NotWhite);
    FilterConcat(w, t, NotWhite);
  }

  lemma TrimContent(s: string)
    ensures Content(Trim(s)) == Content(s)
  {
    var t := TrimStart(s);
    TrimStartDropsWhite(s);
    var w := s[..|s| - |t|];
    assert s == w + t;
    WhitePrefixContent(w, t);
    var r := TrimEnd(t);
    TrimEndDropsWhite(t);
    var w2 := t[|r|..];
    assert t == r + w2;
    WhiteSuffixContent(r, w2);
  }

  /** Dropping a whitespace suffix keeps the content. */
  lemma WhiteSuffixContent(r: string, w: string)
    requires AllWhite(w)
    ensures Content(r + w) == Content(r)
  {
    forall i | 0 <= i < |w|
      ensures !NotWhite(w[i])
    {
    }
    FilterNone(w, NotWhite);
    FilterConcat(r, w, NotWhite);
    assert Content(r) + [] == Content(r);
  }

  /** A string without lower-case letters is its own upper case. */
  lemma {:induction false} NoLowerUpper(s: string)
    requires NoLower(s)
    ensures Upper(s) == s
    decreases |s|
  {
    if |s| > 0 {
      NoLowerUpper(s[1..]);
      assert Upper(s)[1..] == Upper(s[1..]);
    }
  }

  /** `FingerprintService.NormalizeName`: trimmed, whitespace runs collapsed
      to one space, upper-cased. Every caller passes a string (a null
      category or class arrives as ""), so null is not modelled. */
  function NormalizeName(s: string): string {
    Upper(CollapseFrom(Trim(s), false))
  }

  /** A normalized name is upper-case and of normal shape. */
  lemma NormalizeShape(s: string)
    ensures Normal(NormalizeName(s)) && NoLower(NormalizeName(s))
  {
    var t := Trim(s);
    UpperCollapseIsUpperOfCollapse(t, false);
    UpperCollapseShape(t, false);
    var u := UpperCollapse(t, false);
    assert NormalizeName(s) == u;
    assert Trimmed(u);
  }

  /** A name normalizes to the empty string exactly when it is blank. */
  lemma NormalizeEmpty(name: string)
    ensures NormalizeName(name) == [] <==> AllWhite(name)
  {
    TrimEmptyIff(name);
    var t := Trim(name);
    if t != [] {
      assert !IsWhiteSpace(t[0]);
    }
  }

  /** Normalizing keeps the non-whitespace characters, in order, and only
      changes their case. */
  lemma NormalizeContent(s: string)
    ensures Content(NormalizeName(s)) == Upper(Content(s))
  {
    CollapseContent(Trim(s), false);
    TrimContent(s);
    UpperContent(CollapseFrom(Trim(s), false));
  }

  /** The normalized names are exactly the upper-case strings of normal
      shape: each of those normalizes to itself. */
  lemma NormalizeFixpoint(x: string)
    requires Normal(x) && NoLower(x)
    ensures NormalizeName(x) == x
  {
    TrimNoop(x);
    CollapseNormal(x, false);
    NoLowerUpper(x);
  }

  /** Normalizing twice is normalizing once. */
  lemma NormalizeIdempotent(name: string)
    ensures NormalizeName(NormalizeName(name)) == NormalizeName(name)
  {
    NormalizeShape(name);
    NormalizeFixpoint(NormalizeName(name));
  }

  /** Normalizing introduces no character but spaces and upper-case
      letters: a separator absent from the name is absent from its
      normalized form. */
  lemma NormalizeKeepsAbsent(p: string, ch: char)
    requires NotWhite(ch) && !('A' <= ch <= 'Z') && ch !in p
    ensures ch !in NormalizeName(p)
  {
    var r := NormalizeName(p);
    NormalizeContent(p);
    FilterIn(p, NotWhite, ch);
    UpperKeepsAbsent(Content(p), ch);
    FilterIn(r, NotWhite, ch);
  }

  lemma UpperKeepsAbsent(c: string, ch: char)
    requires !('A' <= ch <= 'Z') && ch !in c
    ensures ch !in Upper(c)
  {
    forall i | 0 <= i < |c|
      ensures Upper(c)[i] != ch
    {
      assert c[i] != ch;
    }
  }

  // ---------------------------------------------------------------------
  // Participants

  /** One comma-separated piece: trimmed and dropped when empty, then
      normalized. */
  function KeptName(part: string): (r: seq<string>)
    ensures r == [] || r == [NormalizeName(Trim(part))]
  {
    var t := Trim(part);
    if |t| == 0 then [] else NonEmptyName(NormalizeName(t))
  }

  /** The `Where(x => x.Length > 0)` after normalizing. */
  function NonEmptyName(n: string): (r: seq<string>)
    ensures r == [] || r == [n]
    ensures forall i | 0 <= i < |r| :: |r[i]| > 0
  {
    if |n| > 0 then [n] else []
  }

  /** The pieces that survive, in input order. */
  function KeptNames(parts: seq<string>): (r: seq<string>)
    decreases |parts|
  {
    if |parts| == 0 then [] else KeptName(parts[0]) + KeptNames(parts[1..])
  }

  /** A normalized name of a piece, as a participant entry. */
  predicate ValidName(x: string) {
    |x| > 0 && Normal(x) && NoLower(x)
  }

  lemma KeptNameFirst(part: string)
    requires KeptName(part) != []
    ensures |KeptName(part)| == 1 && ValidName(KeptName(part)[0])
  {
    NormalizeShape(Trim(part));
  }

  lemma SingleValid(h: seq<string>)
    requires |h| == 1 && ValidName(h[0])
    ensures AllValid(h)
  {
  }

  lemma KeptNameValid(part: string)
    ensures AllValid(KeptName(part))
  {
    if KeptName(part) != [] {
      KeptNameFirst(part);
      SingleValid(KeptName(part));
    }
  }

  ghost predicate AllValid(names: seq<string>) {
    forall i | 0 <= i < |names| :: ValidName(names[i])
  }

  lemma AllValidConcat(h: seq<string>, t: seq<string>)
    requires AllValid(h) && AllValid(t)
    ensures AllValid(h + t)
  {
    forall i | 0 <= i < |h + t|
      ensures ValidName((h + t)[i])
    {
      if i >= |h| {
        assert (h + t)[i] == t[i - |h|];
      }
    }
  }

  /** Every surviving name is non-empty, upper-case and in normal shape. */
  lemma {:induction false} KeptNamesValid(parts: seq<string>)
    ensures AllValid(KeptNames(parts))
    decreases |parts|
  {
    if |parts| > 0 {
      KeptNamesValid(parts[1..]);
      KeptNameValid(parts[0]);
      AllValidConcat(KeptName(parts[0]), KeptNames(parts[1..]));
    }
  }

  /** A piece with content always survives: the second emptiness test
      never drops anything. */
  lemma KeptNameOf(part: string)
    ensures KeptName(part) == if AllWhite(part) then [] else [NormalizeName(part)]
  {
    TrimEmptyIff(part);
    TrimIdempotent(part);
    if !AllWhite(part) {
      var t := Trim(part);
      assert !AllWhite(t) by {
        assert !IsWhiteSpace(t[0]);
      }
    }
  }

  lemma {:induction false} KeptNamesConcat(a: seq<string>, b: seq<string>)
    ensures KeptNames(a + b) == KeptNames(a) + KeptNames(b)
    decreases |a|
  {
    if |a| == 0 {
      assert a + b == b;
      assert KeptNames(a) == [];
    } else {
      var ab := a + b;
      assert ab[0] == a[0];
      assert ab[1..] == a[1..] + b;
      KeptNamesConcat(a[1..], b);
      var h := KeptName(a[0]);
      assert KeptNames(ab) == h + KeptNames(ab[1..]);
      assert KeptNames(a) == h + KeptNames(a[1..]);
      ConcatAssoc(h, KeptNames(a[1..]), KeptNames(b));
    }
  }

  lemma ConcatAssoc<T>(x: seq<T>, y: seq<T>, z: seq<T>)
    ensures x + (y + z) == (x + y) + z
  {
  }

  /** Taking the same element out of two permutations of each other
      leaves permutations of each other. */
  lemma RemoveAt<T>(a: seq<T>, b: seq<T>, j: nat)
    requires multiset(a) == multiset(b)
    requires |a| > 0 && j < |b| && b[j] == a[0]
    ensures b == b[..j] + [b[j]] + b[j + 1..]
    ensures multiset(a[1..]) == multiset(b[..j] + b[j + 1..])
  {
    assert b == b[..j] + [b[j]] + b[j + 1..];
    assert a == [a[0]] + a[1..];
    calc {
      multiset(a[1..]);
      multiset(a) - multiset{a[0]};
      multiset(b) - multiset{b[j]};
      multiset(b[..j]) + multiset(b[j + 1..]);
      multiset(b[..j] + b[j + 1..]);
    }
  }

  /** The surviving names depend only on which pieces there are, not on
      their order. */
  lemma {:induction false} KeptNamesPermutation(a: seq<string>, b: seq<string>)
    requires multiset(a) == multiset(b)
    ensures multiset(KeptNames(a)) == multiset(KeptNames(b))
    decreases |a|
  {
    if |a| > 0 {
      assert a[0] in multiset(b);
      var j :| 0 <= j < |b| && b[j] == a[0];
      var rest := b[..j] + b[j + 1..];
      RemoveAt(a, b, j);
      KeptNamesPermutation(a[1..], rest);
      KeptNamesRemove(b, j);
      assert KeptNames(a) == KeptName(a[0]) + KeptNames(a[1..]);
    } else {
      assert b == [];
    }
  }

  /** Taking piece `j` out of the pieces takes out the names it keeps. */
  lemma KeptNamesRemove(b: seq<string>, j: nat)
    requires j < |b|
    ensures multiset(KeptNames(b)) == multiset(KeptName(b[j])) + multiset(KeptNames(b[..j] + b[j + 1..]))
  {
    var pre, x, post := b[..j], b[j], b[j + 1..];
    Seqs.SplitAt(b, j);
    KeptNamesSplit(pre, x, post);
    Seqs.RemoveMiddle(KeptNames(pre), KeptName(x), KeptNames(post));
  }

  /** The names kept from `pre`, one piece and `post`, with and without the
      piece. */
  lemma KeptNamesSplit(pre: seq<string>, x: string, post: seq<string>)
    ensures KeptNames(pre + [x] + post) == KeptNames(pre) + KeptName(x) + KeptNames(post)
    ensures KeptNames(pre + post) == KeptNames(pre) + KeptNames(post)
  {
    KeptNamesConcat(pre + [x], post);
    KeptNamesConcat(pre, [x]);
    KeptNamesConcat(pre, post);
    KeptNamesSingle(x);
  }

  lemma KeptNamesSingle(x: string)
    ensures KeptNames([x]) == KeptName(x)
  {
    assert [x][1..] == [];
  }

  /** A surviving name comes from a piece with content, and every such
      piece contributes its normalized name. */
  lemma {:induction false} KeptNamesMembers(parts: seq<string>, x: string)
    ensures x in KeptNames(parts) <==>
      exists i | 0 <= i < |parts| :: !AllWhite(parts[i]) && x == NormalizeName(parts[i])
    decreases |parts|
  {
    if |parts| > 0 {
      KeptNamesMembers(parts[1..], x);
      KeptNameOf(parts[0]);
      if exists i | 0 <= i < |parts| :: !AllWhite(parts[i]) && x == NormalizeName(parts[i]) {
        var i :| 0 <= i < |parts| && !AllWhite(parts[i]) && x == NormalizeName(parts[i]);
        if i > 0 {
          assert parts[1..][i - 1] == parts[i];
        }
      }
      if x in KeptNames(parts[1..]) {
        var i :| 0 <= i < |parts| - 1 && !AllWhite(parts[1..][i]) && x == NormalizeName(parts[1..][i]);
        assert parts[i + 1] == parts[1..][i];
      }
    }
  }

  /** A character no piece contains is in no surviving name. */
  lemma {:induction false} KeptNamesKeepAbsent(parts: seq<string>, ch: char)
    requires NotWhite(ch) && !('A' <= ch <= 'Z')
    requires forall i | 0 <= i < |parts| :: ch !in parts[i]
    ensures forall x | x in KeptNames(parts) :: ch !in x
    decreases |parts|
  {
    if |parts| > 0 {
      KeptNamesKeepAbsent(parts[1..], ch);
      KeptNameOf(parts[0]);
      if !AllWhite(parts[0]) {
        NormalizeKeepsAbsent(parts[0], ch);
      }
    }
  }

  lemma StrLeTotalOrder()
    ensures Sorting.TotalOrder(StrLe)
  {
    forall a: string, b: string
      ensures StrLe(a, b) || StrLe(b, a)
    {
      StrLeTotal(a, b);
    }
    forall a: string, b: string, c: string | StrLe(a, b) && StrLe(b, c)
      ensures StrLe(a, c)
    {
      StrLeTrans(a, b, c);
    }
    forall a: string, b: string | StrLe(a, b) && StrLe(b, a)
      ensures a == b
    {
      StrLeAntisym(a, b);
    }
  }

  /** `OrderBy(x => x)` on names, with ordinal comparison. */
  function SortNames(names: seq<string>): (r: seq<string>)
    ensures Sorting.SortedBy(r, StrLe)
    ensures multiset(r) == multiset(names)
  {
    StrLeTotalOrder();
    Sorting.SortBy(names, StrLe)
  }

  /** Sorting forgets the input order. */
  lemma SortNamesPermutation(a: seq<string>, b: seq<string>)
    requires multiset(a) == multiset(b)
    ensures SortNames(a) == SortNames(b)
  {
    StrLeTotalOrder();
    Sorting.SortByPermutation(a, b, StrLe);
  }

  /** No name contains the separator `ch`. */
  ghost predicate NoneContain(names: seq<string>, ch: char) {
    forall i | 0 <= i < |names| :: ch !in names[i]
  }

  /** What holds of every element holds of every element of a
      permutation. */
  lemma PermutationKeeps(a: seq<string>, b: seq<string>, p: string -> bool)
    requires multiset(a) == multiset(b)
    requires forall i | 0 <= i < |a| :: p(a[i])
    ensures forall i | 0 <= i < |b| :: p(b[i])
  {
    forall i | 0 <= i < |b|
      ensures p(b[i])
    {
      assert b[i] in multiset(a);
    }
  }

  function NoComma(x: string): bool {
    ',' !in x
  }

  /** `FingerprintService.SplitAndNormalizeParticipants`: the
      comma-separated names, normalized, without blanks, in order. */
  function SplitAndNormalizeParticipants(raw: Option<string>): (r: seq<string>)
    ensures Sorting.SortedBy(r, StrLe)
    ensures AllValid(r) && NoneContain(r, ',')
    ensures !IsNullOrWhiteSpace(raw) ==> multiset(r) == multiset(KeptNames(Split(raw.value, ',')))
    ensures IsNullOrWhiteSpace(raw) ==> r == []
  {
    if IsNullOrWhiteSpace(raw) then []
    else
      var parts := Split(raw.value, ',');
      var kept := KeptNames(parts);
      var r := SortNames(kept);
      KeptNamesValid(parts);
      PermutationKeeps(kept, r, ValidName);
      KeptNamesKeepAbsent(parts, ',');
      assert forall i | 0 <= i < |kept| :: NoComma(kept[i]) by {
        forall i | 0 <= i < |kept|
          ensures NoComma(kept[i])
        {
          assert kept[i] in kept;
        }
      }
      PermutationKeeps(kept, r, NoComma);
      r
  }

  /** Every piece of an all-whitespace text is all whitespace. */
  lemma {:induction false} SplitAllWhite(s: string, sep: char)
    requires AllWhite(s) && !IsWhiteSpace(sep)
    ensures forall i | 0 <= i < |Split(s, sep)| :: AllWhite(Split(s, sep)[i])
    decreases |s|
  {
    if |s| > 0 {
      assert AllWhite(s[1..]);
      SplitAllWhite(s[1..], sep);
    }
  }

  lemma {:induction false} KeptNamesOfWhite(parts: seq<string>)
    requires forall i | 0 <= i < |parts| :: AllWhite(parts[i])
    ensures KeptNames(parts) == []
    decreases |parts|
  {
    if |parts| > 0 {
      KeptNameOf(parts[0]);
      KeptNamesOfWhite(parts[1..]);
    }
  }

  /** The blank-input guard changes nothing: the participants are always
      the sorted surviving pieces. */
  lemma ParticipantsOfSplit(raw: string)
    ensures SplitAndNormalizeParticipants(Some(raw)) == SortNames(KeptNames(Split(raw, ',')))
  {
    if AllWhite(raw) {
      BlankParticipants(raw);
    }
  }

  lemma BlankParticipants(raw: string)
    requires AllWhite(raw)
    ensures SplitAndNormalizeParticipants(Some(raw)) == []
    ensures SortNames(KeptNames(Split(raw, ','))) == []
  {
    SplitAllWhite(raw, ',');
    KeptNamesOfWhite(Split(raw, ','));
    SortEmpty();
  }

  lemma SortEmpty()
    ensures SortNames([]) == []
  {
  }

  /** A participant is the normalized form of a comma-separated piece with
      content, and every such piece yields one. */
  lemma ParticipantsMembers(raw: string, x: string)
    ensures x in SplitAndNormalizeParticipants(Some(raw)) <==>
      exists i | 0 <= i < |Split(raw, ',')| :: !AllWhite(Split(raw, ',')[i]) && x == NormalizeName(Split(raw, ',')[i])
  {
    ParticipantsOfSplit(raw);
    var kept := KeptNames(Split(raw, ','));
    KeptNamesMembers(Split(raw, ','), x);
    assert x in SortNames(kept) <==> x in multiset(kept);
  }

  /** Listing the same participants in another order gives the same
      list. */
  lemma ParticipantOrderIrrelevant(a: seq<string>, b: seq<string>)
    requires |a| >= 1 && multiset(a) == multiset(b)
    requires forall i | 0 <= i < |a| :: ',' !in a[i]
    ensures SplitAndNormalizeParticipants(Some(Join(a, ","))) == SplitAndNormalizeParticipants(Some(Join(b, ",")))
  {
    PermutationKeeps(a, b, NoComma);
    assert |b| == |multiset(b)|;
    SplitJoin(a, ',');
    SplitJoin(b, ',');
    ParticipantsOfSplit(Join(a, ","));
    ParticipantsOfSplit(Join(b, ","));
    KeptNamesPermutation(a, b);
    SortNamesPermutation(KeptNames(a), KeptNames(b));
  }

  /** Two pieces that normalize alike both stay: "Ann, ann" lists ANN
      twice. */
  lemma SameNameTwice(a: string, b: string)
    requires ',' !in a && ',' !in b && !AllWhite(a)
    requires NormalizeName(a) == NormalizeName(b)
    ensures SplitAndNormalizeParticipants(Some(Join([a, b], ","))) == [NormalizeName(a), NormalizeName(a)]
  {
    NormalizeEmpty(a);
    NormalizeEmpty(b);
    ParticipantsOfTwo(a, b);
    KeptTwo(a, b);
    SortSame(NormalizeName(a));
  }

  lemma ParticipantsOfTwo(a: string, b: string)
    requires ',' !in a && ',' !in b
    ensures SplitAndNormalizeParticipants(Some(Join([a, b], ","))) == SortNames(KeptNames([a, b]))
  {
    SplitJoin([a, b], ',');
    ParticipantsOfSplit(Join([a, b], ","));
  }

  lemma KeptTwo(a: string, b: string)
    requires !AllWhite(a) && !AllWhite(b)
    ensures KeptNames([a, b]) == [NormalizeName(a), NormalizeName(b)]
  {
    KeptNamesConcat([a], [b]);
    PairConcat(a, b);
    KeptOne(a);
    KeptOne(b);
    PairConcat(NormalizeName(a), NormalizeName(b));
  }

  lemma PairConcat<T>(x: T, y: T)
    ensures [x] + [y] == [x, y]
  {
  }

  lemma KeptOne(a: string)
    requires !AllWhite(a)
    ensures KeptNames([a]) == [NormalizeName(a)]
  {
    assert [a][1..] == [];
    KeptNameOf(a);
  }

  lemma SortSame(n: string)
    ensures SortNames([n, n]) == [n, n]
  {
    var r := SortNames([n, n]);
    assert multiset(r) == multiset{n, n};
    assert |r| == 2;
    assert r[0] in multiset(r) && r[1] in multiset(r);
  }

  // ---------------------------------------------------------------------
  // Fingerprint

  /** The five name fields of a routine, a null category or class read
      as "". */
  function NameFields(studioName: string, routineTitle: string, entryType: string,
                      category: Option<string>, className: Option<string>): (fs: seq<string>)
    ensures |fs| == 5
  {
    [studioName, routineTitle, entryType, category.GetOr(""), className.GetOr("")]
  }

  /** The six parts of the fingerprint key: the five name fields
      normalized, then the participants joined by commas. The program
      number is not one of them. */
  function KeyParts(studioName: string, routineTitle: string, entryType: string,
                    category: Option<string>, className: Option<string>,
                    participants: seq<string>): (ps: seq<string>)
    ensures |ps| == 6
    ensures ps[5] == Join(participants, ",")
  {
    var fs := NameFields(studioName, routineTitle, entryType, category, className);
    seq(5, i requires 0 <= i < 5 => NormalizeName(fs[i])) + [Join(participants, ",")]
  }

  /** The text `ComputeRoutineFingerprint` hashes: the parts joined by
      '|'. The SHA-1 digest of it is not modelled; the key stands for the
      fingerprint. */
  function FingerprintKey(studioName: string, routineTitle: string, entryType: string,
                          category: Option<string>, className: Option<string>,
                          participants: seq<string>): (key: string)
    ensures |key| >= 5
  {
    var ps := KeyParts(studioName, routineTitle, entryType, category, className, participants);
    JoinLength(ps, "|");
    Join(ps, "|")
  }

  /** Joining n pieces spends n - 1 separators. */
  lemma {:induction false} JoinLength(parts: seq<string>, sep: string)
    requires |parts| >= 1
    ensures |Join(parts, sep)| >= (|parts| - 1) * |sep|
    decreases |parts|
  {
    if |parts| > 1 {
      JoinLength(parts[1..], sep);
    }
  }

  /** A character in neither the pieces nor the separator is not in the
      join. */
  lemma {:induction false} JoinKeepsAbsent(parts: seq<string>, sep: string, ch: char)
    requires ch !in sep
    requires forall i | 0 <= i < |parts| :: ch !in parts[i]
    ensures ch !in Join(parts, sep)
    decreases |parts|
  {
    if |parts| > 1 {
      JoinKeepsAbsent(parts[1..], sep, ch);
    }
  }

  /** No text the key is built from contains '|'. */
  predicate PipeFree(studioName: string, routineTitle: string, entryType: string,
                     category: Option<string>, className: Option<string>,
                     participants: seq<string>) {
    (forall i | 0 <= i < 5 :: '|' !in NameFields(studioName, routineTitle, entryType, category, className)[i])
    && forall i | 0 <= i < |participants| :: '|' !in participants[i]
  }

  /** No part of the key contains '|' when no input does. */
  lemma KeyPartsPipeFree(studioName: string, routineTitle: string, entryType: string,
                         category: Option<string>, className: Option<string>,
                         participants: seq<string>)
    requires PipeFree(studioName, routineTitle, entryType, category, className, participants)
    ensures forall i | 0 <= i < 6 :: '|' !in KeyParts(studioName, routineTitle, entryType, category, className, participants)[i]
  {
    var fs := NameFields(studioName, routineTitle, entryType, category, className);
    var ps := KeyParts(studioName, routineTitle, entryType, category, className, participants);
    JoinKeepsAbsent(participants, ",", '|');
    forall i | 0 <= i < 6
      ensures '|' !in ps[i]
    {
      if i < 5 {
        assert ps[i] == NormalizeName(fs[i]);
        NormalizeKeepsAbsent(fs[i], '|');
      }
    }
  }

  /** Without '|' in the inputs, the key splits back into its six parts. */
  lemma FingerprintKeySplits(studioName: string, routineTitle: string, entryType: string,
                             category: Option<string>, className: Option<string>,
                             participants: seq<string>)
    requires PipeFree(studioName, routineTitle, entryType, category, className, participants)
    ensures Split(FingerprintKey(studioName, routineTitle, entryType, category, className, participants), '|')
         == KeyParts(studioName, routineTitle, entryType, category, className, participants)
  {
    KeyPartsPipeFree(studioName, routineTitle, entryType, category, className, participants);
    SplitJoin(KeyParts(studioName, routineTitle, entryType, category, className, participants), '|');
  }

  /** Two routines with '|'-free inputs share a key only when their
      normalized names and participant lists agree. */
  lemma FingerprintKeyInjective(s1: string, t1: string, e1: string, c1: Option<string>, k1: Option<string>, p1: seq<string>,
                                s2: string, t2: string, e2: string, c2: Option<string>, k2: Option<string>, p2: seq<string>)
    requires PipeFree(s1, t1, e1, c1, k1, p1) && PipeFree(s2, t2, e2, c2, k2, p2)
    requires FingerprintKey(s1, t1, e1, c1, k1, p1) == FingerprintKey(s2, t2, e2, c2, k2, p2)
    ensures KeyParts(s1, t1, e1, c1, k1, p1) == KeyParts(s2, t2, e2, c2, k2, p2)
  {
    FingerprintKeySplits(s1, t1, e1, c1, k1, p1);
    FingerprintKeySplits(s2, t2, e2, c2, k2, p2);
  }

  /** Case and spacing do not change the key: routines whose name fields
      normalize alike share it. */
  lemma SameNormalizedFieldsSameKey(s1: string, t1: string, e1: string, c1: Option<string>, k1: Option<string>,
                                    s2: string, t2: string, e2: string, c2: Option<string>, k2: Option<string>,
                                    participants: seq<string>)
    requires forall i | 0 <= i < 5 :: NormalizeName(NameFields(s1, t1, e1, c1, k1)[i]) == NormalizeName(NameFields(s2, t2, e2, c2, k2)[i])
    ensures FingerprintKey(s1, t1, e1, c1, k1, participants) == FingerprintKey(s2, t2, e2, c2, k2, participants)
  {
    var ps := KeyParts(s1, t1, e1, c1, k1, participants);
    var qs := KeyParts(s2, t2, e2, c2, k2, participants);
    assert forall i | 0 <= i < 6 :: ps[i] == qs[i];
    assert ps == qs;
  }

  /** The order participants are listed in the import cell does not change
      the key. */
  lemma FingerprintIgnoresParticipantOrder(studioName: string, routineTitle: string, entryType: string,
                                           category: Option<string>, className: Option<string>,
                                           a: seq<string>, b: seq<string>)
    requires |a| >= 1 && multiset(a) == multiset(b)
    requires forall i | 0 <= i < |a| :: ',' !in a[i]
    ensures FingerprintKey(studioName, routineTitle, entryType, category, className,
                           SplitAndNormalizeParticipants(Some(Join(a, ","))))
         == FingerprintKey(studioName, routineTitle, entryType, category, className,
                           SplitAndNormalizeParticipants(Some(Join(b, ","))))
  {
    ParticipantOrderIrrelevant(a, b);
  }
}
