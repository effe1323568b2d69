/** The text helpers of the Ensemble report service: the ensemble size
    named in an entry type, the level named in a class display name, and
    the lenient program number parse. */
module EnsembleLabels {
  import opened Wrappers
  import opened Text
  import opened Seqs
  import Ensemble

  // ---------------------------------------------------------------------
  // Ensemble size

  /** The first size word the entry type contains, ignoring case. */
  function ExtractEnsembleType(entryType: string): (r: string)
    ensures r == "Small" <==> ContainsIgnoreCase(entryType, "Small")
    ensures r == "Other" <==> Ensemble.TypePriority(entryType) == 99
    ensures r in {"Small", "Medium", "Large", "XL", "Other"}
  {
    if ContainsIgnoreCase(entryType, "Small") then "Small"
    else if ContainsIgnoreCase(entryType, "Medium") then "Medium"
    else if ContainsIgnoreCase(entryType, "Large") then "Large"
    else if ContainsIgnoreCase(entryType, "XL") then "XL"
    else "Other"
  }

  lemma {:induction false} NotContainsLonger(s: string, part: string)
    requires |s| < |part|
    ensures !Contains(s, part)
    decreases |s|
  {
    if |s| > 0 {
      NotContainsLonger(s[1..], part);
    }
  }

  lemma SizeWords()
    ensures Upper("Small") == "SMALL" && Upper("Medium") == "MEDIUM" && Upper("Large") == "LARGE"
    ensures Upper("XL") == "XL" && Upper("Other") == "OTHER"
  {
  }

  /** The extracted size word has the same priority as the entry type it
      was taken from, so sizes order the same whichever of the two is
      used. */
  lemma ExtractedTypeKeepsPriority(entryType: string)
    ensures Ensemble.TypePriority(ExtractEnsembleType(entryType)) == Ensemble.TypePriority(entryType)
  {
    SmallPriority();
    MediumPriority();
    LargePriority();
    XLPriority();
    OtherPriority();
  }

  lemma SmallPriority()
    ensures Ensemble.TypePriority("Small") == 1
  {
    SizeWords();
    assert Contains("SMALL", "SMALL");
  }

  lemma MediumPriority()
    ensures Ensemble.TypePriority("Medium") == 2
  {
    SizeWords();
    assert Contains("MEDIUM", "MEDIUM");
    NotContainsMissingChar("MEDIUM", "SMALL");
  }

  lemma LargePriority()
    ensures Ensemble.TypePriority("Large") == 3
  {
    SizeWords();
    assert Contains("LARGE", "LARGE");
    NotContainsMissingChar("LARGE", "SMALL");
    NotContainsMissingChar("LARGE", "MEDIUM");
  }

  lemma XLPriority()
    ensures Ensemble.TypePriority("XL") == 4
  {
    SizeWords();
    assert Contains("XL", "XL");
    NotContainsLonger("XL", "SMALL");
    NotContainsLonger("XL", "MEDIUM");
    NotContainsLonger("XL", "LARGE");
  }

  lemma OtherPriority()
    ensures Ensemble.TypePriority("Other") == 99
  {
    SizeWords();
    NotContainsMissingChar("OTHER", "SMALL");
    NotContainsMissingChar("OTHER", "MEDIUM");
    NotContainsMissingChar("OTHER", "LARGE");
    NotContainsMissingChar("OTHER", "XL");
  }

  // ---------------------------------------------------------------------
  // Level

  /** A level rule: a display name starting with `prefix` has `level`. */
  datatype LevelRule = LevelRule(prefix: string, level: string)

  /** The rules, tried in this order. */
  const LevelRules: seq<LevelRule> := [
    LevelRule("Middle School", "Middle School"),
    LevelRule("High School", "High School"),
    LevelRule("Classic High School", "High School"),
    LevelRule("Select High School", "High School"),
    LevelRule("J.V.", "J.V."),
    LevelRule("Junior", "Junior"),
    LevelRule("Elementary", "Elementary"),
    LevelRule("Senior", "Senior"),
    LevelRule("Studio Junior", "Junior"),
    LevelRule("Studio Elementary", "Elementary"),
    LevelRule("Studio Senior", "Senior")
  ]

  /** Rule `i` is the first whose prefix starts the name, ignoring case. */
  predicate FirstRule(name: string, i: int) {
    0 <= i < |LevelRules| && StartsWithIgnoreCase(name, LevelRules[i].prefix)
    && forall j | 0 <= j < i :: !StartsWithIgnoreCase(name, LevelRules[j].prefix)
  }

  /** The index of the first matching rule from `i` on, or the rule count. */
  function RuleFrom(name: string, i: nat): (r: nat)
    requires i <= |LevelRules|
    ensures i <= r <= |LevelRules|
    ensures forall j | i <= j < r :: !StartsWithIgnoreCase(name, LevelRules[j].prefix)
    ensures r < |LevelRules| ==> StartsWithIgnoreCase(name, LevelRules[r].prefix)
    decreases |LevelRules| - i
  {
    if i == |LevelRules| then i
    else if StartsWithIgnoreCase(name, LevelRules[i].prefix) then i
    else RuleFrom(name, i + 1)
  }

  function NonEmpty(w: string): bool {
    |w| > 0
  }

  /** `Split(' ', StringSplitOptions.RemoveEmptyEntries)`. */
  function Words(name: string): (ws: seq<string>)
    ensures forall k | 0 <= k < |ws| :: |ws[k]| > 0 && ' ' !in ws[k]
  {
    var ws := Filter(Split(name, ' '), NonEmpty);
    forall k | 0 <= k < |ws|
      ensures ' ' !in ws[k]
    {
      assert ws[k] in multiset(Split(name, ' '));
    }
    ws
  }

  /** The level of a class display name: the level of the first rule whose
      prefix starts it, else its first two words joined by a space, else
      the name itself. */
  function ExtractLevel(name: string): (r: string)
    ensures forall i | FirstRule(name, i) :: r == LevelRules[i].level
    ensures (forall i | 0 <= i < |LevelRules| :: !StartsWithIgnoreCase(name, LevelRules[i].prefix)) ==>
      (var ws := Words(name); r == if |ws| >= 2 then ws[0] + " " + ws[1] else name)
  {
    var i := RuleFrom(name, 0);
    if i < |LevelRules| then LevelRules[i].level
    else
      var ws := Words(name);
      if |ws| >= 2 then ws[0] + " " + ws[1] else name
  }

  /** Every level a rule names is one of six. */
  lemma RuleLevels(i: nat)
    requires i < |LevelRules|
    ensures LevelRules[i].level in {"Middle School", "High School", "J.V.", "Junior", "Elementary", "Senior"}
  {
  }

  /** A two-word name no rule matches is its own level. */
  lemma TwoWordFallback(w1: string, w2: string)
    requires |w1| > 0 && |w2| > 0 && ' ' !in w1 && ' ' !in w2
    requires forall i | 0 <= i < |LevelRules| :: !StartsWithIgnoreCase(w1 + " " + w2, LevelRules[i].prefix)
    ensures ExtractLevel(w1 + " " + w2) == w1 + " " + w2
  {
    TwoWords(w1, w2);
  }

  /** A name of two words splits into those words. */
  lemma TwoWords(w1: string, w2: string)
    requires |w1| > 0 && |w2| > 0 && ' ' !in w1 && ' ' !in w2
    ensures Words(w1 + " " + w2) == [w1, w2]
  {
    var name := w1 + " " + w2;
    TwoWordsJoin(w1, w2);
    SplitJoin([w1, w2], ' ');
    assert Filter([w2], NonEmpty) == [w2] + Filter([], NonEmpty);
    assert Filter([w1, w2], NonEmpty) == [w1] + Filter([w2], NonEmpty);
  }

  lemma TwoWordsJoin(w1: string, w2: string)
    ensures Join([w1, w2], [' ']) == w1 + " " + w2
  {
    assert Join([w1, w2], [' ']) == w1 + [' '] + Join([w2], [' ']);
  }

  // ---------------------------------------------------------------------
  // Program number

  const LongMin: int := -0x8000_0000_0000_0000
  const LongMax: int := 0x7FFF_FFFF_FFFF_FFFF

  /** The white space `NumberStyles.Integer` allows around the number. */
  predicate NumberWhite(c: char) {
    ('\t' <= c <= '\r') || c == ' '
  }

  function StripNumberWhite(s: string): (r: string)
    ensures |r| <= |s|
    ensures |r| > 0 ==> !NumberWhite(r[0]) && !NumberWhite(r[|r| - 1])
    decreases |s|
  {
    if |s| > 0 && NumberWhite(s[0]) then StripNumberWhite(s[1..])
    else if |s| > 0 && NumberWhite(s[|s| - 1]) then StripNumberWhite(s[..|s| - 1])
    else s
  }

  /** The value of an optionally signed run of digits, if the text is one. */
  function SignedValue(t: string): (r: Option<int>)
    ensures r.Some? ==> |t| > 0
  {
    if |t| > 0 && (t[0] == '-' || t[0] == '+') && |t| > 1 && AllDigits(t[1..]) then
      var d: int := ParseDigits(t[1..]);
      Some(if t[0] == '-' then -d else d)
    else if |t| > 0 && AllDigits(t) then Some(ParseDigits(t))
    else None
  }

  /** `long.TryParse(value, out n) ? n : 0`. */
  function ParseProgramNumber(value: Option<string>): (r: int)
    ensures LongMin <= r <= LongMax
    ensures value.None? ==> r == 0
    ensures value.Some? && SignedValue(StripNumberWhite(value.value)).None? ==> r == 0
  {
    match value
    case None => 0
    case Some(s) =>
      match SignedValue(StripNumberWhite(s))
      case Some(n) => if LongMin <= n <= LongMax then n else 0
      case None => 0
  }

  lemma StripNoop(s: string)
    requires |s| > 0 && !NumberWhite(s[0]) && !NumberWhite(s[|s| - 1])
    ensures StripNumberWhite(s) == s
  {
  }

  /** The text of an integer is an optionally signed run of digits with
      that integer's value. */
  lemma SignedValueOfText(n: int)
    ensures |IntToString(n)| > 0
    ensures !NumberWhite(IntToString(n)[0]) && !NumberWhite(IntToString(n)[|IntToString(n)| - 1])
    ensures SignedValue(IntToString(n)) == Some(n)
  {
    var s := IntToString(n);
    if n < 0 {
      var d := NatToString(-n);
      ParseNatToString(-n);
      assert s == "-" + d;
      assert s[1..] == d;
      assert s[|s| - 1] == d[|d| - 1];
    } else {
      ParseNatToString(n);
    }
  }

  /** The text of a 64-bit integer parses back to it. */
  lemma ParseFormatted(n: int)
    requires LongMin <= n <= LongMax
    ensures ParseProgramNumber(Some(IntToString(n))) == n
  {
    SignedValueOfText(n);
    StripNoop(IntToString(n));
  }

  /** A number outside the 64-bit range reads as 0. */
  lemma ParseOverflow(n: int)
    requires n < LongMin || LongMax < n
    ensures ParseProgramNumber(Some(IntToString(n))) == 0
  {
    SignedValueOfText(n);
    StripNoop(IntToString(n));
  }
}
