/** The printed name of an award place: "Winner", then runner-up
    ordinals. */
module PlaceNames {
  import opened Text

  const RunnerUp: string := " Runner Up"

  /** The range of C#'s `int`. */
  predicate IsInt32(n: int) {
    -0x8000_0000 <= n < 0x8000_0000
  }

  /** `place - 1` in C#'s unchecked `int` arithmetic: the least value wraps
      around to the greatest. */
  function Pred32(place: int): (r: int)
    requires IsInt32(place)
    ensures IsInt32(r)
  {
    if place == -0x8000_0000 then 0x7FFF_FFFF else place - 1
  }

  /** `AwardPlaceNames.ToPlaceName`: defined for every `int`. */
  function ToPlaceName(place: int): (r: string)
    requires IsInt32(place)
    ensures r == "Winner" <==> place == 1
    ensures place != 1 ==> |r| > |RunnerUp| && r[|r| - |RunnerUp|..] == RunnerUp
  {
    if place == 1 then "Winner"
    else if place == 2 then "1st" + RunnerUp
    else if place == 3 then "2nd" + RunnerUp
    else if place == 4 then "3rd" + RunnerUp
    else if place == 5 then "4th" + RunnerUp
    else
      var r := IntToString(Pred32(place)) + "th" + RunnerUp;
      assert r[|r| - 1] == 'p';
      r
  }

  /** The part of a runner-up name before " Runner Up". */
  function Ordinal(place: int): (o: string)
    requires IsInt32(place) && place != 1
    ensures ToPlaceName(place) == o + RunnerUp
  {
    var r := ToPlaceName(place);
    assert r == r[..|r| - |RunnerUp|] + RunnerUp;
    r[..|r| - |RunnerUp|]
  }

  lemma SmallTexts()
    ensures IntToString(1) == "1" && IntToString(2) == "2" && IntToString(3) == "3" && IntToString(4) == "4"
  {
  }

  /** Distinct places have distinct names. */
  lemma ToPlaceNameInjective(a: int, b: int)
    requires IsInt32(a) && IsInt32(b)
    requires ToPlaceName(a) == ToPlaceName(b)
    ensures a == b
  {
    if a != 1 && b != 1 {
      var oa, ob := Ordinal(a), Ordinal(b);
      assert oa + RunnerUp == ob + RunnerUp;
      assert oa == (oa + RunnerUp)[..|oa|];
      assert |oa| == |ob|;
      assert ob == (ob + RunnerUp)[..|ob|];
      OrdinalInjective(a, b);
    }
  }

  lemma OrdinalInjective(a: int, b: int)
    requires IsInt32(a) && IsInt32(b) && a != 1 && b != 1
    requires Ordinal(a) == Ordinal(b)
    ensures a == b
  {
    SmallTexts();
    var oa := Ordinal(a);
    if !(2 <= a <= 5) && !(2 <= b <= 5) {
      var ta, tb := IntToString(Pred32(a)), IntToString(Pred32(b));
      assert oa == ta + "th" && Ordinal(b) == tb + "th";
      assert ta == oa[..|oa| - 2];
      assert tb == Ordinal(b)[..|oa| - 2];
      IntToStringInjective(Pred32(a), Pred32(b));
    } else if !(2 <= a <= 5) {
      LongOrdinal(a);
    } else if !(2 <= b <= 5) {
      LongOrdinal(b);
    }
  }

  /** The generic ordinal never spells one of the four fixed ones. */
  lemma LongOrdinal(n: int)
    requires IsInt32(n) && n != 1 && !(2 <= n <= 5)
    ensures Ordinal(n) != "1st" && Ordinal(n) != "2nd" && Ordinal(n) != "3rd" && Ordinal(n) != "4th"
  {
    SmallTexts();
    var o := Ordinal(n);
    var t := IntToString(Pred32(n));
    assert o == t + "th";
    if |t| == 1 {
      assert o[1] == 't';
      if o == "4th" {
        assert t == o[..1];
        IntToStringInjective(Pred32(n), 4);
      }
    }
  }

  /** The first five places. */
  lemma FirstPlaces()
    ensures ToPlaceName(1) == "Winner"
    ensures ToPlaceName(2) == "1st Runner Up" && ToPlaceName(3) == "2nd Runner Up"
    ensures ToPlaceName(4) == "3rd Runner Up" && ToPlaceName(5) == "4th Runner Up"
  {
    assert "1st" + RunnerUp == "1st Runner Up";
    assert "2nd" + RunnerUp == "2nd Runner Up";
    assert "3rd" + RunnerUp == "3rd Runner Up";
    assert "4th" + RunnerUp == "4th Runner Up";
  }

  /** Past the fifth place, and below the first, the ordinal is the place
      minus one with "th": 22 gives "21th Runner Up" and 0 gives
      "-1th Runner Up". */
  lemma LaterPlaces()
    ensures ToPlaceName(22) == "21th Runner Up"
    ensures ToPlaceName(0) == "-1th Runner Up"
  {
    assert NatToString(21) == NatToString(2) + [DigitChar(1)];
    assert IntToString(21) == "21";
    assert IntToString(-1) == "-1";
    assert "21" + "th" + RunnerUp == "21th Runner Up";
    assert "-1" + "th" + RunnerUp == "-1th Runner Up";
  }

  /** The least `int` wraps around: its ordinal is that of the greatest
      `int`. */
  lemma LeastPlaceWraps()
    ensures ToPlaceName(-0x8000_0000) == "2147483647th Runner Up"
  {
    var t := MaxIntText();
    assert ToPlaceName(-0x8000_0000) == t + "th" + RunnerUp;
  }

  lemma MaxIntText() returns (t: string)
    ensures t == IntToString(0x7FFF_FFFF) && t + "th" + RunnerUp == "2147483647th Runner Up"
  {
    assert NatToString(2) == "2";
    AppendDigit(2, 1, "2");
    AppendDigit(21, 4, "21");
    AppendDigit(214, 7, "214");
    AppendDigit(2147, 4, "2147");
    AppendDigit(21474, 8, "21474");
    AppendDigit(214748, 3, "214748");
    AppendDigit(2147483, 6, "2147483");
    AppendDigit(21474836, 4, "21474836");
    AppendDigit(214748364, 7, "214748364");
    t := "2147483647";
  }

  /** One more digit on the right of a number's text. */
  lemma AppendDigit(n: nat, d: nat, s: string)
    requires 0 < n && d < 10 && NatToString(n) == s
    ensures NatToString(10 * n + d) == s + [DigitChar(d)]
  {
    assert (10 * n + d) / 10 == n && (10 * n + d) % 10 == d;
  }
}
