/** Worked inputs for the duration estimate, each derived from the general lemmas. */
module DurationExamples {
  import opened Strings
  import opened Duration

  /** Two numbers before `minutes` add up. */
  lemma TwoTopicsEn(t: string)
    requires t == "(5 minutes), (10 minutes)"
    ensures DurationEn(t) == 15
  {
    UnitsValid();
    assert Decimal(5) == "5" && Decimal(10) == "10";
    assert t == "(" + Block(5, UnitEn) + "), (" + Block(10, UnitEn) + ")";
    CountedTwoBlocks("(", 5, "), (", 10, ")", UnitEn);
    DurationCounted(t, UnitEn);
    assert Sum([5, 10]) == 15;
  }

  /** main.py reads the same numbers before `分钟`. */
  lemma TwoTopicsZh(t: string)
    requires t == "5 分钟，10 分钟"
    ensures DurationZh(t) == 15
  {
    UnitsValid();
    assert Decimal(5) == "5" && Decimal(10) == "10";
    assert t == "" + Block(5, UnitZh) + "，" + Block(10, UnitZh) + "";
    CountedTwoBlocks("", 5, "，", 10, "", UnitZh);
    DurationCounted(t, UnitZh);
    assert Sum([5, 10]) == 15;
  }

  /** A stated zero counts as zero minutes, not as the default. */
  lemma ZeroMinutes(t: string)
    requires t == "0 minutes"
    ensures DurationEn(t) == 0
  {
    UnitsValid();
    assert Decimal(0) == "0";
    assert t == Block(0, UnitEn);
    DurationOfDecimal(0, UnitEn);
  }

  /** Without any number the default of 20 minutes is used. */
  lemma NoNumbers(t: string)
    requires t == "about an hour"
    ensures DurationEn(t) == 20 && DurationZh(t) == 20
  {
    UnitsValid();
    DurationNoDigits(t, UnitEn);
    DurationNoDigits(t, UnitZh);
  }
}
