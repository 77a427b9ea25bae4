/** Worked instances of the rules, evaluated on concrete values. */
module Examples {
  import opened Records
  import opened Skills
  import opened Ranking
  import opened Engine

  /** `Math.round` rounds halves up: 1 of 8 is 12.5%, shown as 13; 1 of 3 is
      33%, 2 of 3 is 67%, 1 of 2 is 50%. */
  lemma RoundingInstances()
    ensures RoundedPercent(1, 8) == 13
    ensures RoundedPercent(1, 3) == 33
    ensures RoundedPercent(2, 3) == 67
    ensures RoundedPercent(1, 2) == 50
  {
  }

  /** One skill out of seven rounds to 14, which ranks below the 15 a
      location-only match receives. */
  lemma PartialMatchBelowLocationFallback()
    ensures RoundedPercent(1, 7) == 14 < SkillMissScore
  {
  }

  function Sample(id: string): Internship {
    Internship(id, "", "", "", [], false, "", "", "", "")
  }

  /** Scores 40, 90, 40 rank as 90 first, then the two 40s in catalog order. */
  lemma SortInstance()
    ensures var a, b, c := Scored(Sample("a"), 40), Scored(Sample("b"), 90), Scored(Sample("c"), 40);
      SortDesc([a, b, c]) == [b, a, c]
  {
    var a, b, c := Scored(Sample("a"), 40), Scored(Sample("b"), 90), Scored(Sample("c"), 40);
    assert [a, b, c][..2] == [a, b];
    assert [a, b][..1] == [a];
    assert [a][..0] == [];
    assert SortDesc([a]) == [a];
    assert Insert([a], b) == [b, a] by {
      assert [a][..0] == [];
    }
    assert SortDesc([a, b]) == [b, a];
    assert [b, a][..1] == [b];
    assert Insert([b, a], c) == [b, a, c];
  }
}
