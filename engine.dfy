/** `getFilteredInternships`: filters the catalog by the user's profile, scores
    what remains, and ranks it, or explains why there is nothing to show. */
module Engine {
  import opened Text
  import opened Records
  import opened Skills
  import opened Duration
  import opened Ranking

  const EnterDetailsMessage := "Please enter your skills and location for the best recommendations."
  const NoMatchMessage := "No internships match your current filters. Try removing some filters."

  /** Score of an internship whose location matches but none of whose
      required skills the user has, when both skills and location are given. */
  const SkillMissScore := 15
  /** Score of every location match when only a location is given. */
  const LocationOnlyScore := 50

  /** The profile after trimming, and the three flags derived from it. */
  datatype Query = Query(skills: string, location: string, duration: string) {
    predicate HasSkills() {
      skills != []
    }
    predicate HasLocation() {
      location != []
    }
    /** A type filter is in force unless it is empty or, in any case, "all". */
    predicate HasDuration() {
      duration != [] && LowerStr(duration) != "all"
    }
  }

  function ParseProfile(profile: Profile): Query {
    Query(Trim(profile.skills), Trim(profile.location), Trim(profile.internshipType))
  }

  /** Case-insensitive substring test of the user's location in the internship's. */
  function LocationMatches(internshipLocation: string, userLocation: string): bool {
    Contains(LowerStr(internshipLocation), LowerStr(userLocation))
  }

  /** The loop body of the engine for one catalog record: `None` when the
      record is skipped, otherwise its final score. */
  function Evaluate(q: Query, internship: Internship): (r: Option<int>)
    ensures r.Some? ==> 1 <= r.value <= 100
  {
    if q.HasDuration() && !FilterByDuration(internship, q.duration) then None
    else
      var skillScore := if q.HasSkills() then SkillMatch(internship.skills, q.skills) else 0;
      var isLocationMatch := q.HasLocation() && LocationMatches(internship.location, q.location);
      if q.HasSkills() && q.HasLocation() then
        if skillScore > 0 && isLocationMatch then Some(skillScore)
        else if skillScore == 0 && isLocationMatch then Some(SkillMissScore)
        else None
      else if q.HasSkills() then
        if skillScore > 0 then Some(skillScore) else None
      else if q.HasLocation() then
        if isLocationMatch then Some(LocationOnlyScore) else None
      else None
  }

  /** The accumulator after the loop: every included record, in catalog order,
      with its score added. */
  function Accumulate(catalog: seq<Internship>, q: Query): seq<Scored> {
    if catalog == [] then []
    else
      var n := |catalog| - 1;
      Accumulate(catalog[..n], q) +
        match Evaluate(q, catalog[n])
        case Some(score) => [Scored(catalog[n], score)]
        case None => []
  }

  /** The catalog positions the loop includes, in increasing order. */
  ghost function Picked(catalog: seq<Internship>, q: Query): seq<int> {
    if catalog == [] then []
    else
      var n := |catalog| - 1;
      Picked(catalog[..n], q) + if Evaluate(q, catalog[n]).Some? then [n] else []
  }

  /** What `getFilteredInternships` returns. */
  function Recommend(catalog: seq<Internship>, profile: Profile): Result {
    var q := ParseProfile(profile);
    if !q.HasSkills() && !q.HasLocation() then Message(EnterDetailsMessage)
    else
      var ranked := SortDesc(Accumulate(catalog, q));
      if |ranked| == 0 then Message(NoMatchMessage) else Internships(ranked)
  }

  // ---------------------------------------------------------------------
  // The engine as the loop it is

  /** One pass over the catalog pushing included records into an array-backed
      accumulator, then the in-place stable sort. */
  method GetFilteredInternships(allInternships: seq<Internship>, userData: Profile) returns (r: Result)
    ensures r == Recommend(allInternships, userData)
  {
    var userSkills := Trim(userData.skills);
    var userLocation := Trim(userData.location);
    var userDuration := Trim(userData.internshipType);
    var q := Query(userSkills, userLocation, userDuration);

    var hasSkills := q.HasSkills();
    var hasLocation := q.HasLocation();
    var hasDuration := q.HasDuration();

    if !hasSkills && !hasLocation {
      return Message(EnterDetailsMessage);
    }

    var finalResults: seq<Scored> := [];
    for i := 0 to |allInternships|
      invariant finalResults == Accumulate(allInternships[..i], q)
    {
      var internship := allInternships[i];
      AccumulateStep(allInternships, q, i);
      if hasDuration && !FilterByDuration(internship, userDuration) {
        assert Evaluate(q, internship) == None;
        continue;
      }

      var skillScore := if hasSkills then SkillMatch(internship.skills, userSkills) else 0;
      var isLocationMatch := if hasLocation then LocationMatches(internship.location, userLocation) else false;

      var finalScore := 0;
      var shouldInclude := false;

      if hasSkills && hasLocation {
        if skillScore > 0 && isLocationMatch {
          finalScore := skillScore;
          shouldInclude := true;
        } else if skillScore == 0 && isLocationMatch {
          finalScore := SkillMissScore;
          shouldInclude := true;
        }
      } else if hasSkills {
        if skillScore > 0 {
          finalScore := skillScore;
          shouldInclude := true;
        }
      } else if hasLocation {
        if isLocationMatch {
          finalScore := LocationOnlyScore;
          shouldInclude := true;
        }
      }

      assert shouldInclude == Evaluate(q, internship).Some?;
      assert shouldInclude ==> finalScore == Evaluate(q, internship).value;
      if shouldInclude {
        finalResults := finalResults + [Scored(internship, finalScore)];
      }
    }
    assert allInternships[..|allInternships|] == allInternships;

    var sorted := ToArray(finalResults);
    SortInPlace(sorted);

    if sorted.Length == 0 {
      return Message(NoMatchMessage);
    }
    return Internships(sorted[..]);
  }

  /** A fresh array holding `s`: the accumulator as the array that is sorted. */
  method ToArray(s: seq<Scored>) returns (a: array<Scored>)
    ensures fresh(a) && a[..] == s
  {
    a := new Scored[|s|](k requires 0 <= k < |s| => s[k]);
  }

  lemma AccumulateStep(catalog: seq<Internship>, q: Query, i: nat)
    requires i < |catalog|
    ensures Accumulate(catalog[..i + 1], q) == Accumulate(catalog[..i], q) +
      if Evaluate(q, catalog[i]).Some? then [Scored(catalog[i], Evaluate(q, catalog[i]).value)] else []
  {
    assert catalog[..i + 1][..i] == catalog[..i];
  }

  // ---------------------------------------------------------------------
  // What a returned recommendation means

  /** The accumulator is exactly the catalog filtered by `Evaluate`, in
      catalog order: its k-th element is the record at catalog position
      `Picked[k]` with its score, the positions increase, and a position is
      picked precisely when `Evaluate` includes the record there. */
  lemma {:induction false} AccumulateIsCatalogFilter(catalog: seq<Internship>, q: Query)
    ensures var acc, picked := Accumulate(catalog, q), Picked(catalog, q);
      |acc| == |picked|
      && (forall k :: 0 <= k < |picked| ==>
            0 <= picked[k] < |catalog|
            && Evaluate(q, catalog[picked[k]]).Some?
            && acc[k] == Scored(catalog[picked[k]], Evaluate(q, catalog[picked[k]]).value))
      && (forall k1, k2 :: 0 <= k1 < k2 < |picked| ==> picked[k1] < picked[k2])
      && (forall i :: 0 <= i < |catalog| ==> (Evaluate(q, catalog[i]).Some? <==> i in picked))
  {
    if catalog != [] {
      var n := |catalog| - 1;
      var prefix := catalog[..n];
      AccumulateIsCatalogFilter(prefix, q);
      var acc, picked := Accumulate(prefix, q), Picked(prefix, q);
      assert forall k :: 0 <= k < |picked| ==> catalog[picked[k]] == prefix[picked[k]];
      assert forall i :: 0 <= i < n ==> catalog[i] == prefix[i];
    }
  }

  /** An element of the accumulator is a catalog record, unchanged, with the
      score `Evaluate` gives it; every record `Evaluate` includes is there. */
  lemma AccumulateMembers(catalog: seq<Internship>, q: Query)
    ensures forall x :: x in Accumulate(catalog, q) ==>
      x.internship in catalog && Evaluate(q, x.internship) == Some(x.skillMatchPercentage)
    ensures forall i :: 0 <= i < |catalog| && Evaluate(q, catalog[i]).Some? ==>
      Scored(catalog[i], Evaluate(q, catalog[i]).value) in Accumulate(catalog, q)
  {
    AccumulateIsCatalogFilter(catalog, q);
    var acc, picked := Accumulate(catalog, q), Picked(catalog, q);
    forall x | x in acc
      ensures x.internship in catalog && Evaluate(q, x.internship) == Some(x.skillMatchPercentage)
    {
      var k :| 0 <= k < |acc| && acc[k] == x;
      assert catalog[picked[k]] == x.internship;
    }
    forall i | 0 <= i < |catalog| && Evaluate(q, catalog[i]).Some?
      ensures Scored(catalog[i], Evaluate(q, catalog[i]).value) in acc
    {
      var k :| 0 <= k < |picked| && picked[k] == i;
      assert acc[k] == Scored(catalog[i], Evaluate(q, catalog[i]).value);
    }
  }

  /** Without skills and without a location the answer is the prompt to enter
      them, whatever the catalog holds. */
  lemma BlankProfileGetsPrompt(catalog: seq<Internship>, profile: Profile)
    requires Trim(profile.skills) == [] && Trim(profile.location) == []
    ensures Recommend(catalog, profile) == Message(EnterDetailsMessage)
  {
  }

  /** The two messages and the list: which one the engine returns, and that a
      returned list is never empty. */
  lemma RecommendShape(catalog: seq<Internship>, profile: Profile)
    ensures var q, r := ParseProfile(profile), Recommend(catalog, profile);
      (r == Message(EnterDetailsMessage) <==> !q.HasSkills() && !q.HasLocation())
      && (r == Message(NoMatchMessage) <==>
            (q.HasSkills() || q.HasLocation()) && Accumulate(catalog, q) == [])
      && (r.Message? ==> r.text == EnterDetailsMessage || r.text == NoMatchMessage)
      && (r.Internships? ==> r.items != [])
  {
    var q := ParseProfile(profile);
    var acc := Accumulate(catalog, q);
    SortDescPermutation(acc);
    assert |SortDesc(acc)| == |acc| by {
      assert |multiset(SortDesc(acc))| == |multiset(acc)|;
    }
    assert |EnterDetailsMessage| != |NoMatchMessage|;
  }

  /** A returned list is ranked by non-increasing score, holds exactly the
      included records (as a multiset), and keeps catalog order among
      records of equal score. */
  lemma RecommendRanked(catalog: seq<Internship>, profile: Profile)
    requires Recommend(catalog, profile).Internships?
    ensures var q, items := ParseProfile(profile), Recommend(catalog, profile).items;
      SortedDesc(items)
      && multiset(items) == multiset(Accumulate(catalog, q))
      && forall k :: WithScore(items, k) == WithScore(Accumulate(catalog, q), k)
  {
    var acc := Accumulate(catalog, ParseProfile(profile));
    SortDescSorted(acc);
    SortDescPermutation(acc);
    forall k ensures WithScore(SortDesc(acc), k) == WithScore(acc, k) {
      SortDescStable(acc, k);
    }
  }

  /** A catalog record appears in a returned list with score `s` exactly when
      `Evaluate` includes it with score `s`; nothing else appears. */
  lemma RecommendContents(catalog: seq<Internship>, profile: Profile)
    requires Recommend(catalog, profile).Internships?
    ensures var q, items := ParseProfile(profile), Recommend(catalog, profile).items;
      (forall x :: x in items ==>
        x.internship in catalog && Evaluate(q, x.internship) == Some(x.skillMatchPercentage))
      && (forall i :: 0 <= i < |catalog| && Evaluate(q, catalog[i]).Some? ==>
            Scored(catalog[i], Evaluate(q, catalog[i]).value) in items)
  {
    var q := ParseProfile(profile);
    var acc := Accumulate(catalog, q);
    SortDescPermutation(acc);
    AccumulateMembers(catalog, q);
    assert forall x :: x in SortDesc(acc) <==> x in acc by {
      forall x ensures x in SortDesc(acc) <==> x in acc {
        assert x in SortDesc(acc) <==> x in multiset(SortDesc(acc));
        assert x in acc <==> x in multiset(acc);
      }
    }
  }

  /** With a type filter in force, every recommended internship passes it. */
  lemma DurationFilterRespected(catalog: seq<Internship>, profile: Profile)
    requires Recommend(catalog, profile).Internships?
    requires ParseProfile(profile).HasDuration()
    ensures forall x :: x in Recommend(catalog, profile).items ==>
      FilterByDuration(x.internship, Trim(profile.internshipType))
  {
    var q, items := ParseProfile(profile), Recommend(catalog, profile).items;
    RecommendContents(catalog, profile);
    forall x | x in items ensures FilterByDuration(x.internship, q.duration) {
      assert Evaluate(q, x.internship).Some?;
    }
  }

  /** Every recommended score lies in 1..100. */
  lemma ScoresInRange(catalog: seq<Internship>, profile: Profile)
    requires Recommend(catalog, profile).Internships?
    ensures forall x :: x in Recommend(catalog, profile).items ==>
      1 <= x.skillMatchPercentage <= 100
  {
    var q, items := ParseProfile(profile), Recommend(catalog, profile).items;
    RecommendContents(catalog, profile);
    forall x | x in items ensures 1 <= x.skillMatchPercentage <= 100 {
      var e := Evaluate(q, x.internship);
      assert e == Some(x.skillMatchPercentage);
    }
  }

  /** The inclusion and score rules for a record that passes the type filter,
      by which of skills and location the user gave. */
  lemma InclusionRules(q: Query, internship: Internship)
    ensures q.HasDuration() && !FilterByDuration(internship, q.duration) ==>
      Evaluate(q, internship) == None
    ensures var r, skill, loc :=
        Evaluate(q, internship), SkillMatch(internship.skills, q.skills),
        LocationMatches(internship.location, q.location);
      !(q.HasDuration() && !FilterByDuration(internship, q.duration)) ==>
        (q.HasSkills() && q.HasLocation() ==>
           (r.Some? <==> loc) && (r.Some? ==> r.value == if skill > 0 then skill else SkillMissScore))
        && (q.HasSkills() && !q.HasLocation() ==>
           (r.Some? <==> skill > 0) && (r.Some? ==> r.value == skill))
        && (!q.HasSkills() && q.HasLocation() ==>
           (r.Some? <==> loc) && (r.Some? ==> r.value == LocationOnlyScore))
  {
  }

  /** The location test ignores the case of the user's location. */
  lemma LocationCaseInsensitive(internshipLocation: string, a: string, b: string)
    requires LowerStr(a) == LowerStr(b)
    ensures LocationMatches(internshipLocation, a) == LocationMatches(internshipLocation, b)
  {
  }

  /** The location test is a substring test on the lower-cased strings. */
  lemma LocationIsSubstring(internshipLocation: string, userLocation: string)
    ensures LocationMatches(internshipLocation, userLocation) <==>
      exists i :: OccursAt(LowerStr(internshipLocation), LowerStr(userLocation), i)
  {
    ContainsIsSubstring(LowerStr(internshipLocation), LowerStr(userLocation));
  }
}
