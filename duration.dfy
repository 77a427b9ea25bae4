/** `filterByDuration`: the hard gate on paid status and commitment. */
module Duration {
  import opened Text
  import opened Records

  /** Does `internship` pass the internship-type filter `userDuration`? The
      filter is compared lower-cased; so is the internship's commitment. */
  function FilterByDuration(internship: Internship, userDuration: string): (ok: bool)
    ensures LowerStr(userDuration) == "paid" ==> (ok <==> internship.isPaid)
    ensures LowerStr(userDuration) == "unpaid" ==> (ok <==> !internship.isPaid)
    ensures LowerStr(userDuration) == "full-time" ==> (ok <==> LowerStr(internship.commitment) == "full-time")
    ensures LowerStr(userDuration) == "part-time" ==> (ok <==> LowerStr(internship.commitment) == "part-time")
    ensures !IsKnownFilter(LowerStr(userDuration)) ==> ok
  {
    var kind := LowerStr(userDuration);
    var commitment := LowerStr(internship.commitment);
    if kind == "paid" then internship.isPaid
    else if kind == "unpaid" then !internship.isPaid
    else if kind == "full-time" then commitment == "full-time"
    else if kind == "part-time" then commitment == "part-time"
    else true
  }

  /** The four filter values that can reject an internship. */
  predicate IsKnownFilter(kind: string) {
    kind == "paid" || kind == "unpaid" || kind == "full-time" || kind == "part-time"
  }

  /** The gate only ever rejects under one of the four filter values. */
  lemma OnlyKnownFiltersReject(internship: Internship, userDuration: string)
    requires !FilterByDuration(internship, userDuration)
    ensures IsKnownFilter(LowerStr(userDuration))
  {
  }

  /** The filter value is compared case-insensitively. */
  lemma FilterCaseInsensitive(internship: Internship, d1: string, d2: string)
    requires LowerStr(d1) == LowerStr(d2)
    ensures FilterByDuration(internship, d1) == FilterByDuration(internship, d2)
  {
  }

  /** "paid" and "unpaid" split every catalog in two: each internship passes
      exactly one of them. */
  lemma PaidUnpaidPartition(internship: Internship)
    ensures FilterByDuration(internship, "paid") != FilterByDuration(internship, "unpaid")
  {
    assert LowerStr("paid") == "paid";
    assert LowerStr("unpaid") == "unpaid";
  }

  /** No internship passes both "full-time" and "part-time". */
  lemma FullTimePartTimeExclusive(internship: Internship)
    ensures !(FilterByDuration(internship, "full-time") && FilterByDuration(internship, "part-time"))
  {
    assert LowerStr("full-time") == "full-time";
    assert LowerStr("part-time") == "part-time";
  }

  /** The "all" filter lets everything through. */
  lemma AllAcceptsEverything(internship: Internship)
    ensures FilterByDuration(internship, "all")
    ensures FilterByDuration(internship, "")
  {
    assert LowerStr("all") == "all";
  }
}
