# Internship recommendation engine: a verified model

This project models the recommendation engine of the internship finder, which
lives in `public/filter.js`. The engine has three parts.

- `calculateSkillMatch` scores one internship against the user's skill string.
  The skill string is split on commas. Each token is trimmed and lower-cased,
  tokens left empty are dropped, and duplicates merge. The internship's
  required skills are only lower-cased. The score is 50 when the internship
  lists no skill and 0 when the user has no usable skill. Otherwise it is the
  share of required skills the user has, as a percentage rounded the way
  `Math.round` does.
- `filterByDuration` is the hard gate on the internship type. The values are
  "paid", "unpaid", "full-time" and "part-time", compared lower-cased. Any
  other value lets everything through.
- `getFilteredInternships` ties the parts together:
  - It trims the three profile fields. With neither skills nor a location it
    returns the prompt message.
  - It makes one pass over the catalog: the type gate, the skill score, a
    case-insensitive location substring test, and the three-way inclusion
    rule with its constants 15 and 50.
  - Each included record is copied with its `skillMatchPercentage`.
  - The accumulator is sorted by non-increasing score. The sort is stable:
    ECMAScript 2019, section 22.1.3.27 (`Array.prototype.sort`) requires it.
  - An empty result gives the no-match message; otherwise the list is
    returned.

The modules follow that structure:

- `Records` holds the internship record, the profile, a scored record and
  the result.
- `Text` holds the string primitives:
  - ASCII lower-casing;
  - ECMAScript `trim`, over the WhiteSpace and LineTerminator code points;
  - `split` on one separator, with `Join` as its inverse;
  - `includes`.
- `Skills` holds `calculateSkillMatch` and its rounding.
- `Duration` holds `filterByDuration`.
- `Ranking` holds the stable descending sort. `SortDesc` is the pure
  specification. `SortInPlace` is an in-place insertion sort over an array,
  proved equal to it. Stability means that, for every score, the records
  with that score keep their relative order. `StableSortUnique` proves that
  only one arrangement is both ordered and stable.
- `Engine` holds `getFilteredInternships`:
  - `Evaluate` is the loop body.
  - `Accumulate` is the loop.
  - `Recommend` is the whole function as a specification.
  - `GetFilteredInternships` is the imperative version, with the loop,
    mutable `finalScore`/`shouldInclude` locals and the in-place sort. It is
    proved to return `Recommend`.
- `Examples` holds worked instances: the rounding and the ordering of equal
  scores.

`Math.round(m / n * 100)` is modelled in exact integer arithmetic as
`(200·m + n) / (2·n)`. This is round-half-up, and `RoundHalfUp` proves it
gives the integer nearest to 100·m/n.

## Model

| member | source | states |
|---|---|---|
| `Text.Lower` | public/filter.js:12 | lower-casing a character never yields an upper-case letter, and leaves the character unchanged exactly when it is not an upper-case letter |
| `Text.LowerStr` | public/filter.js:13 | `toLowerCase` keeps the length of the string |
| `Text.LowerIdempotent` | public/filter.js:12 | lower-casing twice is lower-casing once |
| `Text.LowerPreservesWhitespace` | public/filter.js:12 | lower-casing neither creates nor removes whitespace, so it commutes with trimming |
| `Text.TrimStart` | public/filter.js:56 | the result is a suffix of the input; everything removed is whitespace; the result does not start with whitespace |
| `Text.TrimEnd` | public/filter.js:56 | the result is a prefix of the input; everything removed is whitespace; the result does not end with whitespace |
| `Text.Trim` | public/filter.js:56-58 | `trim` leaves no whitespace at either end, and gives the empty string exactly when the input is all whitespace |
| `Text.TrimSplitsOff` | public/filter.js:56-58 | the input is whitespace, then the trimmed string, then whitespace |
| `Text.TrimIdempotent` | public/filter.js:12 | trimming twice is trimming once |
| `Text.TrimPadded` | public/filter.js:12 | whitespace added at either end of a token does not change the trimmed token |
| `Text.TrimLower` | public/filter.js:12 | trimming and lower-casing commute, so the order of `trim().toLowerCase()` does not matter |
| `Text.Split` | public/filter.js:12 | `split` returns at least one piece, and no piece holds the separator |
| `Text.JoinSplit` | public/filter.js:12 | joining the pieces of a split with the separator gives back the original string |
| `Text.SplitJoin` | public/filter.js:12 | splitting a join of separator-free pieces gives back those pieces |
| `Text.SplitAtSeparator` | public/filter.js:12 | the split of `a + "," + b` is the split of `a` followed by the split of `b` |
| `Text.SplitLower` | public/filter.js:12 | splitting a lower-cased string gives the lower-cased pieces |
| `Text.ContainsIsSubstring` | public/filter.js:78 | `includes` holds exactly when the needle occurs at some offset of the haystack |
| `Skills.UserSkillsNormalized` | public/filter.js:12 | every user skill is non-empty, trimmed and lower-case |
| `Skills.RequiredSkills` | public/filter.js:13 | every required skill is lower-case |
| `Skills.RoundedPercent` | public/filter.js:27 | the rounded share lies in 0..100; it is 100 for all of them and 0 for none |
| `Skills.RoundHalfUp` | public/filter.js:27 | the rounded value p satisfies 2n·p ≤ 200m + n < 2n·(p + 1): the nearest integer to 100·m/n, halves rounded up |
| `Skills.SkillMatch` | public/filter.js:11-28 | the score is in 0..100; 50 with no required skill; else 0 with no user skill; else round(100·\|U ∩ R\|/\|R\|); 100 when R ⊆ U; 0 when U and R are disjoint |
| `Skills.UserSkillsConcat` | public/filter.js:12 | the skills of two comma-joined strings are the union of their skills |
| `Skills.TokenOrderIrrelevant` | public/filter.js:12 | the order in which the user lists skills does not change the score |
| `Skills.DuplicateTokensIrrelevant` | public/filter.js:12 | listing the same skills twice does not change the score |
| `Skills.UserSkillsLower` | public/filter.js:12 | lower-casing the whole skill string does not change the user's skill set |
| `Skills.SameNormalizedPieces` | public/filter.js:12 | token lists that normalize alike, position by position, give the same skill set |
| `Skills.UserSkillsCaseInsensitive` | public/filter.js:12 | skill strings that agree after lower-casing score alike |
| `Skills.RequiredSkillsCaseInsensitive` | public/filter.js:13 | required-skill lists that agree after lower-casing score alike |
| `Skills.RequiredOrderIrrelevant` | public/filter.js:13 | required-skill lists with the same members, in any order or multiplicity, score alike |
| `Skills.UserSkillsPadded` | public/filter.js:12 | whitespace around the whole skill string does not change the skill set |
| `Skills.TrimmedSkillsSameScore` | public/filter.js:56-77 | scoring the trimmed skill string, as the engine does, gives the score of the untrimmed one |
| `Duration.FilterByDuration` | public/filter.js:37-47 | lower-cased type "paid" holds iff the internship is paid; "unpaid" iff it is not; "full-time" and "part-time" iff the lower-cased commitment equals that value; any other value lets it through |
| `Duration.OnlyKnownFiltersReject` | public/filter.js:41-46 | a rejection happens only under one of the four known type values |
| `Duration.FilterCaseInsensitive` | public/filter.js:38 | type values that agree after lower-casing filter alike |
| `Duration.PaidUnpaidPartition` | public/filter.js:41-42 | every internship passes exactly one of "paid" and "unpaid" |
| `Duration.FullTimePartTimeExclusive` | public/filter.js:43-44 | no internship passes both "full-time" and "part-time" |
| `Duration.AllAcceptsEverything` | public/filter.js:46 | "all" and the empty value let every internship through |
| `Ranking.WithScoreConcat` | public/filter.js:114 | picking out the records of one score distributes over concatenation |
| `Ranking.WithScoreMembers` | public/filter.js:114 | the records picked out for a score are exactly the records with that score |
| `Ranking.InsertMultiset` | public/filter.js:114 | inserting a record adds exactly that record |
| `Ranking.InsertSorted` | public/filter.js:114 | inserting into a list ordered by non-increasing score keeps it ordered |
| `Ranking.InsertWithScore` | public/filter.js:114 | insertion puts the new record behind every earlier record of its score |
| `Ranking.SortDescSorted` | public/filter.js:114 | the sort orders by non-increasing score |
| `Ranking.SortDescPermutation` | public/filter.js:114 | the sort is a permutation of its input |
| `Ranking.SortDescStable` | public/filter.js:114 | for every score, the sorted records with that score are in input order |
| `Ranking.StableSortUnique` | public/filter.js:114 | two lists that are both ordered and agree on the records of every score are equal |
| `Ranking.IsStableSortOf` | public/filter.js:114 | any ordered, stable rearrangement of the input is the sort |
| `Ranking.InsertAt` | public/filter.js:114 | a record is inserted right behind the last record whose score is at least its own |
| `Ranking.InsertInPlace` | public/filter.js:114 | one step of the in-place insertion sort turns the prefix into the insertion of the next record and leaves the rest alone |
| `Ranking.SortInPlace` | public/filter.js:114 | the in-place sort of the accumulator array leaves it holding the stable descending sort of its old contents |
| `Engine.Evaluate` | public/filter.js:72-103 | an included record scores between 1 and 100 |
| `Engine.InclusionRules` | public/filter.js:73-103 | a record failing the type gate is skipped. With skills and location a record is included iff its location matches, scoring the skill score if positive and 15 otherwise. With skills only it is included iff the skill score is positive, scoring it. With location only it is included iff the location matches, scoring 50 |
| `Engine.LocationCaseInsensitive` | public/filter.js:78 | user locations that agree after lower-casing match alike |
| `Engine.LocationIsSubstring` | public/filter.js:78 | a location matches exactly when the lower-cased user location occurs in the lower-cased internship location |
| `Engine.AccumulateStep` | public/filter.js:105-110 | one loop iteration appends the record with its score exactly when it is included |
| `Engine.AccumulateIsCatalogFilter` | public/filter.js:71-111 | the accumulator is the catalog filtered by the inclusion rule, in catalog order: the k-th entry is the record at an increasing catalog position with its score, and a position is picked exactly when its record is included |
| `Engine.AccumulateMembers` | public/filter.js:105-110 | every accumulated entry is an unchanged catalog record carrying its computed score, and every included record is accumulated |
| `Engine.GetFilteredInternships` | public/filter.js:55-121 | the loop with its mutable locals and the in-place sort returns what `Recommend` specifies |
| `Engine.BlankProfileGetsPrompt` | public/filter.js:56-67 | with blank skills and location the answer is the prompt message, whatever the catalog |
| `Engine.RecommendShape` | public/filter.js:65-120 | the prompt comes exactly when skills and location are blank; the no-match message exactly when otherwise nothing is included; a returned list is never empty |
| `Engine.RecommendRanked` | public/filter.js:114 | a returned list is ordered by non-increasing score, is a permutation of the accumulator, and keeps catalog order among equal scores |
| `Engine.RecommendContents` | public/filter.js:105-120 | a returned entry is an unchanged catalog record with the score the inclusion rule gives it, and every included record is returned |
| `Engine.DurationFilterRespected` | public/filter.js:62-75 | with a type filter in force, every returned internship passes it |
| `Engine.ScoresInRange` | public/filter.js:77-110 | every returned score lies in 1..100 |
| `Examples.RoundingInstances` | public/filter.js:27 | 1 of 8 rounds to 13, 1 of 3 to 33, 2 of 3 to 67, 1 of 2 to 50 |
| `Examples.PartialMatchBelowLocationFallback` | public/filter.js:84-90 | one skill out of seven scores 14, below the 15 of a location-only match |
| `Examples.SortInstance` | public/filter.js:114 | scores 40, 90, 40 rank as 90, then the two 40s in catalog order |

## Left out

- `public/main.js` is not part of this model. It covers the page: DOM construction and the web-component lifecycle, Firestore and Storage fetches, speech recognition, file upload, the save stubs, theme and sidebar toggles, and the renderer's fallback message. That is all I/O and browser APIs.
- Floating point: `Math.round(m / n * 100)` is modelled in exact arithmetic as round-half-up. The double rounding of `m / n * 100` is not modelled.
- Text.Lower: lower-cases only the ASCII letters A–Z. Full Unicode `toLowerCase` (accented letters, special casings that change length) is not modelled.
- Missing fields: `userData.skills || ''`, `internship.skills || []`, `internship.commitment || ''` and `internship.location || ''` are modelled by the record always holding a string or a list, with a missing field represented by the empty one.
- `isPaid` is a boolean. A non-boolean truthy value would fail both "paid" (through `=== true`) and "unpaid"; such values are not modelled.
- Object spread: the copied record is modelled as `Scored(internship, score)`, the unchanged record next to its score, not as a new object with an extra field.
- `GetFilteredInternships` pushes into a `seq` and copies it into a fresh array for the in-place sort (`ToArray`). JavaScript's single growable array and its aliasing are not modelled.
- The engine's sort is insertion sort. Any stable sort gives the same result, by `Ranking.IsStableSortOf`, so the engine's actual algorithm does not matter.
- The concrete string example "Python, sql, java" scoring 100 against ["python","sql"] is covered by the general `Skills.SkillMatch` (R ⊆ U gives 100), `Skills.UserSkillsCaseInsensitive` and `Text.TrimPadded`, not by an evaluation on the literal strings.
