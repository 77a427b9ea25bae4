/** `calculateSkillMatch`: how many of an internship's required skills the user
    has, as a whole percentage. */
module Skills {
  import opened Text

  /** One user token as it is compared: trimmed, then lower-cased. */
  function Normalize(token: string): string {
    LowerStr(Trim(token))
  }

  /** The distinct non-empty normalized tokens among `pieces`. */
  function TokenSet(pieces: seq<string>): set<string> {
    set t | t in pieces && Normalize(t) != [] :: Normalize(t)
  }

  /** Every user skill is non-empty, already trimmed and already lower-case. */
  lemma UserSkillsNormalized(userSkillsStr: string)
    ensures forall x :: x in UserSkills(userSkillsStr) ==> x != [] && Trim(x) == x && LowerStr(x) == x
  {
    forall x | x in UserSkills(userSkillsStr) ensures x != [] && Trim(x) == x && LowerStr(x) == x {
      var t :| t in Split(userSkillsStr, ',') && Normalize(t) != [] && Normalize(t) == x;
      TrimLower(Trim(t));
      TrimIdempotent(t);
      LowerIdempotent(Trim(t));
    }
  }

  /** The set of user skills: the comma-separated tokens of `userSkillsStr`,
      trimmed, lower-cased, empty ones dropped, duplicates merged. */
  function UserSkills(userSkillsStr: string): set<string> {
    TokenSet(Split(userSkillsStr, ','))
  }

  /** The set of an internship's required skills: lower-cased (not trimmed),
      duplicates merged. */
  function RequiredSkills(skills: seq<string>): (r: set<string>)
    ensures forall x :: x in r ==> LowerStr(x) == x
  {
    set s | s in skills :: LowerStr(s)
  }

  /** `Math.round(m / n * 100)` in exact arithmetic, for a count `m` out of `n`. */
  function RoundedPercent(m: nat, n: nat): (p: nat)
    requires 0 < n && m <= n
    ensures p <= 100
    ensures m == n ==> p == 100
    ensures m == 0 ==> p == 0
  {
    var p := (200 * m + n) / (2 * n);
    RoundHalfUp(m, n);
    p
  }

  /** The rounded percentage is the integer nearest to 100·m/n, with exact
      halves rounded up, as `Math.round` does. */
  lemma RoundHalfUp(m: nat, n: nat)
    requires 0 < n && m <= n
    ensures var p := (200 * m + n) / (2 * n);
      2 * n * p <= 200 * m + n < 2 * n * (p + 1) && p <= 100
      && (m == n ==> p == 100) && (m == 0 ==> p == 0)
  {
    var d := 2 * n;
    var x := 200 * m + n;
    var p := x / d;
    DivBounds(x, d);
    assert x < d * 101 by { MulLeft(d, 101); }
    if p > 100 {
      MulMono(d, 101, p);
    }
    if m == n {
      assert x == d * 100 + n by { MulLeft(d, 100); }
      if p < 100 { MulMono(d, p + 1, 100); }
    }
    if m == 0 {
      if p > 0 { MulMono(d, 1, p); }
    }
  }

  lemma DivBounds(x: nat, d: nat)
    requires 0 < d
    ensures d * (x / d) <= x < d * (x / d + 1)
  {
    assert x == d * (x / d) + x % d;
    assert d * (x / d + 1) == d * (x / d) + d;
  }

  lemma MulLeft(d: nat, k: nat)
    ensures d * k == k * d
  {
  }

  lemma MulMono(d: nat, a: nat, b: nat)
    requires a <= b
    ensures d * a <= d * b
  {
    assert d * b == d * a + d * (b - a);
  }

  /** `calculateSkillMatch`: 50 when the internship lists no skills, 0 when the
      user has no usable skill, otherwise |U ∩ R| / |R| as a rounded percentage. */
  function SkillMatch(internshipSkills: seq<string>, userSkillsStr: string): (score: nat)
    ensures score <= 100
    ensures RequiredSkills(internshipSkills) == {} ==> score == 50
    ensures RequiredSkills(internshipSkills) != {} && UserSkills(userSkillsStr) == {} ==> score == 0
    ensures var r, u := RequiredSkills(internshipSkills), UserSkills(userSkillsStr);
      r != {} && u != {} ==> |u * r| <= |r| && score == RoundedPercent(|u * r|, |r|)
    ensures var r, u := RequiredSkills(internshipSkills), UserSkills(userSkillsStr);
      r != {} && r <= u ==> score == 100
    ensures var r, u := RequiredSkills(internshipSkills), UserSkills(userSkillsStr);
      r != {} && u * r == {} ==> score == 0
  {
    var u := UserSkills(userSkillsStr);
    var r := RequiredSkills(internshipSkills);
    if |r| == 0 then 50
    else if |u| == 0 then 0
    else
      var matched := u * r;
      MatchedBounds(u, r);
      RoundedPercent(|matched|, |r|)
  }

  lemma MatchedBounds<T>(u: set<T>, r: set<T>)
    ensures |u * r| <= |r|
    ensures r <= u ==> |u * r| == |r|
  {
    assert r == (u * r) + (r - u);
    if r <= u {
      assert u * r == r;
    }
  }

  /** The skill sets of two comma-joined strings are the union of their sets. */
  lemma UserSkillsConcat(a: string, b: string)
    ensures UserSkills(a + [','] + b) == UserSkills(a) + UserSkills(b)
  {
    SplitAtSeparator(a, b, ',');
    var pa, pb := Split(a, ','), Split(b, ',');
    assert forall t :: t in pa + pb <==> t in pa || t in pb;
  }

  /** The order in which the user lists skills does not matter. */
  lemma TokenOrderIrrelevant(internshipSkills: seq<string>, a: string, b: string)
    ensures SkillMatch(internshipSkills, a + "," + b) == SkillMatch(internshipSkills, b + "," + a)
  {
    UserSkillsConcat(a, b);
    UserSkillsConcat(b, a);
    assert UserSkills(a + "," + b) == UserSkills(b + "," + a);
  }

  /** Listing a skill twice does not matter. */
  lemma DuplicateTokensIrrelevant(internshipSkills: seq<string>, a: string)
    ensures SkillMatch(internshipSkills, a + "," + a) == SkillMatch(internshipSkills, a)
  {
    UserSkillsConcat(a, a);
    assert UserSkills(a + "," + a) == UserSkills(a);
  }

  /** Lower-casing the user's string does not change the user's skill set. */
  lemma UserSkillsLower(userSkillsStr: string)
    ensures UserSkills(LowerStr(userSkillsStr)) == UserSkills(userSkillsStr)
  {
    var p := Split(userSkillsStr, ',');
    SplitLower(userSkillsStr, ',');
    var q := LowerAll(p);
    forall k | 0 <= k < |p| ensures Normalize(q[k]) == Normalize(p[k]) {
      TrimLower(p[k]);
      LowerIdempotent(Trim(p[k]));
    }
    SameNormalizedPieces(p, q);
  }

  /** Pieces that normalize alike give the same token set. */
  lemma SameNormalizedPieces(p: seq<string>, q: seq<string>)
    requires |p| == |q|
    requires forall k :: 0 <= k < |p| ==> Normalize(p[k]) == Normalize(q[k])
    ensures TokenSet(p) == TokenSet(q)
  {
    forall x | x in TokenSet(p) ensures x in TokenSet(q) {
      var t :| t in p && Normalize(t) != [] && Normalize(t) == x;
      var k :| 0 <= k < |p| && p[k] == t;
      assert q[k] in q;
    }
    forall x | x in TokenSet(q) ensures x in TokenSet(p) {
      var t :| t in q && Normalize(t) != [] && Normalize(t) == x;
      var k :| 0 <= k < |q| && q[k] == t;
      assert p[k] in p;
    }
  }

  /** User skills match case-insensitively: strings that agree after
      lower-casing score alike against every internship. */
  lemma UserSkillsCaseInsensitive(internshipSkills: seq<string>, a: string, b: string)
    requires LowerStr(a) == LowerStr(b)
    ensures SkillMatch(internshipSkills, a) == SkillMatch(internshipSkills, b)
  {
    UserSkillsLower(a);
    UserSkillsLower(b);
  }

  /** Required skills also match case-insensitively. */
  lemma RequiredSkillsCaseInsensitive(s1: seq<string>, s2: seq<string>, userSkillsStr: string)
    requires LowerAll(s1) == LowerAll(s2)
    ensures SkillMatch(s1, userSkillsStr) == SkillMatch(s2, userSkillsStr)
  {
    forall x | x in RequiredSkills(s1) ensures x in RequiredSkills(s2) {
      var s :| s in s1 && LowerStr(s) == x;
      var k :| 0 <= k < |s1| && s1[k] == s;
      assert LowerAll(s1)[k] == LowerAll(s2)[k];
      assert s2[k] in s2;
    }
    forall x | x in RequiredSkills(s2) ensures x in RequiredSkills(s1) {
      var s :| s in s2 && LowerStr(s) == x;
      var k :| 0 <= k < |s2| && s2[k] == s;
      assert LowerAll(s1)[k] == LowerAll(s2)[k];
      assert s1[k] in s1;
    }
    assert RequiredSkills(s1) == RequiredSkills(s2);
  }

  /** Neither the order nor repetitions of the required skills matter. */
  lemma RequiredOrderIrrelevant(s1: seq<string>, s2: seq<string>, userSkillsStr: string)
    requires forall s :: s in s1 <==> s in s2
    ensures SkillMatch(s1, userSkillsStr) == SkillMatch(s2, userSkillsStr)
  {
    assert RequiredSkills(s1) == RequiredSkills(s2);
  }

  /** Whitespace around the whole skill string does not change the skill set,
      so trimming it first, as the engine does, changes nothing. */
  lemma {:induction false} UserSkillsPadded(w1: string, s: string, w2: string)
    requires AllWhitespace(w1) && AllWhitespace(w2)
    ensures UserSkills(w1 + s + w2) == UserSkills(s)
  {
    WhitespaceHasNoComma(w1);
    WhitespaceHasNoComma(w2);
    var p := Split(s, ',');
    var n := |p| - 1;
    SplitPrepend(w1, s, ',');
    var q := [w1 + p[0]] + p[1..];
    SplitAppend(w1 + s, w2, ',');
    var q' := q[..n] + [q[n] + w2];
    assert w1 + s + w2 == (w1 + s) + w2;
    assert Split(w1 + s + w2, ',') == q';
    forall k | 0 <= k < |p| ensures Normalize(q'[k]) == Normalize(p[k]) {
      var lead := if k == 0 then w1 else [];
      var trail := if k == n then w2 else [];
      assert AllWhitespace(lead) && AllWhitespace(trail);
      assert q'[k] == lead + p[k] + trail;
      TrimPadded(lead, p[k], trail);
    }
    SameNormalizedPieces(q', p);
  }

  lemma TrimmedSkillsSameScore(internshipSkills: seq<string>, userSkillsStr: string)
    ensures SkillMatch(internshipSkills, Trim(userSkillsStr)) == SkillMatch(internshipSkills, userSkillsStr)
  {
    var lead, trail := TrimSplitsOff(userSkillsStr);
    UserSkillsPadded(lead, Trim(userSkillsStr), trail);
  }
}
