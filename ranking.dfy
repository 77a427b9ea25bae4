/** Ranking: the stable descending sort by `skillMatchPercentage` that
    `finalResults.sort((a, b) => b.skillMatchPercentage - a.skillMatchPercentage)`
    performs (ECMAScript requires `Array.prototype.sort` to be stable). */
module Ranking {
  import opened Records

  function Score(x: Scored): int {
    x.skillMatchPercentage
  }

  /** Non-increasing by score. */
  predicate SortedDesc(s: seq<Scored>) {
    forall i, j :: 0 <= i < j < |s| ==> Score(s[i]) >= Score(s[j])
  }

  /** Puts `x` behind every element of `s` whose score is at least its own,
      scanning from the back as insertion sort does. */
  function Insert(s: seq<Scored>, x: Scored): seq<Scored>
    decreases |s|
  {
    if s == [] || Score(s[|s| - 1]) >= Score(x) then s + [x]
    else Insert(s[..|s| - 1], x) + [s[|s| - 1]]
  }

  /** The stable descending sort, as insertion of each element in turn. */
  function SortDesc(s: seq<Scored>): seq<Scored>
  {
    if s == [] then [] else Insert(SortDesc(s[..|s| - 1]), s[|s| - 1])
  }

  /** The elements of `s` whose score is `k`, in their order in `s`. */
  function WithScore(s: seq<Scored>, k: int): seq<Scored>
  {
    if s == [] then []
    else WithScore(s[..|s| - 1], k) + (if Score(s[|s| - 1]) == k then [s[|s| - 1]] else [])
  }

  // ---------------------------------------------------------------------
  // Properties of the score filter

  lemma {:induction false} WithScoreConcat(a: seq<Scored>, b: seq<Scored>, k: int)
    ensures WithScore(a + b, k) == WithScore(a, k) + WithScore(b, k)
    decreases |b|
  {
    if b == [] {
      assert a + b == a;
    } else {
      var n := |b| - 1;
      assert (a + b)[..|a + b| - 1] == a + b[..n];
      assert (a + b)[|a + b| - 1] == b[n];
      WithScoreConcat(a, b[..n], k);
    }
  }

  lemma {:induction false} WithScoreMembers(s: seq<Scored>, k: int)
    ensures forall y :: y in WithScore(s, k) <==> y in s && Score(y) == k
    decreases |s|
  {
    if s != [] {
      var n := |s| - 1;
      WithScoreMembers(s[..n], k);
      assert s == s[..n] + [s[n]];
      assert forall y :: y in s <==> y in s[..n] || y == s[n];
    }
  }

  // ---------------------------------------------------------------------
  // Insertion

  lemma {:induction false} InsertMultiset(s: seq<Scored>, x: Scored)
    ensures multiset(Insert(s, x)) == multiset(s) + multiset{x}
    decreases |s|
  {
    if s != [] && Score(s[|s| - 1]) < Score(x) {
      var n := |s| - 1;
      InsertMultiset(s[..n], x);
      assert s == s[..n] + [s[n]];
    }
  }

  lemma {:induction false} InsertSorted(s: seq<Scored>, x: Scored)
    requires SortedDesc(s)
    ensures SortedDesc(Insert(s, x))
    decreases |s|
  {
    var n := |s| - 1;
    if s == [] || Score(s[n]) >= Score(x) {
      var r := s + [x];
      forall i, j | 0 <= i < j < |r| ensures Score(r[i]) >= Score(r[j]) {
        if j == |s| {
          assert r[i] == s[i] && r[j] == x;
          assert Score(s[i]) >= Score(s[n]);
        }
      }
    } else {
      var l := s[n];
      var t := Insert(s[..n], x);
      InsertSorted(s[..n], x);
      InsertMultiset(s[..n], x);
      assert forall y :: y in t ==> Score(y) >= Score(l) by {
        forall y | y in t ensures Score(y) >= Score(l) {
          assert y in multiset(t);
          if y != x {
            assert y in multiset(s[..n]);
            var i :| 0 <= i < n && s[..n][i] == y;
            assert s[i] == y;
          }
        }
      }
      var r := t + [l];
      forall i, j | 0 <= i < j < |r| ensures Score(r[i]) >= Score(r[j]) {
        if j == |t| {
          assert r[i] == t[i] && t[i] in t;
        } else {
          assert r[i] == t[i] && r[j] == t[j];
        }
      }
    }
  }

  lemma {:induction false} InsertWithScore(s: seq<Scored>, x: Scored, k: int)
    ensures WithScore(Insert(s, x), k) == WithScore(s, k) + WithScore([x], k)
    decreases |s|
  {
    var n := |s| - 1;
    if s == [] || Score(s[n]) >= Score(x) {
      WithScoreConcat(s, [x], k);
    } else {
      var l := s[n];
      var t := Insert(s[..n], x);
      assert Insert(s, x) == t + [l];
      InsertWithScore(s[..n], x, k);
      WithScoreConcat(t, [l], k);
      WithScoreConcat(s[..n], [l], k);
      assert s == s[..n] + [l];
      WithScoreSingle(x, k);
      WithScoreSingle(l, k);
      assert WithScore([x], k) == [] || WithScore([l], k) == [];
    }
  }

  lemma WithScoreSingle(x: Scored, k: int)
    ensures WithScore([x], k) == (if Score(x) == k then [x] else [])
  {
    assert [x][..0] == [];
  }

  // ---------------------------------------------------------------------
  // The sort

  /** The sort orders by non-increasing score. */
  lemma {:induction false} SortDescSorted(s: seq<Scored>)
    ensures SortedDesc(SortDesc(s))
    decreases |s|
  {
    if s != [] {
      SortDescSorted(s[..|s| - 1]);
      InsertSorted(SortDesc(s[..|s| - 1]), s[|s| - 1]);
    }
  }

  /** The sort is a permutation of its input. */
  lemma {:induction false} SortDescPermutation(s: seq<Scored>)
    ensures multiset(SortDesc(s)) == multiset(s)
    decreases |s|
  {
    if s != [] {
      var n := |s| - 1;
      SortDescPermutation(s[..n]);
      InsertMultiset(SortDesc(s[..n]), s[n]);
      assert s == s[..n] + [s[n]];
    }
  }

  /** The sort is stable: the elements of each score keep their input order. */
  lemma {:induction false} SortDescStable(s: seq<Scored>, k: int)
    ensures WithScore(SortDesc(s), k) == WithScore(s, k)
    decreases |s|
  {
    if s != [] {
      var n := |s| - 1;
      SortDescStable(s[..n], k);
      InsertWithScore(SortDesc(s[..n]), s[n], k);
      assert WithScore([s[n]], k) == (if Score(s[n]) == k then [s[n]] else []) by {
        assert [s[n]][..0] == [];
      }
    }
  }

  /** In a sequence sorted by non-increasing score the last element has the
      least score. */
  lemma LastIsLeast(a: seq<Scored>, y: Scored)
    requires SortedDesc(a) && y in a
    ensures Score(y) >= Score(a[|a| - 1])
  {
    var i :| 0 <= i < |a| && a[i] == y;
    if i < |a| - 1 {
      assert Score(a[i]) >= Score(a[|a| - 1]);
    }
  }

  lemma SortedPrefix(a: seq<Scored>, n: nat)
    requires SortedDesc(a) && n <= |a|
    ensures SortedDesc(a[..n])
  {
    forall i, j | 0 <= i < j < n ensures Score(a[..n][i]) >= Score(a[..n][j]) {
      assert a[..n][i] == a[i] && a[..n][j] == a[j];
    }
  }

  /** An element of `b` is an element of `a` when the two agree on the
      elements of every score. */
  lemma SharedElement(a: seq<Scored>, b: seq<Scored>, y: Scored)
    requires forall k :: WithScore(a, k) == WithScore(b, k)
    requires y in b
    ensures y in a
  {
    WithScoreMembers(a, Score(y));
    WithScoreMembers(b, Score(y));
    assert WithScore(a, Score(y)) == WithScore(b, Score(y));
  }

  /** Sortedness and stability determine the result: two sequences sorted by
      non-increasing score that agree on the elements of every score are equal.
      So every stable descending sort returns what `SortDesc` returns. */
  lemma {:induction false} StableSortUnique(a: seq<Scored>, b: seq<Scored>)
    requires SortedDesc(a) && SortedDesc(b)
    requires forall k :: WithScore(a, k) == WithScore(b, k)
    ensures a == b
    decreases |a| + |b|
  {
    if a == [] || b == [] {
      if a != [] {
        SharedElement(b, a, a[0]);
      }
      if b != [] {
        SharedElement(a, b, b[0]);
      }
      return;
    }
    var n, m := |a| - 1, |b| - 1;
    var la, lb := a[n], b[m];
    SharedElement(a, b, lb);
    SharedElement(b, a, la);
    LastIsLeast(a, lb);
    LastIsLeast(b, la);
    var k := Score(la);
    assert WithScore(a, k) == WithScore(a[..n], k) + [la];
    assert WithScore(b, k) == WithScore(b[..m], k) + [lb];
    assert WithScore(a, k) == WithScore(b, k);
    assert la == WithScore(a, k)[|WithScore(a, k)| - 1];
    assert lb == WithScore(b, k)[|WithScore(b, k)| - 1];
    assert la == lb;
    forall k' ensures WithScore(a[..n], k') == WithScore(b[..m], k') {
      var x, y := WithScore(a[..n], k'), WithScore(b[..m], k');
      assert WithScore(a, k') == WithScore(b, k');
      if k' == k {
        assert x + [la] == y + [lb];
        assert (x + [la])[..|x|] == x;
        assert (y + [lb])[..|y|] == y;
      } else {
        assert WithScore(a, k') == x;
        assert WithScore(b, k') == y;
      }
    }
    SortedPrefix(a, n);
    SortedPrefix(b, m);
    StableSortUnique(a[..n], b[..m]);
    assert a == a[..n] + [la];
    assert b == b[..m] + [lb];
  }

  /** Any stable descending arrangement of `s` is `SortDesc(s)`. */
  lemma IsStableSortOf(s: seq<Scored>, r: seq<Scored>)
    requires SortedDesc(r)
    requires forall k :: WithScore(r, k) == WithScore(s, k)
    ensures r == SortDesc(s)
  {
    SortDescSorted(s);
    forall k ensures WithScore(r, k) == WithScore(SortDesc(s), k) {
      SortDescStable(s, k);
    }
    StableSortUnique(r, SortDesc(s));
  }

  // ---------------------------------------------------------------------
  // The in-place sort of the accumulator array

  /** Sorts `a` in place by insertion, stably, by non-increasing score. */
  method SortInPlace(a: array<Scored>)
    modifies a
    ensures a[..] == SortDesc(old(a[..]))
  {
    ghost var input := a[..];
    var i := 0;
    while i < a.Length
      invariant 0 <= i <= a.Length
      invariant a[..i] == SortDesc(input[..i])
      invariant a[i..] == input[i..]
    {
      assert a[i] == input[i] by {
        assert a[i..][0] == input[i..][0];
      }
      assert a[i + 1..] == input[i + 1..] by {
        assert a[i + 1..] == a[i..][1..];
        assert input[i + 1..] == input[i..][1..];
      }
      assert SortDesc(input[..i + 1]) == Insert(SortDesc(input[..i]), input[i]) by {
        assert input[..i + 1][..i] == input[..i];
      }
      InsertInPlace(a, i);
      i := i + 1;
    }
    assert input[..a.Length] == input;
    assert a[..a.Length] == a[..];
  }

  /** One step of insertion sort: moves `a[i]` back into the sorted prefix
      `a[..i]`, shifting the elements of lower score one place up. */
  method InsertInPlace(a: array<Scored>, i: nat)
    requires i < a.Length
    modifies a
    ensures a[..i + 1] == Insert(old(a[..i]), old(a[i]))
    ensures a[i + 1..] == old(a[i + 1..])
  {
    ghost var s := a[..i];
    var x := a[i];
    var j := i;
    while j > 0 && Score(a[j - 1]) < Score(x)
      invariant 0 <= j <= i
      invariant forall k :: 0 <= k < j ==> a[k] == s[k]
      invariant forall k :: j < k <= i ==> a[k] == s[k - 1]
      invariant forall k :: i < k < a.Length ==> a[k] == old(a[k])
      invariant forall k :: j <= k < i ==> Score(s[k]) < Score(x)
    {
      a[j] := a[j - 1];
      j := j - 1;
    }
    a[j] := x;
    InsertAt(s, x, j);
    ghost var inserted := s[..j] + [x] + s[j..];
    assert forall k :: 0 <= k <= i ==> a[k] == inserted[k];
    assert a[..i + 1] == inserted;
  }

  /** `x` is inserted right behind the last element whose score is at least its
      own: at `j`, when every element from `j` on scores lower and the one
      before `j` (if any) does not. */
  lemma {:induction false} InsertAt(s: seq<Scored>, x: Scored, j: nat)
    requires j <= |s| && (j == 0 || Score(s[j - 1]) >= Score(x))
    requires forall k :: j <= k < |s| ==> Score(s[k]) < Score(x)
    ensures Insert(s, x) == s[..j] + [x] + s[j..]
    decreases |s|
  {
    if |s| == j {
      assert s[..j] == s && s[j..] == [];
    } else {
      var n := |s| - 1;
      InsertAt(s[..n], x, j);
      assert s[..n][..j] == s[..j];
      assert s[j..n] + [s[n]] == s[j..];
    }
  }
}
