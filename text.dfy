/** The string primitives the recommendation engine relies on: ASCII lower-casing,
    ECMAScript trimming, splitting on a separator and substring search. */
module Text {

  /** The code points ECMAScript's `String.prototype.trim` strips: WhiteSpace
      (tab, vertical tab, form feed, space, no-break space, byte-order mark and
      the Unicode space separators) and LineTerminator (LF, CR, U+2028, U+2029). */
  predicate IsWhitespace(c: char) {
    c == '\t' || c == '\n' || c == '\U{B}' || c == '\U{C}' || c == '\r' || c == ' '
    || c == '\U{A0}' || c == '\U{1680}' || ('\U{2000}' <= c <= '\U{200A}')
    || c == '\U{2028}' || c == '\U{2029}' || c == '\U{202F}' || c == '\U{205F}'
    || c == '\U{3000}' || c == '\U{FEFF}'
  }

  predicate AllWhitespace(s: string) {
    forall k :: 0 <= k < |s| ==> IsWhitespace(s[k])
  }

  predicate IsUpper(c: char) {
    'A' <= c <= 'Z'
  }

  /** Lower-casing of one character, restricted to the ASCII letters. */
  function Lower(c: char): (d: char)
    ensures !IsUpper(d)
    ensures d == c <==> !IsUpper(c)
  {
    if IsUpper(c) then (c as int + 32) as char else c
  }

  /** `toLowerCase` on a whole string, character by character. */
  function LowerStr(s: string): (r: string)
    ensures |r| == |s|
  {
    seq(|s|, i requires 0 <= i < |s| => Lower(s[i]))
  }

  lemma LowerIdempotent(s: string)
    ensures LowerStr(LowerStr(s)) == LowerStr(s)
  {
  }

  /** Lower-casing never creates or destroys whitespace, and never produces a
      character that was not already that character or an upper-case letter. */
  lemma LowerPreservesWhitespace(c: char)
    ensures IsWhitespace(Lower(c)) <==> IsWhitespace(c)
  {
  }

  /** Strips leading whitespace: the result is the longest suffix of `s` that
      does not start with whitespace, and everything removed was whitespace. */
  function TrimStart(s: string): (r: string)
    ensures |r| <= |s| && r == s[|s| - |r|..]
    ensures AllWhitespace(s[..|s| - |r|])
    ensures r != [] ==> !IsWhitespace(r[0])
  {
    if s != [] && IsWhitespace(s[0]) then TrimStart(s[1..]) else s
  }

  /** Strips trailing whitespace: the result is the longest prefix of `s` that
      does not end with whitespace, and everything removed was whitespace. */
  function TrimEnd(s: string): (r: string)
    ensures |r| <= |s| && r == s[..|r|]
    ensures AllWhitespace(s[|r|..])
    ensures r != [] ==> !IsWhitespace(r[|r| - 1])
  {
    if s != [] && IsWhitespace(s[|s| - 1]) then TrimEnd(s[..|s| - 1]) else s
  }

  /** `String.prototype.trim`. */
  function Trim(s: string): (r: string)
    ensures r != [] ==> !IsWhitespace(r[0]) && !IsWhitespace(r[|r| - 1])
    ensures r == [] <==> AllWhitespace(s)
  {
    var t := TrimStart(s);
    var r := TrimEnd(t);
    assert r == [] ==> AllWhitespace(s) by {
      if r == [] {
        assert s == s[..|s| - |t|] + t;
        assert t == t[..0] + t[0..];
      }
    }
    r
  }

  /** The trimmed string sits inside `s` between a whitespace prefix and a
      whitespace suffix. */
  lemma TrimSplitsOff(s: string) returns (lead: string, trail: string)
    ensures s == lead + Trim(s) + trail
    ensures AllWhitespace(lead) && AllWhitespace(trail)
  {
    var t := TrimStart(s);
    var r := TrimEnd(t);
    lead := s[..|s| - |t|];
    trail := t[|r|..];
    Reassemble(s, t, r);
  }

  /** A prefix `r` of a suffix `t` of `s` sits between the rest of `s` in front
      of `t` and the rest of `t` behind `r`. */
  lemma Reassemble<T>(s: seq<T>, t: seq<T>, r: seq<T>)
    requires |t| <= |s| && t == s[|s| - |t|..]
    requires |r| <= |t| && r == t[..|r|]
    ensures s == s[..|s| - |t|] + r + t[|r|..]
  {
    assert s == s[..|s| - |t|] + t;
    assert t == r + t[|r|..];
  }

  /** Trimming twice is trimming once. */
  lemma TrimIdempotent(s: string)
    ensures Trim(Trim(s)) == Trim(s)
  {
    var r := Trim(s);
    assert TrimStart(r) == r;
    assert TrimEnd(r) == r;
  }

  /** No whitespace string holds a comma. */
  lemma WhitespaceHasNoComma(w: string)
    requires AllWhitespace(w)
    ensures ',' !in w
  {
  }

  /** Whitespace added at either end does not change the trimmed result. */
  lemma {:induction false} TrimStartPadded(w: string, t: string)
    requires AllWhitespace(w)
    ensures TrimStart(w + t) == TrimStart(t)
  {
    if w != [] {
      assert (w + t)[1..] == w[1..] + t;
      TrimStartPadded(w[1..], t);
    } else {
      assert w + t == t;
    }
  }

  lemma {:induction false} TrimEndPadded(t: string, w: string)
    requires AllWhitespace(w)
    ensures TrimEnd(t + w) == TrimEnd(t)
  {
    if w != [] {
      var n := |w| - 1;
      assert (t + w)[..|t + w| - 1] == t + w[..n];
      TrimEndPadded(t, w[..n]);
    } else {
      assert t + w == t;
    }
  }

  lemma TrimPadded(w1: string, t: string, w2: string)
    requires AllWhitespace(w1) && AllWhitespace(w2)
    ensures Trim(w1 + t + w2) == Trim(t)
  {
    assert w1 + t + w2 == w1 + (t + w2);
    TrimStartPadded(w1, t + w2);
    if AllWhitespace(t) {
      assert AllWhitespace(w1 + t + w2) by {
        forall k | 0 <= k < |w1 + t + w2| ensures IsWhitespace((w1 + t + w2)[k]) {
          if k < |w1| {
            assert (w1 + t + w2)[k] == w1[k];
          } else if k < |w1| + |t| {
            assert (w1 + t + w2)[k] == t[k - |w1|];
          } else {
            assert (w1 + t + w2)[k] == w2[k - |w1| - |t|];
          }
        }
      }
    } else {
      TrimStartAppend(t, w2);
      TrimEndPadded(TrimStart(t), w2);
    }
  }

  /** Appending whitespace to a string that is not all whitespace leaves its
      leading whitespace where it was. */
  lemma {:induction false} TrimStartAppend(t: string, w: string)
    requires !AllWhitespace(t)
    ensures TrimStart(t + w) == TrimStart(t) + w
  {
    assert (t + w)[0] == t[0];
    if IsWhitespace(t[0]) {
      assert (t + w)[1..] == t[1..] + w;
      assert !AllWhitespace(t[1..]) by {
        var k :| 0 <= k < |t| && !IsWhitespace(t[k]);
        assert t[1..][k - 1] == t[k];
      }
      TrimStartAppend(t[1..], w);
    }
  }

  /** JavaScript's `split(sep)`: the pieces between separators, in order; there is
      always at least one piece, and no piece contains the separator. */
  function Split(s: string, sep: char): (r: seq<string>)
    ensures |r| >= 1
    ensures forall k :: 0 <= k < |r| ==> sep !in r[k]
  {
    if s == [] then [[]]
    else
      var rest := Split(s[1..], sep);
      if s[0] == sep then [[]] + rest
      else [[s[0]] + rest[0]] + rest[1..]
  }

  /** The inverse of `Split`: the pieces glued back together with the separator. */
  function Join(pieces: seq<string>, sep: char): string
    requires |pieces| >= 1
  {
    if |pieces| == 1 then pieces[0] else pieces[0] + [sep] + Join(pieces[1..], sep)
  }

  /** Splitting and joining again gives back the original string. */
  lemma {:induction false} JoinSplit(s: string, sep: char)
    ensures Join(Split(s, sep), sep) == s
  {
    if s != [] {
      var rest := Split(s[1..], sep);
      JoinSplit(s[1..], sep);
      if s[0] == sep {
        assert ([[]] + rest)[1..] == rest;
      } else {
        var r := [[s[0]] + rest[0]] + rest[1..];
        if |rest| == 1 {
          assert Join(r, sep) == [s[0]] + rest[0];
        } else {
          assert r[1..] == rest[1..];
          assert Join(rest, sep) == rest[0] + [sep] + Join(rest[1..], sep);
          assert Join(r, sep) == [s[0]] + rest[0] + [sep] + Join(rest[1..], sep);
        }
        assert s == [s[0]] + s[1..];
      }
    }
  }

  /** Splitting after a separator splits the two sides independently. */
  lemma {:induction false} SplitAtSeparator(a: string, b: string, sep: char)
    ensures Split(a + [sep] + b, sep) == Split(a, sep) + Split(b, sep)
  {
    var s := a + [sep] + b;
    if a == [] {
      assert s[1..] == b;
    } else {
      assert s[1..] == a[1..] + [sep] + b;
      SplitAtSeparator(a[1..], b, sep);
    }
  }

  /** A string without the separator is a single piece. */
  lemma {:induction false} SplitSinglePiece(a: string, sep: char)
    requires sep !in a
    ensures Split(a, sep) == [a]
  {
    if a != [] {
      assert sep !in a[1..] by {
        forall k | 0 <= k < |a[1..]| ensures a[1..][k] != sep {
          assert a[1..][k] == a[k + 1];
        }
      }
      SplitSinglePiece(a[1..], sep);
      assert a == [a[0]] + a[1..];
    }
  }

  /** Joining pieces that hold no separator and splitting again gives the pieces back. */
  lemma {:induction false} SplitJoin(pieces: seq<string>, sep: char)
    requires |pieces| >= 1
    requires forall k :: 0 <= k < |pieces| ==> sep !in pieces[k]
    ensures Split(Join(pieces, sep), sep) == pieces
  {
    SplitSinglePiece(pieces[0], sep);
    if |pieces| > 1 {
      SplitJoin(pieces[1..], sep);
      SplitAtSeparator(pieces[0], Join(pieces[1..], sep), sep);
      assert pieces == [pieces[0]] + pieces[1..];
    }
  }

  /** Text without the separator put in front of a string joins its first piece. */
  lemma {:induction false} SplitPrepend(w: string, s: string, sep: char)
    requires sep !in w
    ensures var p := Split(s, sep); Split(w + s, sep) == [w + p[0]] + p[1..]
  {
    if w != [] {
      assert sep !in w[1..] by {
        forall k | 0 <= k < |w[1..]| ensures w[1..][k] != sep {
          assert w[1..][k] == w[k + 1];
        }
      }
      SplitPrepend(w[1..], s, sep);
      assert (w + s)[1..] == w[1..] + s;
      assert [w[0]] + (w[1..] + Split(s, sep)[0]) == w + Split(s, sep)[0];
    } else {
      var p := Split(s, sep);
      assert w + s == s;
      assert w + p[0] == p[0];
      assert p == [p[0]] + p[1..];
    }
  }

  /** Text without the separator put after a string joins its last piece. */
  lemma SplitAppend(s: string, w: string, sep: char)
    requires sep !in w
    ensures var p := Split(s, sep); var n := |p| - 1;
            Split(s + w, sep) == p[..n] + [p[n] + w]
  {
    var p := Split(s, sep);
    var n := |p| - 1;
    var q := p[..n] + [p[n] + w];
    assert forall k :: 0 <= k < |q| ==> sep !in q[k] by {
      forall k | 0 <= k < |q| ensures sep !in q[k] {
        if k < n {
          assert q[k] == p[k];
        } else {
          assert q[k] == p[n] + w;
        }
      }
    }
    JoinSplit(s, sep);
    JoinAppendLast(p, w, sep);
    SplitJoin(q, sep);
  }

  lemma {:induction false} JoinAppendLast(pieces: seq<string>, w: string, sep: char)
    requires |pieces| >= 1
    ensures var n := |pieces| - 1;
            Join(pieces[..n] + [pieces[n] + w], sep) == Join(pieces, sep) + w
  {
    var n := |pieces| - 1;
    var q := pieces[..n] + [pieces[n] + w];
    if n > 0 {
      var tail := pieces[1..];
      JoinAppendLast(tail, w, sep);
      assert q[0] == pieces[0];
      assert q[1..] == tail[..n - 1] + [tail[n - 1] + w];
    }
  }

  /** Lower-casing every piece of a split. */
  function LowerAll(pieces: seq<string>): (r: seq<string>)
    ensures |r| == |pieces|
  {
    seq(|pieces|, i requires 0 <= i < |pieces| => LowerStr(pieces[i]))
  }

  /** Lower-casing commutes with trimming: it neither creates nor destroys
      whitespace at the ends. */
  lemma {:induction false} TrimStartLower(t: string)
    ensures TrimStart(LowerStr(t)) == LowerStr(TrimStart(t))
  {
    if t != [] {
      LowerPreservesWhitespace(t[0]);
      assert LowerStr(t)[1..] == LowerStr(t[1..]);
      TrimStartLower(t[1..]);
    }
  }

  lemma {:induction false} TrimEndLower(t: string)
    ensures TrimEnd(LowerStr(t)) == LowerStr(TrimEnd(t))
  {
    if t != [] {
      LowerPreservesWhitespace(t[|t| - 1]);
      assert LowerStr(t)[..|t| - 1] == LowerStr(t[..|t| - 1]);
      TrimEndLower(t[..|t| - 1]);
    }
  }

  lemma TrimLower(t: string)
    ensures Trim(LowerStr(t)) == LowerStr(Trim(t))
  {
    TrimStartLower(t);
    TrimEndLower(TrimStart(t));
  }

  lemma LowerConcat(a: string, b: string)
    ensures LowerStr(a + b) == LowerStr(a) + LowerStr(b)
  {
  }

  /** Lower-casing a joined string lower-cases each piece, when the separator is
      not a letter. */
  lemma {:induction false} LowerJoin(pieces: seq<string>, sep: char)
    requires |pieces| >= 1
    requires !IsUpper(sep)
    ensures LowerStr(Join(pieces, sep)) == Join(LowerAll(pieces), sep)
  {
    if |pieces| > 1 {
      LowerJoin(pieces[1..], sep);
      assert LowerAll(pieces)[1..] == LowerAll(pieces[1..]);
      LowerConcat(pieces[0] + [sep], Join(pieces[1..], sep));
      LowerConcat(pieces[0], [sep]);
    }
  }

  /** Lower-casing commutes with splitting on a separator that is not a letter. */
  lemma SplitLower(s: string, sep: char)
    requires !IsUpper(sep) && !('a' <= sep <= 'z')
    ensures Split(LowerStr(s), sep) == LowerAll(Split(s, sep))
  {
    var p := Split(s, sep);
    var q := LowerAll(p);
    JoinSplit(s, sep);
    LowerJoin(p, sep);
    SplitJoin(q, sep);
  }

  predicate IsPrefix(p: string, s: string) {
    |p| <= |s| && s[..|p|] == p
  }

  /** `needle` occurs in `haystack` starting at offset `i`. */
  predicate OccursAt(haystack: string, needle: string, i: int) {
    0 <= i <= |haystack| - |needle| && haystack[i..i + |needle|] == needle
  }

  /** `haystack.includes(needle)`: is `needle` a prefix of some suffix of `haystack`? */
  function Contains(haystack: string, needle: string): (found: bool)
    decreases |haystack|
  {
    IsPrefix(needle, haystack) || (haystack != [] && Contains(haystack[1..], needle))
  }

  /** The search above agrees with the definition of a substring. */
  lemma {:induction false} ContainsIsSubstring(haystack: string, needle: string)
    ensures Contains(haystack, needle) <==> exists i :: OccursAt(haystack, needle, i)
    decreases |haystack|
  {
    if IsPrefix(needle, haystack) {
      assert OccursAt(haystack, needle, 0);
    } else if haystack != [] {
      var tail := haystack[1..];
      ContainsIsSubstring(tail, needle);
      if Contains(tail, needle) {
        var i :| OccursAt(tail, needle, i);
        assert haystack[i + 1..i + 1 + |needle|] == tail[i..i + |needle|];
        assert OccursAt(haystack, needle, i + 1);
      }
      if exists i :: OccursAt(haystack, needle, i) {
        var i :| OccursAt(haystack, needle, i);
        assert i != 0;
        assert tail[i - 1..i - 1 + |needle|] == haystack[i..i + |needle|];
        assert OccursAt(tail, needle, i - 1);
      }
    }
  }
}
