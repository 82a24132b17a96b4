/**
 * The few Python string operations the resolver and the catalog reader use:
 * `str.lower`, `str.replace`, `str.translate` with a one-character table,
 * and the tail that `os.path.split` returns on POSIX.
 */
module Strings {

  /** Lower-casing of one character, ASCII letters only. */
  function LowerChar(c: char): char
  {
    if 'A' <= c <= 'Z' then (c as int + 32) as char else c
  }

  /** `s.lower()` on ASCII text. */
  function Lower(s: string): (r: string)
    ensures |r| == |s|
    ensures forall i :: 0 <= i < |s| ==> r[i] == LowerChar(s[i])
  {
    seq(|s|, i requires 0 <= i < |s| => LowerChar(s[i]))
  }

  /** Lower-casing twice changes nothing more than lower-casing once. */
  lemma LowerIdempotent(s: string)
    ensures Lower(Lower(s)) == Lower(s)
  {
    var once := Lower(s);
    forall i | 0 <= i < |s|
      ensures Lower(once)[i] == once[i]
    {
      assert 'A' <= once[i] <= 'Z' ==> false;
    }
  }

  /** `s` ends with `suffix`. */
  predicate EndsWith(s: string, suffix: string)
  {
    |suffix| <= |s| && s[|s| - |suffix|..] == suffix
  }

  /** `pat` occurs in `s` starting at index `i`. */
  predicate OccursAt(s: string, pat: string, i: int)
  {
    0 <= i && i + |pat| <= |s| && s[i..i + |pat|] == pat
  }

  /**
   * `s.replace(pat, rep)`: every occurrence of `pat`, scanning left to
   * right and never overlapping, is replaced by `rep`. An empty `pat`
   * inserts `rep` before every character and at the end, as Python does.
   */
  function ReplaceAll(s: string, pat: string, rep: string): string
    decreases |s|
  {
    if pat == [] then
      if s == [] then rep else rep + [s[0]] + ReplaceAll(s[1..], pat, rep)
    else if |s| < |pat| then s
    else if s[..|pat|] == pat then rep + ReplaceAll(s[|pat|..], pat, rep)
    else [s[0]] + ReplaceAll(s[1..], pat, rep)
  }

  /** Dropping the first character shifts every occurrence one place left. */
  lemma OccursAtTail(s: string, pat: string, i: int)
    requires |s| > 0 && 0 <= i
    ensures OccursAt(s[1..], pat, i) <==> OccursAt(s, pat, i + 1)
  {
    if i + |pat| <= |s| - 1 {
      assert s[1..][i..i + |pat|] == s[i + 1..i + 1 + |pat|];
    }
  }

  /** Without an occurrence of `pat`, replacing changes nothing. */
  lemma {:induction false} ReplaceNoMatch(s: string, pat: string, rep: string)
    requires pat != []
    requires forall i :: !OccursAt(s, pat, i)
    ensures ReplaceAll(s, pat, rep) == s
    decreases |s|
  {
    if |s| >= |pat| {
      assert !OccursAt(s, pat, 0);
      forall i
        ensures !OccursAt(s[1..], pat, i)
      {
        if 0 <= i {
          OccursAtTail(s, pat, i);
        }
      }
      ReplaceNoMatch(s[1..], pat, rep);
    }
  }

  /** An occurrence at the start is replaced and the scan resumes after it. */
  lemma ReplaceAtMatch(s: string, pat: string, rep: string)
    requires pat != [] && OccursAt(s, pat, 0)
    ensures ReplaceAll(s, pat, rep) == rep + ReplaceAll(s[|pat|..], pat, rep)
  {
    assert s[..|pat|] == s[0..|pat|];
  }

  /** Without an occurrence at the start, the first character is kept. */
  lemma ReplacePastChar(s: string, pat: string, rep: string)
    requires pat != [] && s != [] && !OccursAt(s, pat, 0)
    ensures ReplaceAll(s, pat, rep) == [s[0]] + ReplaceAll(s[1..], pat, rep)
  {
    if |s| < |pat| {
      assert ReplaceAll(s[1..], pat, rep) == s[1..];
      assert [s[0]] + s[1..] == s;
    } else {
      assert s[..|pat|] == s[0..|pat|];
    }
  }

  /**
   * The first occurrence of `pat` is replaced by `rep` and the scan resumes
   * right after it; the text before it is kept.
   */
  lemma {:induction false} ReplaceFirstMatch(a: string, b: string, pat: string, rep: string)
    requires pat != []
    requires forall i :: 0 <= i < |a| ==> !OccursAt(a + pat + b, pat, i)
    ensures ReplaceAll(a + pat + b, pat, rep) == a + rep + ReplaceAll(b, pat, rep)
    decreases |a|, 1
  {
    if a == [] {
      var s := a + pat + b;
      assert s == pat + b && s[..|pat|] == pat && s[|pat|..] == b;
      ReplaceAtMatch(s, pat, rep);
    } else {
      ReplaceFirstMatchLater(a, b, pat, rep);
    }
  }

  /** The case of `ReplaceFirstMatch` where text comes before the occurrence. */
  lemma {:induction false} ReplaceFirstMatchLater(a: string, b: string, pat: string, rep: string)
    requires pat != [] && a != []
    requires forall i :: 0 <= i < |a| ==> !OccursAt(a + pat + b, pat, i)
    ensures ReplaceAll(a + pat + b, pat, rep) == a + rep + ReplaceAll(b, pat, rep)
    decreases |a|, 0
  {
    var s := a + pat + b;
    var r := ReplaceAll(b, pat, rep);
    NoEarlierMatchShifts(a, b, pat);
    ReplacePastChar(s, pat, rep);
    assert ReplaceAll(s, pat, rep) == [a[0]] + ReplaceAll(a[1..] + pat + b, pat, rep);
    ReplaceFirstMatch(a[1..], b, pat, rep);
    assert [a[0]] + (a[1..] + rep + r) == a + rep + r;
  }

  /** Dropping a first character that starts no occurrence keeps the later ones apart. */
  lemma NoEarlierMatchShifts(a: string, b: string, pat: string)
    requires a != []
    requires forall i :: 0 <= i < |a| ==> !OccursAt(a + pat + b, pat, i)
    ensures (a + pat + b)[0] == a[0] && (a + pat + b)[1..] == a[1..] + pat + b
    ensures !OccursAt(a + pat + b, pat, 0)
    ensures forall i :: 0 <= i < |a| - 1 ==> !OccursAt(a[1..] + pat + b, pat, i)
  {
    var s := a + pat + b;
    assert s[1..] == a[1..] + pat + b;
    forall i | 0 <= i < |a| - 1
      ensures !OccursAt(a[1..] + pat + b, pat, i)
    {
      OccursAtTail(s, pat, i);
    }
  }

  /** Each element of a prefix belongs to it. */
  lemma ElementOfPrefix(s: string, n: int, k: int)
    requires 0 <= k < n <= |s|
    ensures s[k] in s[..n]
  {
    assert s[..n][k] == s[k];
  }

  /**
   * Text that starts with a character foreign to `pat` cannot be part of an
   * occurrence that starts earlier, so replacing works on both sides of it
   * separately.
   */
  lemma {:induction false} ReplaceSplit(y: string, z: string, pat: string, rep: string)
    requires pat != [] && z != [] && z[0] !in pat
    ensures ReplaceAll(y + z, pat, rep) == ReplaceAll(y, pat, rep) + ReplaceAll(z, pat, rep)
    decreases |y|, 1
  {
    var s := y + z;
    if y == [] {
      assert s == z;
    } else if |s| < |pat| {
      assert ReplaceAll(z, pat, rep) == z;
    } else if s[..|pat|] == pat {
      ReplaceSplitAtMatch(y, z, pat, rep);
    } else {
      ReplaceSplitPastChar(y, z, pat, rep);
    }
  }

  /** The case of `ReplaceSplit` where an occurrence starts the text. */
  lemma {:induction false} ReplaceSplitAtMatch(y: string, z: string, pat: string, rep: string)
    requires pat != [] && z != [] && z[0] !in pat
    requires y != [] && |pat| <= |y + z| && (y + z)[..|pat|] == pat
    ensures ReplaceAll(y + z, pat, rep) == ReplaceAll(y, pat, rep) + ReplaceAll(z, pat, rep)
    decreases |y|, 0
  {
    var s := y + z;
    if |y| < |pat| {
      ElementOfPrefix(s, |pat|, |y|);
      assert false;
    }
    assert y[..|pat|] == pat;
    assert s[|pat|..] == y[|pat|..] + z;
    ReplaceSplit(y[|pat|..], z, pat, rep);
  }

  /** The case of `ReplaceSplit` where the first character is kept. */
  lemma {:induction false} ReplaceSplitPastChar(y: string, z: string, pat: string, rep: string)
    requires pat != [] && z != [] && z[0] !in pat
    requires y != [] && |pat| <= |y + z| && (y + z)[..|pat|] != pat
    ensures ReplaceAll(y + z, pat, rep) == ReplaceAll(y, pat, rep) + ReplaceAll(z, pat, rep)
    decreases |y|, 0
  {
    var s := y + z;
    var left := ReplaceAll(y[1..], pat, rep);
    var right := ReplaceAll(z, pat, rep);
    assert ReplaceAll(s, pat, rep) == [y[0]] + left + right by {
      assert s[1..] == y[1..] + z;
      ReplaceSplit(y[1..], z, pat, rep);
    }
    assert ReplaceAll(y, pat, rep) == [y[0]] + left by {
      if |y| >= |pat| {
        assert y[..|pat|] == s[..|pat|];
      } else {
        assert left == y[1..];
        assert [y[0]] + left == y;
      }
    }
  }

  /** `s.translate({c: d})`: every `c` becomes `d`, everything else is kept. */
  function Translate(s: string, c: char, d: char): (r: string)
    ensures |r| == |s|
    ensures forall i :: 0 <= i < |s| ==> r[i] == (if s[i] == c then d else s[i])
  {
    seq(|s|, i requires 0 <= i < |s| => if s[i] == c then d else s[i])
  }

  /** `s` with every `c` removed; the other characters keep their order. */
  function RemoveChar(s: string, c: char): (r: string)
    ensures c !in r
    ensures multiset(r) == multiset(s)[c := 0]
  {
    if s == [] then []
    else
      var rest := RemoveChar(s[1..], c);
      assert s == [s[0]] + s[1..];
      assert multiset(s) == multiset([s[0]]) + multiset(s[1..]);
      (if s[0] == c then [] else [s[0]]) + rest
  }

  /** Removing characters does not bring in new ones. */
  lemma RemoveCharKeepsAbsent(s: string, c: char, x: char)
    requires x !in s
    ensures x !in RemoveChar(s, c)
  {
    assert multiset(s)[x] == 0;
    assert multiset(RemoveChar(s, c))[x] == 0;
  }

  /** Replacing a one-character pattern handles the first character on its own. */
  lemma ReplaceCharStep(s: string, c: char, rep: string)
    requires s != []
    ensures ReplaceAll(s, [c], rep) == (if s[0] == c then rep else [s[0]]) + ReplaceAll(s[1..], [c], rep)
  {
    if s[0] == c {
      assert s[0..1] == [c];
      ReplaceAtMatch(s, [c], rep);
    } else {
      ReplacePastChar(s, [c], rep);
    }
  }

  /** Translation handles the first character on its own. */
  lemma TranslateStep(s: string, c: char, d: char)
    requires s != []
    ensures Translate(s, c, d) == [if s[0] == c then d else s[0]] + Translate(s[1..], c, d)
  {
    var t := [if s[0] == c then d else s[0]] + Translate(s[1..], c, d);
    forall i | 0 <= i < |s|
      ensures Translate(s, c, d)[i] == t[i]
    {
      if i > 0 {
        assert t[i] == Translate(s[1..], c, d)[i - 1];
      }
    }
  }

  /** Replacing a one-character pattern by one character is a translation. */
  lemma {:induction false} ReplaceCharIsTranslate(s: string, c: char, d: char)
    ensures ReplaceAll(s, [c], [d]) == Translate(s, c, d)
  {
    if s != [] {
      ReplaceCharStep(s, c, [d]);
      ReplaceCharIsTranslate(s[1..], c, d);
      TranslateStep(s, c, d);
    }
  }

  /** Replacing a one-character pattern by nothing deletes that character. */
  lemma {:induction false} ReplaceCharByNothingIsRemove(s: string, c: char)
    ensures ReplaceAll(s, [c], []) == RemoveChar(s, c)
  {
    if s != [] {
      ReplaceCharStep(s, c, []);
      ReplaceCharByNothingIsRemove(s[1..], c);
    }
  }

  /**
   * `os.path.split(p)[1]` on POSIX: the part of `p` after its last `/`,
   * or all of `p` when it has none.
   */
  function PathTail(p: string): (r: string)
    ensures '/' !in r
    decreases |p|
  {
    if p == [] || p[|p| - 1] == '/' then []
    else PathTail(p[..|p| - 1]) + [p[|p| - 1]]
  }

  /**
   * The tail is a suffix of the path, and it is either the whole path or
   * preceded by a `/`: it is what follows the last `/`.
   */
  lemma PathTailIsLastSegment(p: string)
    ensures EndsWith(p, PathTail(p))
    ensures |PathTail(p)| < |p| ==> p[|p| - |PathTail(p)| - 1] == '/'
  {
    PathTailIsSuffix(p);
    PathTailFollowsSlash(p);
  }

  /** The tail is a suffix of the path. */
  lemma {:induction false} PathTailIsSuffix(p: string)
    ensures EndsWith(p, PathTail(p))
    decreases |p|
  {
    if p != [] && p[|p| - 1] != '/' {
      var init := p[..|p| - 1];
      PathTailIsSuffix(init);
      assert p == init + [p[|p| - 1]];
      EndsWithSnoc(init, PathTail(init), p[|p| - 1]);
    }
  }

  /** Unless it is the whole path, the tail comes right after a `/`. */
  lemma {:induction false} PathTailFollowsSlash(p: string)
    ensures |PathTail(p)| < |p| ==> p[|p| - |PathTail(p)| - 1] == '/'
    decreases |p|
  {
    if p != [] && p[|p| - 1] != '/' {
      var init := p[..|p| - 1];
      PathTailFollowsSlash(init);
      var t := PathTail(init);
      assert |PathTail(p)| == |t| + 1;
      if |t| < |init| {
        assert p[|p| - (|t| + 1) - 1] == init[|init| - |t| - 1];
      }
    }
  }

  /** Appending one character to a text and to a suffix of it keeps the suffix. */
  lemma EndsWithSnoc(s: string, t: string, c: char)
    requires EndsWith(s, t)
    ensures EndsWith(s + [c], t + [c])
  {
    assert (s + [c])[|s| - |t|..] == s[|s| - |t|..] + [c];
  }

  /** Appending slash-free text appends it to the tail as well. */
  lemma {:induction false} PathTailAppend(p: string, ext: string)
    requires '/' !in ext
    ensures PathTail(p + ext) == PathTail(p) + ext
    decreases |ext|
  {
    if ext == [] {
      assert p + ext == p;
    } else {
      var n := |ext| - 1;
      var q := p + ext;
      var last := ext[n];
      assert last in ext;
      assert q[|q| - 1] == last;
      assert q[..|q| - 1] == p + ext[..n];
      assert PathTail(q) == PathTail(p + ext[..n]) + [last];
      PathTailAppend(p, ext[..n]);
      assert ext == ext[..n] + [last];
    }
  }
}
