/**
 * The one string primitive of the browser that the panel leans on:
 * `String.prototype.replaceAll` with a string pattern and a plain
 * replacement text.
 */
module JsString {

  /** `pat` occurs in `s` starting at index `i`. */
  predicate OccursAt(s: string, pat: string, i: nat) {
    i + |pat| <= |s| && s[i..i + |pat|] == pat
  }

  /**
   * `s.replaceAll(pat, rep)`: every occurrence of `pat`, found left to
   * right without overlap, is replaced by `rep`. An empty pattern matches
   * before every character and at the end, as in JavaScript.
   */
  function ReplaceAll(s: string, pat: string, rep: string): (r: string)
    decreases |s|
  {
    if |pat| == 0 then
      if |s| == 0 then rep else rep + [s[0]] + ReplaceAll(s[1..], pat, rep)
    else if |s| < |pat| then s
    else if s[..|pat|] == pat then rep + ReplaceAll(s[|pat|..], pat, rep)
    else [s[0]] + ReplaceAll(s[1..], pat, rep)
  }

  /** Occurrences in a suffix are the occurrences in the whole string, shifted. */
  lemma OccursAtSuffix(s: string, pat: string, d: nat, i: nat)
    requires d <= |s|
    ensures OccursAt(s[d..], pat, i) <==> OccursAt(s, pat, i + d)
  {
    if i + |pat| <= |s| - d {
      assert s[d..][i..i + |pat|] == s[i + d..i + d + |pat|];
    }
  }

  /** A string in which `pat` never occurs is left as it is. */
  lemma {:induction false} ReplaceAllAbsent(s: string, pat: string, rep: string)
    requires |pat| > 0
    requires forall i: nat :: !OccursAt(s, pat, i)
    ensures ReplaceAll(s, pat, rep) == s
    decreases |s|
  {
    if |s| >= |pat| {
      assert !OccursAt(s, pat, 0);
      forall i: nat ensures !OccursAt(s[1..], pat, i) {
        OccursAtSuffix(s, pat, 1, i);
      }
      ReplaceAllAbsent(s[1..], pat, rep);
      assert [s[0]] + s[1..] == s;
    }
  }

  /** One step of the scan when no occurrence starts at the first character. */
  lemma ReplaceAllStep(s: string, pat: string, rep: string)
    requires |pat| > 0 && |s| > 0 && !OccursAt(s, pat, 0)
    ensures ReplaceAll(s, pat, rep) == [s[0]] + ReplaceAll(s[1..], pat, rep)
  {
  }

  /** A head in which no occurrence of `pat` starts is copied unchanged. */
  lemma {:induction false} ReplaceAllSkip(a: string, t: string, pat: string, rep: string)
    requires |pat| > 0
    requires forall i: nat :: i < |a| ==> !OccursAt(a + t, pat, i)
    ensures ReplaceAll(a + t, pat, rep) == a + ReplaceAll(t, pat, rep)
    decreases |a|
  {
    if |a| == 0 {
      assert a + t == t;
    } else {
      var s := a + t;
      assert !OccursAt(s, pat, 0);
      ReplaceAllStep(s, pat, rep);
      assert s[1..] == a[1..] + t;
      forall i: nat | i < |a| - 1 ensures !OccursAt(a[1..] + t, pat, i) {
        OccursAtSuffix(s, pat, 1, i);
      }
      ReplaceAllSkip(a[1..], t, pat, rep);
      assert [a[0]] + (a[1..] + ReplaceAll(t, pat, rep)) == a + ReplaceAll(t, pat, rep);
    }
  }

  /** An occurrence at the very start is replaced and the scan resumes after it. */
  lemma ReplaceAllHead(pat: string, t: string, rep: string)
    requires |pat| > 0
    ensures ReplaceAll(pat + t, pat, rep) == rep + ReplaceAll(t, pat, rep)
  {
    assert (pat + t)[..|pat|] == pat;
    assert (pat + t)[|pat|..] == t;
  }

  /**
   * No occurrence of `pat` can start inside `a` when `a` ends in a
   * character `pat` lacks and `pat` holds a character `a` lacks.
   */
  lemma NoOccurrenceInHead(a: string, t: string, pat: string, c: char)
    requires |a| > 0 && a[|a| - 1] !in pat
    requires c in pat && c !in a
    ensures forall i: nat :: i < |a| ==> !OccursAt(a + t, pat, i)
  {
    forall i: nat | i < |a| ensures !OccursAt(a + t, pat, i) {
      if i + |pat| <= |a| {
        assert (a + t)[i..i + |pat|] == a[i..i + |pat|];
        assert c !in a[i..i + |pat|];
      } else if i + |pat| <= |a + t| {
        assert (a + t)[i..i + |pat|][|a| - 1 - i] == a[|a| - 1];
      }
    }
  }

  /** A pattern with a character the string lacks does not occur in it. */
  lemma AbsentChar(s: string, pat: string, c: char)
    requires c in pat && c !in s
    ensures forall i: nat :: !OccursAt(s, pat, i)
  {
    forall i: nat ensures !OccursAt(s, pat, i) {
      if i + |pat| <= |s| {
        assert c !in s[i..i + |pat|];
      }
    }
  }

  /**
   * Replacing one character by another, as `replaceAll(":", "_")` does,
   * keeps the length and changes exactly the positions that held it.
   */
  lemma {:induction false} ReplaceCharwise(s: string, a: char, b: char)
    ensures |ReplaceAll(s, [a], [b])| == |s|
    ensures forall k :: 0 <= k < |s| ==>
      ReplaceAll(s, [a], [b])[k] == if s[k] == a then b else s[k]
    decreases |s|
  {
    if |s| > 0 {
      ReplaceCharwise(s[1..], a, b);
      var r := ReplaceAll(s, [a], [b]);
      var rest := ReplaceAll(s[1..], [a], [b]);
      assert s[..1] == [s[0]];
      assert r == [if s[0] == a then b else s[0]] + rest;
      forall k | 1 <= k < |s| ensures r[k] == if s[k] == a then b else s[k] {
        assert r[k] == rest[k - 1];
        assert s[1..][k - 1] == s[k];
      }
    }
  }

  /**
   * After replacing every `c` by a text free of `c`, the character is gone.
   */
  lemma {:induction false} ReplaceAllRemovesChar(s: string, c: char, rep: string)
    requires c !in rep
    ensures c !in ReplaceAll(s, [c], rep)
    decreases |s|
  {
    if |s| > 0 {
      ReplaceAllRemovesChar(s[1..], c, rep);
      assert s[..1] == [s[0]];
    }
  }

  /** The result holds only characters of the input and of the replacement. */
  lemma {:induction false} ReplaceAllChars(s: string, pat: string, rep: string, c: char)
    requires c !in s && c !in rep
    ensures c !in ReplaceAll(s, pat, rep)
    decreases |s|
  {
    if |s| > 0 {
      assert c !in s[1..] && c != s[0];
      ReplaceAllChars(s[1..], pat, rep, c);
      if |pat| > 0 && |s| >= |pat| {
        assert c !in s[|pat|..];
        ReplaceAllChars(s[|pat|..], pat, rep, c);
      }
    }
  }
}
