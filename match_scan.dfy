/**
 * A global regular-expression scan (`String.prototype.match` with the `g`
 * flag), read off a match table: for every position of a text and the one
 * past its end, the length of the match anchored there, if any. The scan
 * takes the leftmost match, then scans the rest of the text after it, so
 * matches never overlap and a text without matches yields no list entries.
 */
module MatchScan {
  import opened Wrappers

  /** A match table: every match is non-empty and ends within the table. */
  predicate Proper(t: seq<Option<nat>>) {
    forall x :: 0 <= x < |t| && t[x].Some? ==> 0 < t[x].value && x + t[x].value < |t|
  }

  /** The table whose entry `x` is `f(i + x)`, for positions `i` up to `n`. */
  function Tabulate(f: nat -> Option<nat>, i: nat, n: nat): (t: seq<Option<nat>>)
    requires i <= n
    ensures |t| == n - i
    decreases n - i
  {
    if i == n then [] else [f(i)] + Tabulate(f, i + 1, n)
  }

  /** Entry `x` of the table from `i` is `f(i + x)`. */
  lemma {:induction false} TabulateAt(f: nat -> Option<nat>, i: nat, n: nat, x: nat)
    requires i + x < n
    ensures Tabulate(f, i, n)[x] == f(i + x)
    decreases x
  {
    if x > 0 {
      TabulateAt(f, i + 1, n, x - 1);
    }
  }

  /** Leftmost position at or after `i` where the table holds a match. */
  function FirstIn(t: seq<Option<nat>>, i: nat): (r: Option<nat>)
    requires i < |t|
    ensures r.Some? ==> i <= r.value < |t| && t[r.value].Some?
    ensures forall q :: i <= q < |t| && (r.None? || q < r.value) ==> t[q].None?
    decreases |t| - i
  {
    if t[i].Some? then Some(i)
    else if i + 1 == |t| then None
    else FirstIn(t, i + 1)
  }

  /** The next match from `q` is at `p` when `p` matches and nothing between does. */
  lemma {:induction false} FirstInIs(t: seq<Option<nat>>, q: nat, p: nat)
    requires q <= p < |t| && t[p].Some?
    requires forall x :: q <= x < p ==> t[x].None?
    ensures FirstIn(t, q) == Some(p)
  {
  }

  /** The table of a suffix of a text is its table's suffix, and stays proper. */
  lemma {:induction false} ProperRest(t: seq<Option<nat>>, e: nat)
    requires Proper(t) && e < |t|
    ensures Proper(t[e..])
  {
    forall x | 0 <= x < |t[e..]| && t[e..][x].Some? ensures 0 < t[e..][x].value && x + t[e..][x].value < |t[e..]| {
      assert t[e..][x] == t[e + x];
    }
  }

  /**
   * The texts of the global scan of `s` under its table `t`. The guard on
   * the match always holds for a proper table (`ScanStep`); it only makes
   * the scan total.
   */
  function Scan(s: string, t: seq<Option<nat>>): (ms: seq<string>)
    requires |t| == |s| + 1
    decreases |s|
  {
    match FirstIn(t, 0)
    case None => []
    case Some(p) =>
      var e := p + t[p].value;
      if p < e < |t| then [s[p..e]] + Scan(s[e..], t[e..]) else []
  }

  /** The scan is empty exactly when the table holds no match. */
  lemma ScanEmpty(s: string, t: seq<Option<nat>>)
    requires |t| == |s| + 1 && Proper(t)
    ensures Scan(s, t) == [] <==> forall q :: 0 <= q < |t| ==> t[q].None?
  {
  }

  /** What holds of every match of a text holds of every match of its suffixes. */
  lemma {:induction false} MatchesOfRest(s: string, t: seq<Option<nat>>, e: nat, P: string -> bool)
    requires |t| == |s| + 1 && Proper(t) && e < |t|
    requires forall x :: 0 <= x < |t| && t[x].Some? ==> P(s[x..x + t[x].value])
    ensures forall x :: 0 <= x < |t[e..]| && t[e..][x].Some? ==> P(s[e..][x..x + t[e..][x].value])
  {
    forall x | 0 <= x < |t[e..]| && t[e..][x].Some? ensures P(s[e..][x..x + t[e..][x].value]) {
      assert t[e..][x] == t[e + x];
      InRest(s, e, x, x + t[e + x].value);
    }
  }

  /** Every text the scan yields is one the table matches, so it has every property all matches share. */
  lemma {:induction false} ScanTextsAreMatches(s: string, t: seq<Option<nat>>, P: string -> bool)
    requires |t| == |s| + 1 && Proper(t)
    requires forall x :: 0 <= x < |t| && t[x].Some? ==> P(s[x..x + t[x].value])
    ensures forall m :: m in Scan(s, t) ==> P(m)
    decreases |s|
  {
    if FirstIn(t, 0).Some? {
      var p := FirstIn(t, 0).value;
      var e := p + t[p].value;
      ScanStep(s, t, p, e);
      MatchesOfRest(s, t, e, P);
      ScanTextsAreMatches(s[e..], t[e..], P);
    }
  }

  /** Two proper tables, one after the other, form a proper table. */
  lemma {:induction false} JoinedProper(ta: seq<Option<nat>>, tb: seq<Option<nat>>)
    requires Proper(ta) && Proper(tb)
    ensures Proper(ta + tb)
  {
    var t := ta + tb;
    forall x | 0 <= x < |t| && t[x].Some? ensures 0 < t[x].value && x + t[x].value < |t| {
      if x >= |ta| {
        assert t[x] == tb[x - |ta|];
      }
    }
  }

  /** One step of the scan: the leftmost match is the one from `p` to `e`. */
  lemma {:induction false} ScanStep(s: string, t: seq<Option<nat>>, p: nat, e: nat)
    requires |t| == |s| + 1 && Proper(t) && FirstIn(t, 0) == Some(p) && e == p + t[p].value
    ensures e < |t| && Proper(t[e..])
    ensures Scan(s, t) == [s[p..e]] + Scan(s[e..], t[e..])
  {
    ProperRest(t, e);
  }

  /** Lists that start with equal texts and go on equally are equal. */
  lemma {:induction false} SameSteps(x: string, y: string, u: seq<string>, v: seq<string>, l: seq<string>, r: seq<string>)
    requires l == [x] + u && r == [y] + v && x == y && u == v
    ensures l == r
  {
  }

  /** Positions, slices and suffixes of a suffix, read in the whole. */
  lemma {:induction false} InRest<T>(u: seq<T>, k: nat, p: nat, e: nat)
    requires k + p <= k + e <= |u|
    ensures u[k + p..k + e] == u[k..][p..e] && u[k + e..] == u[k..][e..]
    ensures forall x :: k <= x < |u| ==> u[x] == u[k..][x - k]
  {
  }

  /** Skipping `k` positions without matches, when the rest holds one at `p`. */
  lemma {:induction false} ScanSkipTo(s: string, t: seq<Option<nat>>, k: nat, p: nat)
    requires |t| == |s| + 1 && Proper(t) && k < |t| && Proper(t[k..])
    requires forall x :: 0 <= x < k ==> t[x].None?
    requires FirstIn(t[k..], 0) == Some(p)
    ensures Scan(s, t) == Scan(s[k..], t[k..])
  {
    var s', t' := s[k..], t[k..];
    var e := p + t'[p].value;
    InRest(t, k, p, e);
    InRest(s, k, p, e);
    FirstInIs(t, 0, k + p);
    ScanStep(s, t, k + p, k + e);
    ScanStep(s', t', p, e);
    SameSteps(s[k + p..k + e], s'[p..e], Scan(s[k + e..], t[k + e..]), Scan(s'[e..], t'[e..]), Scan(s, t), Scan(s', t'));
  }

  /** Positions without matches before `k` do not change the scan. */
  lemma {:induction false} ScanSkip(s: string, t: seq<Option<nat>>, k: nat)
    requires |t| == |s| + 1 && Proper(t) && k < |t|
    requires forall x :: 0 <= x < k ==> t[x].None?
    ensures Proper(t[k..])
    ensures Scan(s, t) == Scan(s[k..], t[k..])
  {
    ProperRest(t, k);
    var s', t' := s[k..], t[k..];
    if FirstIn(t', 0).None? {
      forall q | 0 <= q < |t| ensures t[q].None? {
        if q >= k { assert t[q] == t'[q - k]; }
      }
      ScanEmpty(s, t);
      ScanEmpty(s', t');
    } else {
      ScanSkipTo(s, t, k, FirstIn(t', 0).value);
    }
  }

  /** Joined texts where the first holds no match scan as the second. */
  lemma {:induction false} ScanJoinedNone(a: string, c: char, b: string, ta: seq<Option<nat>>, tb: seq<Option<nat>>)
    requires |ta| == |a| + 1 && |tb| == |b| + 1 && Proper(ta) && Proper(tb) && Proper(ta + tb)
    requires FirstIn(ta, 0).None?
    ensures Scan(a + [c] + b, ta + tb) == Scan(b, tb)
  {
    var s, t := a + [c] + b, ta + tb;
    forall x | 0 <= x < |ta| ensures t[x].None? {
      assert t[x] == ta[x];
    }
    ScanSkip(s, t, |ta|);
    assert s[|ta|..] == b;
    assert t[|ta|..] == tb;
  }

  /** Positions, slices and suffixes of a prefix, read in the whole. */
  lemma {:induction false} InFront<T>(u: seq<T>, v: seq<T>, p: nat, e: nat)
    requires p <= e <= |u|
    ensures (u + v)[p..e] == u[p..e] && (u + v)[e..] == u[e..] + v
    ensures forall x :: 0 <= x < |u| ==> (u + v)[x] == u[x]
  {
  }

  /** Lists that start with equal texts, one going on with a list and the other with that list and more. */
  lemma {:induction false} SameStepsThen(x: string, y: string, u: seq<string>, v: seq<string>, w: seq<string>, l: seq<string>, r: seq<string>)
    requires l == [x] + u && r == [y] + v && x == y && u == v + w
    ensures l == r + w
  {
  }

  /**
   * Two texts joined by a character where nothing matches: the scan of the
   * whole is the scan of the first text, then that of the second, when the
   * table of the whole is the table of the first followed by that of the
   * second.
   */
  lemma {:induction false} ScanJoined(a: string, c: char, b: string, ta: seq<Option<nat>>, tb: seq<Option<nat>>)
    requires |ta| == |a| + 1 && |tb| == |b| + 1 && Proper(ta) && Proper(tb) && ta[|a|].None?
    ensures Proper(ta + tb)
    ensures Scan(a + [c] + b, ta + tb) == Scan(a, ta) + Scan(b, tb)
    decreases |a|
  {
    var s, t := a + [c] + b, ta + tb;
    JoinedProper(ta, tb);
    if FirstIn(ta, 0).None? {
      ScanJoinedNone(a, c, b, ta, tb);
    } else {
      var p := FirstIn(ta, 0).value;
      var e := p + ta[p].value;
      assert s == a + ([c] + b);
      InFront(a, [c] + b, p, e);
      InFront(ta, tb, p, e);
      FirstInIs(t, 0, p);
      ProperRest(ta, e);
      ScanStep(s, t, p, e);
      ScanStep(a, ta, p, e);
      assert a[e..] + ([c] + b) == a[e..] + [c] + b;
      ScanJoined(a[e..], c, b, ta[e..], tb);
      SameStepsThen(s[p..e], a[p..e], Scan(s[e..], t[e..]), Scan(a[e..], ta[e..]), Scan(b, tb), Scan(s, t), Scan(a, ta));
    }
  }
}
