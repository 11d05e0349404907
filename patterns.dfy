/**
 * The three regular expressions of the extension, matched exactly as a
 * JavaScript engine does:
 *   - `/[A-z]+-[0-9]+/`              the remote issue key in the tab's address;
 *   - `/ITOPTI-[0-9]+/`              the service worker's gate;
 *   - `/\[~accountid:([0-9A-z:\-]+)]/` a user mention in a comment body.
 * The range `A-z` runs from code point 65 to 122, so besides the letters it
 * also takes in `[`, `\`, `]`, `^`, `_` and the backtick.
 */
module Patterns {
  import opened Wrappers
  import opened MatchScan

  /** `[A-z]` */
  predicate IsLetter(c: char) { 'A' <= c <= 'z' }

  /** `[0-9]` */
  predicate IsDigit(c: char) { '0' <= c <= '9' }

  /** `[0-9A-z:\-]`, the characters of a mentioned account id. */
  predicate IsIdChar(c: char) { IsDigit(c) || IsLetter(c) || c == ':' || c == '-' }

  /** End of the longest run of characters satisfying `p` that starts at `i`: what a greedy `p+` consumes. */
  function RunEnd(s: string, i: nat, p: char -> bool): (j: nat)
    requires i <= |s|
    ensures i <= j <= |s|
    decreases |s| - i
  {
    if i < |s| && p(s[i]) then RunEnd(s, i + 1, p) else i
  }

  /** The run is all `p` characters, and the character after it, if any, is not. */
  lemma {:induction false} RunEndSpec(s: string, i: nat, p: char -> bool)
    requires i <= |s|
    ensures forall k :: i <= k < RunEnd(s, i, p) ==> p(s[k])
    ensures RunEnd(s, i, p) == |s| || !p(s[RunEnd(s, i, p)])
    decreases |s| - i
  {
    if i < |s| && p(s[i]) {
      RunEndSpec(s, i + 1, p);
    }
  }

  /** Start of the longest run of characters satisfying `p` that ends just before `j`. */
  function RunStart(s: string, j: nat, p: char -> bool): (i: nat)
    requires j <= |s|
    ensures i <= j
    ensures forall k :: i <= k < j ==> p(s[k])
    ensures i == 0 || !p(s[i - 1])
    decreases j
  {
    if j > 0 && p(s[j - 1]) then RunStart(s, j - 1, p) else j
  }

  /** A maximal run is determined by where it starts. */
  lemma {:induction false} RunEndIs(s: string, i: nat, j: nat, p: char -> bool)
    requires i <= j <= |s|
    requires forall k :: i <= k < j ==> p(s[k])
    requires j == |s| || !p(s[j])
    ensures RunEnd(s, i, p) == j
    decreases j - i
  {
    if i < j {
      RunEndIs(s, i + 1, j, p);
    }
  }

  // ---------------------------------------------------------------------
  // The remote issue key, `/[A-z]+-[0-9]+/`

  /** `k` is a key: `[A-z]` characters, a hyphen at `d`, then digits. */
  predicate DashAt(k: string, d: nat) {
    && 0 < d && d + 1 < |k| && k[d] == '-'
    && (forall x :: 0 <= x < d ==> IsLetter(k[x]))
    && (forall x :: d < x < |k| ==> IsDigit(k[x]))
  }

  predicate KeyShaped(k: string) {
    exists d :: 0 < d < |k| && DashAt(k, d)
  }

  /**
   * End of the match of `/[A-z]+-[0-9]+/` anchored at `i`, if any. The
   * greedy `[A-z]+` never has to give characters back: a hyphen is not in
   * `[A-z]`, so only the full run can be followed by one.
   */
  function KeyMatchAt(s: string, i: nat): (r: Option<nat>)
    requires i <= |s|
    ensures r.Some? ==> i < r.value <= |s| && KeyShaped(s[i..r.value])
  {
    var j := RunEnd(s, i, IsLetter);
    if i < j && j + 1 < |s| && s[j] == '-' && IsDigit(s[j + 1]) then
      var e := RunEnd(s, j + 1, IsDigit);
      RunEndSpec(s, i, IsLetter);
      RunEndSpec(s, j + 1, IsDigit);
      assert DashAt(s[i..e], j - i);
      Some(e)
    else None
  }

  /** Leftmost position at or after `i` where the key pattern matches. */
  function FirstKeyAt(s: string, i: nat): (r: Option<nat>)
    requires i <= |s|
    ensures r.Some? ==> i <= r.value <= |s| && KeyMatchAt(s, r.value).Some?
    ensures forall q :: i <= q <= |s| && (r.None? || q < r.value) ==> KeyMatchAt(s, q).None?
    decreases |s| - i
  {
    if KeyMatchAt(s, i).Some? then Some(i)
    else if i == |s| then None
    else FirstKeyAt(s, i + 1)
  }

  /** `href.match(/[A-z]+-[0-9]+/)`: the first key in the address, or null. */
  function RemoteKey(href: string): (key: Option<string>)
    ensures key.Some? ==> KeyShaped(key.value)
  {
    match FirstKeyAt(href, 0)
    case None => None
    case Some(p) => Some(href[p..KeyMatchAt(href, p).value])
  }

  /** An `[A-z]` character, a hyphen at `j`, then a digit. */
  predicate LetterDashDigit(s: string, j: nat) {
    0 < j && j + 1 < |s| && IsLetter(s[j - 1]) && s[j] == '-' && IsDigit(s[j + 1])
  }

  /** The address holds some substring of `[A-z]` characters, a hyphen and digits. */
  predicate HasKeyPattern(s: string) {
    exists j :: 0 < j < |s| && LetterDashDigit(s, j)
  }

  /** The key built around the hyphen at `j`: the `[A-z]` run before it, the digits after it. */
  function KeyAround(s: string, j: nat): string
    requires LetterDashDigit(s, j)
  {
    s[RunStart(s, j, IsLetter)..RunEnd(s, j + 1, IsDigit)]
  }

  /** A letter-hyphen-digit triple always yields a match starting at the run before the hyphen. */
  lemma KeyMatchAround(s: string, j: nat)
    requires LetterDashDigit(s, j)
    ensures KeyMatchAt(s, RunStart(s, j, IsLetter)) == Some(RunEnd(s, j + 1, IsDigit))
  {
    var i := RunStart(s, j, IsLetter);
    RunEndIs(s, i, j, IsLetter);
    RunEndSpec(s, j + 1, IsDigit);
  }

  /** A match that starts at `q` has its hyphen at a letter-hyphen-digit triple. */
  lemma KeyMatchHasTriple(s: string, q: nat)
    requires q <= |s|
    ensures KeyMatchAt(s, q).Some? ==> LetterDashDigit(s, RunEnd(s, q, IsLetter))
  {
    RunEndSpec(s, q, IsLetter);
  }

  /** The address yields a key exactly when it holds a letter-hyphen-digit triple. */
  lemma RemoteKeyExists(href: string)
    ensures RemoteKey(href).None? <==> !HasKeyPattern(href)
  {
    if HasKeyPattern(href) {
      var j :| 0 < j < |href| && LetterDashDigit(href, j);
      KeyMatchAround(href, j);
    } else {
      forall q | 0 <= q <= |href| ensures KeyMatchAt(href, q).None? {
        KeyMatchHasTriple(href, q);
      }
    }
  }

  /**
   * The key the panel extracts is determined by the first hyphen that has
   * an `[A-z]` character before it and a digit after it: it is the whole
   * `[A-z]` run before that hyphen and the whole digit run after it.
   */
  lemma RemoteKeyIsFirst(href: string, j: nat)
    requires LetterDashDigit(href, j)
    requires forall j': nat :: j' < j ==> !LetterDashDigit(href, j')
    ensures RemoteKey(href) == Some(KeyAround(href, j))
  {
    var p0 := RunStart(href, j, IsLetter);
    KeyMatchAround(href, j);
    forall q | 0 <= q < p0 ensures KeyMatchAt(href, q).None? {
      var jq := RunEnd(href, q, IsLetter);
      RunEndSpec(href, q, IsLetter);
      assert !IsLetter(href[p0 - 1]);
      assert jq < p0;
      KeyMatchHasTriple(href, q);
    }
    assert FirstKeyAt(href, 0) == Some(p0);
  }

  // ---------------------------------------------------------------------
  // The service worker's gate, `/ITOPTI-[0-9]+/`

  /** `ITOPTI-` followed by a digit starts at `i`. */
  predicate TicketAt(s: string, i: nat) {
    i + 8 <= |s| && s[i..i + 7] == "ITOPTI-" && IsDigit(s[i + 7])
  }

  /** `s.match(/ITOPTI-[0-9]+/) != null`, searching from `i` onwards. */
  function HasTicketFrom(s: string, i: nat): (b: bool)
    requires i <= |s|
    ensures b <==> exists q :: i <= q <= |s| && TicketAt(s, q)
    decreases |s| - i
  {
    if TicketAt(s, i) then true
    else if i == |s| then false
    else HasTicketFrom(s, i + 1)
  }

  function MatchesTicket(href: string): bool {
    HasTicketFrom(href, 0)
  }

  /**
   * Whatever passes the service worker's gate also yields a key in the
   * panel: the `I` before the hyphen of `ITOPTI-` is an `[A-z]` character.
   */
  lemma TicketYieldsKey(href: string)
    requires MatchesTicket(href)
    ensures RemoteKey(href).Some?
  {
    var q :| 0 <= q <= |href| && TicketAt(href, q);
    assert href[q + 5] == href[q..q + 7][5] == 'I';
    assert href[q + 6] == href[q..q + 7][6] == '-';
    assert LetterDashDigit(href, q + 6);
    RemoteKeyExists(href);
  }

  /** A ticket page address whose path holds a key before the ticket. */
  const SampleLink: string := "https://support.hlag.com/AB-1/ITOPTI-2"

  /**
   * The key need not be the `ITOPTI` one: an earlier key-shaped substring
   * wins.
   */
  lemma EarlierKeyWins()
    ensures MatchesTicket(SampleLink)
    ensures RemoteKey(SampleLink) == Some("AB-1")
  {
    SampleHasTicket();
    SampleKey();
    RemoteKeyIsFirst(SampleLink, 27);
  }

  /** In the sample link, the first triple sits at the hyphen of `AB-1`. */
  lemma SampleKey()
    ensures LetterDashDigit(SampleLink, 27)
    ensures forall j: nat :: j < 27 ==> !LetterDashDigit(SampleLink, j)
    ensures KeyAround(SampleLink, 27) == "AB-1"
  {
    var s := SampleLink;
    SampleNoDashBefore();
    SampleKeyStart();
    assert LetterDashDigit(s, 27);
    RunEndIs(s, 28, 29, IsDigit);
    assert s[25..29] == "AB-1";
  }

  /** No hyphen comes before the one of `AB-1`. */
  lemma SampleNoDashBefore()
    ensures forall j: nat :: j < 27 ==> SampleLink[j] != '-'
  {
    var s := SampleLink;
    forall j: nat | j < 27 ensures s[j] != '-' {
      assert s[..27] == "https://support.hlag.com/AB";
      assert s[j] == s[..27][j];
    }
  }

  /** The `[A-z]` run before that hyphen starts after the `/` of the path. */
  lemma SampleKeyStart()
    ensures RunStart(SampleLink, 27, IsLetter) == 25
  {
    var s := SampleLink;
    assert s[24] == '/' && IsLetter(s[25]) && IsLetter(s[26]);
    assert RunStart(s, 25, IsLetter) == 25;
  }

  /** The sample link of `EarlierKeyWins` names a ticket. */
  lemma SampleHasTicket()
    ensures MatchesTicket(SampleLink)
  {
    var s := SampleLink;
    assert s[30..37] == "ITOPTI-";
    assert TicketAt(s, 30);
  }

  // ---------------------------------------------------------------------
  // User mentions, `/\[~accountid:([0-9A-z:\-]+)]/`

  const MentionPrefix: string := "[~accountid:"

  /** The mention text for an account id, as the panel writes it back for a pending author. */
  function Token(id: string): string {
    MentionPrefix + id + "]"
  }

  /** A well-formed account id: one or more `[0-9A-z:\-]` characters. */
  predicate IsId(id: string) {
    |id| > 0 && forall k :: 0 <= k < |id| ==> IsIdChar(id[k])
  }

  /** A string the mention pattern matches as a whole. */
  predicate IsToken(m: string) {
    && |m| >= |MentionPrefix| + 2
    && m[..|MentionPrefix|] == MentionPrefix
    && m[|m| - 1] == ']'
    && forall k :: |MentionPrefix| <= k < |m| ==> IsIdChar(m[k])
  }

  /** The account id a whole-token match captures. */
  function TokenId(m: string): string
    requires IsToken(m)
  {
    m[|MentionPrefix|..|m| - 1]
  }

  /** Highest index in `[lo, hi)` holding `]`, where backtracking stops. */
  function LastClose(s: string, lo: nat, hi: nat): (r: Option<nat>)
    requires hi <= |s|
    ensures r.Some? ==> lo <= r.value < hi && s[r.value] == ']'
    decreases hi
  {
    if hi <= lo then None
    else if s[hi - 1] == ']' then Some(hi - 1)
    else LastClose(s, lo, hi - 1)
  }

  /** No `]` lies after the last one, nor anywhere in the range when there is none. */
  lemma {:induction false} LastCloseSpec(s: string, lo: nat, hi: nat)
    requires hi <= |s|
    ensures LastClose(s, lo, hi).Some? ==> forall k :: LastClose(s, lo, hi).value < k < hi ==> s[k] != ']'
    ensures LastClose(s, lo, hi).None? ==> forall k :: lo <= k < hi ==> s[k] != ']'
    decreases hi
  {
    if lo < hi && s[hi - 1] != ']' {
      LastCloseSpec(s, lo, hi - 1);
    }
  }

  /**
   * Where a token can start and end: after the prefix, inside the run of
   * id characters, on a `]`.
   */
  lemma TokensWithinRun(s: string, i: nat)
    requires i <= |s|
    ensures forall e :: i <= e <= |s| && IsToken(s[i..e]) ==>
      && i + |MentionPrefix| + 2 <= e
      && s[i..i + |MentionPrefix|] == MentionPrefix
      && e <= RunEnd(s, i + |MentionPrefix|, IsIdChar)
      && s[e - 1] == ']'
  {
    forall e | i <= e <= |s| && IsToken(s[i..e])
      ensures s[i..i + |MentionPrefix|] == MentionPrefix
      ensures e <= RunEnd(s, i + |MentionPrefix|, IsIdChar) && s[e - 1] == ']'
    {
      var m := s[i..e];
      RunEndSpec(s, i + |MentionPrefix|, IsIdChar);
      assert s[i..i + |MentionPrefix|] == m[..|MentionPrefix|];
      assert s[e - 1] == m[|m| - 1];
    }
  }

  /**
   * End of the mention match anchored at `i`, if any: the longest token
   * starting there. `]` is itself in the id class, so the greedy group
   * first eats the whole run of id characters and then backtracks to the
   * last `]` in that run: the capture runs up to that last `]`, not the first.
   */
  function MentionMatchAt(s: string, i: nat): (r: Option<nat>)
    requires i <= |s|
    ensures r.Some? ==> i + |MentionPrefix| + 2 <= r.value <= |s|
  {
    if i + |MentionPrefix| <= |s| && s[i..i + |MentionPrefix|] == MentionPrefix then
      var j := RunEnd(s, i + |MentionPrefix|, IsIdChar);
      match LastClose(s, i + |MentionPrefix| + 1, j)
      case None => None
      case Some(k) => Some(k + 1)
    else None
  }

  /** What the mention match at `i` spans is a whole token. */
  lemma MatchIsToken(s: string, i: nat)
    requires i <= |s|
    ensures MentionMatchAt(s, i).Some? ==> IsToken(s[i..MentionMatchAt(s, i).value])
  {
    if MentionMatchAt(s, i).Some? {
      var e := MentionMatchAt(s, i).value;
      RunEndSpec(s, i + |MentionPrefix|, IsIdChar);
      assert s[i..e][..|MentionPrefix|] == MentionPrefix;
    }
  }

  /**
   * The match at `i` is the longest token starting there, and there is no
   * match exactly when no token starts there.
   */
  lemma MentionMatchIsLongest(s: string, i: nat)
    requires i <= |s|
    ensures MentionMatchAt(s, i).Some? ==> forall e :: MentionMatchAt(s, i).value < e <= |s| ==> !IsToken(s[i..e])
    ensures MentionMatchAt(s, i).None? ==> forall e :: i <= e <= |s| ==> !IsToken(s[i..e])
  {
    TokensWithinRun(s, i);
    if i + |MentionPrefix| <= |s| {
      LastCloseSpec(s, i + |MentionPrefix| + 1, RunEnd(s, i + |MentionPrefix|, IsIdChar));
    }
  }

  /** The longest token starting at `i` is the match there. */
  lemma MatchIsLongestToken(s: string, i: nat, e: nat)
    requires i <= e <= |s| && IsToken(s[i..e])
    requires forall e' :: e < e' <= |s| ==> !IsToken(s[i..e'])
    ensures MentionMatchAt(s, i) == Some(e)
  {
    MentionMatchIsLongest(s, i);
    MatchIsToken(s, i);
  }

  /**
   * A token placed in a text where no id character follows it is matched
   * exactly, whatever `]` characters its id holds.
   */
  lemma MentionMatchOfToken(s: string, i: nat, m: string)
    requires IsToken(m) && i + |m| <= |s| && s[i..i + |m|] == m
    requires i + |m| == |s| || !IsIdChar(s[i + |m|])
    ensures MentionMatchAt(s, i) == Some(i + |m|)
  {
    assert s[i..i + |MentionPrefix|] == m[..|MentionPrefix|];
    forall k | i + |MentionPrefix| <= k < i + |m| ensures IsIdChar(s[k]) {
      assert s[k] == m[k - i];
    }
    RunEndIs(s, i + |MentionPrefix|, i + |m|, IsIdChar);
    assert s[i + |m| - 1] == m[|m| - 1];
    LastCloseSpec(s, i + |MentionPrefix| + 1, i + |m|);
  }

  /** Before a character outside the run, a run ends where it ends in the text on its own. */
  lemma {:induction false} RunEndBeforeSpace(s: string, a: string, i: nat, p: char -> bool)
    requires |a| < |s| && s[..|a|] == a && !p(s[|a|]) && i <= |a|
    ensures RunEnd(s, i, p) == RunEnd(a, i, p)
    decreases |a| - i
  {
    if i < |a| {
      assert s[i] == a[i];
      RunEndBeforeSpace(s, a, i + 1, p);
    }
  }

  /** Within a prefix, the last `]` is the same. */
  lemma {:induction false} LastCloseBefore(s: string, a: string, lo: nat, hi: nat)
    requires |a| <= |s| && s[..|a|] == a && hi <= |a|
    ensures LastClose(s, lo, hi) == LastClose(a, lo, hi)
    decreases hi
  {
    if lo < hi {
      assert s[hi - 1] == a[hi - 1];
      LastCloseBefore(s, a, lo, hi - 1);
    }
  }

  /** A run in a text placed at `k` ends where it ends on its own, shifted by `k`. */
  lemma {:induction false} RunEndAfter(s: string, k: nat, b: string, i: nat, p: char -> bool)
    requires k <= |s| && s[k..] == b && i <= |b|
    ensures RunEnd(s, k + i, p) == k + RunEnd(b, i, p)
    decreases |b| - i
  {
    if i < |b| {
      assert s[k + i] == b[i];
      RunEndAfter(s, k, b, i + 1, p);
    }
  }

  /** The last `]` in a text placed at `k` is the one it has on its own, shifted by `k`. */
  lemma {:induction false} LastCloseAfter(s: string, k: nat, b: string, lo: nat, hi: nat)
    requires k <= |s| && s[k..] == b && hi <= |b|
    ensures LastClose(s, k + lo, k + hi).Some? == LastClose(b, lo, hi).Some?
    ensures LastClose(b, lo, hi).Some? ==> LastClose(s, k + lo, k + hi).value == k + LastClose(b, lo, hi).value
    decreases hi
  {
    if lo < hi {
      assert s[k + hi - 1] == b[hi - 1];
      LastCloseAfter(s, k, b, lo, hi - 1);
    }
  }

  /** Slices within a prefix are the prefix's slices. */
  lemma SliceOfPrefix(s: string, a: string, x: nat, y: nat)
    requires |a| <= |s| && s[..|a|] == a && x <= y <= |a|
    ensures s[x..y] == a[x..y]
  {
    forall k | x <= k < y ensures s[k] == a[k] {
      assert s[k] == s[..|a|][k];
    }
  }

  /** Slices within a suffix are the suffix's slices, shifted. */
  lemma SliceOfSuffix(s: string, k: nat, b: string, x: nat, y: nat)
    requires k <= |s| && s[k..] == b && x <= y <= |b|
    ensures s[k + x..k + y] == b[x..y]
  {
    forall j | x <= j < y ensures s[k + j] == b[j] {
      assert s[k + j] == s[k..][j];
    }
  }

  /** No token runs across a space: before one, a text matches as it would on its own. */
  lemma MatchBeforeSpace(s: string, a: string, q: nat)
    requires |a| < |s| && s[..|a|] == a && s[|a|] == ' ' && q <= |a|
    ensures MentionMatchAt(s, q) == MentionMatchAt(a, q)
  {
    var n := |MentionPrefix|;
    if q + n <= |a| {
      SliceOfPrefix(s, a, q, q + n);
      RunEndBeforeSpace(s, a, q + n, IsIdChar);
      LastCloseBefore(s, a, q + n + 1, RunEnd(a, q + n, IsIdChar));
    } else if q + n <= |s| {
      assert ' ' !in MentionPrefix;
      assert s[q..q + n][|a| - q] == ' ';
    }
  }

  /** Where the prefix fits, a text placed at `k` has a match where it has one on its own. */
  lemma MatchAfterFound(s: string, k: nat, b: string, q: nat)
    requires k <= |s| && s[k..] == b && q + |MentionPrefix| <= |b|
    ensures MentionMatchAt(s, k + q).Some? <==> MentionMatchAt(b, q).Some?
  {
    var n := |MentionPrefix|;
    SliceOfSuffix(s, k, b, q, q + n);
    if b[q..q + n] == MentionPrefix {
      RunEndAfter(s, k, b, q + n, IsIdChar);
      LastCloseAfter(s, k, b, q + n + 1, RunEnd(b, q + n, IsIdChar));
    }
  }

  /** Where the prefix fits, a match of a text placed at `k` ends where it ends on its own, shifted by `k`. */
  lemma MatchAfterEnd(s: string, k: nat, b: string, q: nat)
    requires k <= |s| && s[k..] == b && q + |MentionPrefix| <= |b|
    requires MentionMatchAt(b, q).Some?
    ensures MentionMatchAt(s, k + q).Some? && MentionMatchAt(s, k + q).value == k + MentionMatchAt(b, q).value
  {
    var n := |MentionPrefix|;
    SliceOfSuffix(s, k, b, q, q + n);
    RunEndAfter(s, k, b, q + n, IsIdChar);
    LastCloseAfter(s, k, b, q + n + 1, RunEnd(b, q + n, IsIdChar));
  }

  /** A text placed at `k` matches as it would on its own, shifted by `k`. */
  lemma MatchAfter(s: string, k: nat, b: string, q: nat)
    requires k <= |s| && s[k..] == b && q <= |b|
    ensures MentionMatchAt(s, k + q).Some? <==> MentionMatchAt(b, q).Some?
    ensures MentionMatchAt(b, q).Some? ==> MentionMatchAt(s, k + q).value == k + MentionMatchAt(b, q).value
  {
    if q + |MentionPrefix| <= |b| {
      MatchAfterFound(s, k, b, q);
      if MentionMatchAt(b, q).Some? {
        MatchAfterEnd(s, k, b, q);
      }
    }
  }

  /** Length of the mention match anchored at `q`, if any (none past the end of `s`). */
  function MatchLen(s: string, q: nat): (r: Option<nat>)
    ensures r.Some? == (q <= |s| && MentionMatchAt(s, q).Some?)
    ensures r.Some? ==> 0 < r.value && q + r.value <= |s|
  {
    if q <= |s| && MentionMatchAt(s, q).Some? then Some(MentionMatchAt(s, q).value - q) else None
  }

  /** The match table of `s`: the length of the match at each position and at its end. */
  function MatchTable(s: string): (t: seq<Option<nat>>)
    ensures |t| == |s| + 1 && Proper(t)
  {
    var t := Tabulate(q => MatchLen(s, q), 0, |s| + 1);
    assert Proper(t) by {
      forall x | 0 <= x < |t| && t[x].Some? ensures 0 < t[x].value && x + t[x].value < |t| {
        TabulateAt(q => MatchLen(s, q), 0, |s| + 1, x);
      }
    }
    t
  }

  /** Entry `q` of the table is the match at `q`. */
  lemma TableAt(s: string, q: nat)
    requires q <= |s|
    ensures MatchTable(s)[q] == MatchLen(s, q)
  {
    TabulateAt(q => MatchLen(s, q), 0, |s| + 1, q);
  }

  /** Every match in the table is a whole token. */
  lemma TableHoldsTokens(s: string)
    ensures forall x :: 0 <= x < |MatchTable(s)| && MatchTable(s)[x].Some? ==> IsToken(s[x..x + MatchTable(s)[x].value])
  {
    forall x | 0 <= x < |MatchTable(s)| && MatchTable(s)[x].Some? ensures IsToken(s[x..x + MatchTable(s)[x].value]) {
      TableAt(s, x);
      MatchIsToken(s, x);
    }
  }

  /**
   * `body.match(mentionsRegex)`: every mention in order, repeats included
   * (an empty list for null); each is a whole token.
   */
  function Mentions(s: string): (ms: seq<string>)
    ensures forall m :: m in ms ==> IsToken(m)
  {
    TableHoldsTokens(s);
    ScanTextsAreMatches(s, MatchTable(s), IsToken);
    Scan(s, MatchTable(s))
  }

  /** The mention pattern matches nowhere in `s`. */
  predicate NoMention(s: string) {
    forall q :: 0 <= q <= |s| ==> MentionMatchAt(s, q).None?
  }

  /** The scan finds no mention exactly when the pattern matches nowhere. */
  lemma MentionsEmpty(s: string)
    ensures Mentions(s) == [] <==> NoMention(s)
  {
    var t := MatchTable(s);
    ScanEmpty(s, t);
    forall q | 0 <= q <= |s| ensures t[q].None? == MentionMatchAt(s, q).None? {
      TableAt(s, q);
    }
  }

  /** A whole token is the prefix, its id and the closing `]`. */
  lemma TokenParts(w: string)
    requires IsToken(w)
    ensures w == Token(TokenId(w))
  {
    assert w == w[..|MentionPrefix|] + w[|MentionPrefix|..|w| - 1] + [w[|w| - 1]];
  }

  /** The first mention of `m` is the match at the first position that starts one. */
  lemma FirstMention(m: string, p: nat)
    requires FirstIn(MatchTable(m), 0) == Some(p)
    ensures p + MatchTable(m)[p].value <= |m|
    ensures Mentions(m) != [] && Mentions(m)[0] == m[p..p + MatchTable(m)[p].value]
  {
    ScanStep(m, MatchTable(m), p, p + MatchTable(m)[p].value);
  }

  /**
   * `mention.match(mentionRegex)`: the captured account id of the first
   * mention, or null; it is there exactly when the scan finds a mention,
   * and it is the id of the first one.
   */
  function MentionCapture(m: string): (r: Option<string>)
    ensures r.None? <==> Mentions(m) == []
    ensures r.Some? ==> Mentions(m)[0] == Token(r.value)
  {
    var t := MatchTable(m);
    match FirstIn(t, 0)
    case None =>
      ScanEmpty(m, t);
      None
    case Some(p) =>
      FirstMention(m, p);
      TokenParts(Mentions(m)[0]);
      Some(TokenId(Mentions(m)[0]))
  }

  /** Positions of two texts where the same match starts, up to a shift, hold the same table entry. */
  lemma SameEntry(s: string, x: nat, a: string, y: nat)
    requires x <= |s| && y <= |a|
    requires MentionMatchAt(s, x).Some? == MentionMatchAt(a, y).Some?
    requires MentionMatchAt(s, x).Some? ==> MentionMatchAt(s, x).value - x == MentionMatchAt(a, y).value - y
    ensures MatchTable(s)[x] == MatchTable(a)[y]
  {
    TableAt(s, x);
    TableAt(a, y);
  }

  /** Before a space, the table of a text is the table of the text before it. */
  lemma EntryBeforeSpace(s: string, a: string, x: nat)
    requires |a| < |s| && s[..|a|] == a && s[|a|] == ' ' && x <= |a|
    ensures MatchTable(s)[x] == MatchTable(a)[x]
  {
    MatchBeforeSpace(s, a, x);
    SameEntry(s, x, a, x);
  }

  /** Where `s` holds `b` from `k` on, its table there is the table of `b`. */
  lemma EntryAfter(s: string, k: nat, b: string, y: nat)
    requires k <= |s| && s[k..] == b && y <= |b|
    ensures MatchTable(s)[k + y] == MatchTable(b)[y]
  {
    MatchAfter(s, k, b, y);
    SameEntry(s, k + y, b, y);
  }

  /** The table of `a`, a space and `b` is the table of `a` followed by the table of `b`. */
  lemma TableOfSpaced(a: string, b: string)
    ensures MatchTable(a + " " + b) == MatchTable(a) + MatchTable(b)
  {
    var s := a + " " + b;
    assert s[..|a|] == a && s[|a|] == ' ' && s[|a| + 1..] == b;
    var t, t1, t2 := MatchTable(s), MatchTable(a), MatchTable(b);
    forall x | 0 <= x < |t| ensures t[x] == (t1 + t2)[x] {
      if x < |t1| {
        EntryBeforeSpace(s, a, x);
      } else {
        EntryAfter(s, |t1|, b, x - |t1|);
      }
    }
  }

  /**
   * The scan of two texts joined by a space finds the mentions of the
   * first, then those of the second: every token, in order, repeats included.
   */
  lemma MentionsConcat(a: string, b: string)
    ensures Mentions(a + " " + b) == Mentions(a) + Mentions(b)
  {
    TableOfSpaced(a, b);
    ScanJoined(a, ' ', b, MatchTable(a), MatchTable(b));
  }

  /** A token on its own is scanned as itself. */
  lemma MentionsOfToken(m: string)
    requires IsToken(m)
    ensures Mentions(m) == [m]
  {
    assert m[0..|m|] == m;
    MentionMatchOfToken(m, 0, m);
    var t := MatchTable(m);
    TableAt(m, 0);
    TableAt(m, |m|);
    FirstInIs(t, 0, 0);
    ScanStep(m, t, 0, |m|);
    ScanEmpty(m[|m|..], t[|m|..]);
  }

  /** Texts joined by single spaces. */
  function Spaced(ms: seq<string>): string
    decreases |ms|
  {
    if ms == [] then "" else if |ms| == 1 then ms[0] else ms[0] + " " + Spaced(ms[1..])
  }

  /** Scanning tokens written one after the other, a space apart, gives back the very list. */
  lemma {:induction false} ScanSpaced(ms: seq<string>)
    requires forall m :: m in ms ==> IsToken(m)
    ensures Mentions(Spaced(ms)) == ms
    decreases |ms|
  {
    if ms == [] {
      assert Mentions("") == [];
    } else if |ms| == 1 {
      MentionsOfToken(ms[0]);
    } else {
      MentionsConcat(ms[0], Spaced(ms[1..]));
      MentionsOfToken(ms[0]);
      ScanSpaced(ms[1..]);
    }
  }

  /**
   * Matching a scanned mention again, as the render loop does, always
   * succeeds and captures the id between the prefix and the final `]`:
   * the loop's `id != null` test never fails.
   */
  lemma CaptureOfToken(m: string)
    requires IsToken(m)
    ensures MentionCapture(m) == Some(TokenId(m))
  {
    assert m[0..|m|] == m;
    MentionMatchOfToken(m, 0, m);
  }

  /** Every well-formed id round-trips through the mention text: it is scanned as one token that captures it. */
  lemma TokenRoundTrip(id: string)
    requires IsId(id)
    ensures IsToken(Token(id)) && TokenId(Token(id)) == id
    ensures Mentions(Token(id)) == [Token(id)]
    ensures MentionCapture(Token(id)) == Some(id)
  {
    var m := Token(id);
    assert m[..|MentionPrefix|] == MentionPrefix;
    forall k | |MentionPrefix| <= k < |m| ensures IsIdChar(m[k]) {
      if k < |m| - 1 {
        assert m[k] == id[k - |MentionPrefix|];
      }
    }
    assert m[|MentionPrefix|..|m| - 1] == id;
    assert m[0..|m|] == m;
    MentionMatchOfToken(m, 0, m);
    CaptureOfToken(m);
    MentionsOfToken(m);
  }
}
