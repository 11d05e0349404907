/**
 * The side panel's message handler (`chrome.runtime.onMessage`): from the
 * forwarded address to the issue search, from the search answer to one
 * issue fetch per hit, and from a fetched issue to the rendered fields,
 * the comment list and the user lookups that `replaceMentions` starts.
 * Requests and DOM writes are effects in a list; answers are inputs.
 */
module SidePanel {
  import opened Wrappers
  import opened Patterns
  import opened IdentityCache
  import opened Render

  /** Both Jira hosts are configured empty: links and API paths are relative. */
  const OriginJira: string := ""
  const RemoteJira: string := ""

  const RestApiPath: string := "/rest/api/2"
  const UserApi: string := OriginJira + RestApiPath + "/user?accountId="

  const NoIssueMessage: string := "No issue found with this Key"
  const JqlPrefix: string := "project=HL AND cf[10585] ~\""

  /**
   * The query that looks the remote key up in the custom field of the
   * origin project; a key without a double quote is read back whole from it.
   */
  function SearchJql(key: string): (jql: string)
    ensures '"' !in key ==> JqlKey(jql) == Some(key)
  {
    var jql := JqlPrefix + key + "\"";
    assert jql[..|JqlPrefix|] == JqlPrefix;
    assert jql[|JqlPrefix|..|jql| - 1] == key;
    jql
  }

  /**
   * The key back out of a query: the quoted value after the prefix, when
   * the quote it opens is closed by the last character and by no earlier one.
   */
  function JqlKey(jql: string): (r: Option<string>)
    ensures r.Some? ==> jql == JqlPrefix + r.value + "\"" && '"' !in r.value
  {
    if |jql| > |JqlPrefix| && jql[..|JqlPrefix|] == JqlPrefix && jql[|jql| - 1] == '"'
      && '"' !in jql[|JqlPrefix|..|jql| - 1]
    then
      var key := jql[|JqlPrefix|..|jql| - 1];
      assert jql == JqlPrefix + key + "\"";
      Some(key)
    else None
  }

  /** `base + "/browse/" + key`, the link an issue key is shown with. */
  function BrowseLink(base: string, key: string): string {
    base + "/browse/" + key
  }

  /** What the panel does, in order: DOM writes and requests. */
  datatype PanelEffect =
    | ClearPanel
    | ShowRemoteKey(key: string, link: string)
    | SearchIssues(jql: string, fields: string)
    | ShowMessage(text: string)
    | ShowOriginKey(key: string, link: string)
    | FetchIssue(uri: string)

  /**
   * The handler for a forwarded address (lines 139-160): without a key
   * nothing happens; with one the panel is cleared, the key shown as a
   * link and the search issued.
   */
  function OnMessage(href: string): (effects: seq<PanelEffect>)
    ensures effects == [] <==> !HasKeyPattern(href)
    ensures RemoteKey(href).Some? ==> var key := RemoteKey(href).value;
      effects == [ClearPanel, ShowRemoteKey(key, BrowseLink(RemoteJira, key)), SearchIssues(SearchJql(key), "")]
  {
    RemoteKeyExists(href);
    match RemoteKey(href)
    case None => []
    case Some(key) => [ClearPanel, ShowRemoteKey(key, BrowseLink(RemoteJira, key)), SearchIssues(SearchJql(key), "")]
  }

  /** A search hit: its key and the API address of the full issue. */
  datatype IssueRef = IssueRef(key: string, self: string)

  /** The search answer; `total` is the hit count the server reports. */
  datatype SearchResponse = SearchResponse(total: int, issues: seq<IssueRef>)

  /** For every hit, in order: show its key as a link, then fetch it. */
  function IssueEffects(issues: seq<IssueRef>): seq<PanelEffect>
    decreases |issues|
  {
    if issues == [] then []
    else
      [ShowOriginKey(issues[0].key, BrowseLink(OriginJira, issues[0].key)), FetchIssue(issues[0].self)]
      + IssueEffects(issues[1..])
  }

  /**
   * The handler for the search answer (lines 163-177): an answer with no
   * hits shows exactly the "not found" message and fetches nothing; any
   * other answer fetches every hit, in order, and shows no message.
   */
  function OnSearchResults(resp: SearchResponse): (effects: seq<PanelEffect>)
    ensures resp.total == 0 ==> effects == [ShowMessage(NoIssueMessage)]
    ensures resp.total != 0 ==>
      && |effects| == 2 * |resp.issues|
      && (forall k :: 0 <= k < |resp.issues| ==> effects[2 * k + 1] == FetchIssue(resp.issues[k].self))
      && ShowMessage(NoIssueMessage) !in effects
  {
    IssueEffectsAll(resp.issues);
    HitsShowNoMessage(resp.issues);
    if resp.total == 0 then [ShowMessage(NoIssueMessage)] else IssueEffects(resp.issues)
  }

  /**
   * Every hit is handled, not just the first: two effects per hit, in the
   * order of the answer.
   */
  lemma {:induction false} IssueEffectsAll(issues: seq<IssueRef>)
    ensures |IssueEffects(issues)| == 2 * |issues|
    ensures forall k :: 0 <= k < |issues| ==>
      && IssueEffects(issues)[2 * k] == ShowOriginKey(issues[k].key, BrowseLink(OriginJira, issues[k].key))
      && IssueEffects(issues)[2 * k + 1] == FetchIssue(issues[k].self)
    decreases |issues|
  {
    if issues != [] {
      var rest := issues[1..];
      IssueEffectsAll(rest);
      forall k | 1 <= k < |issues|
        ensures IssueEffects(issues)[2 * k] == ShowOriginKey(issues[k].key, BrowseLink(OriginJira, issues[k].key))
        ensures IssueEffects(issues)[2 * k + 1] == FetchIssue(issues[k].self)
      {
        assert issues[k] == rest[k - 1];
        assert IssueEffects(issues)[2 * k] == IssueEffects(rest)[2 * (k - 1)];
        assert IssueEffects(issues)[2 * k + 1] == IssueEffects(rest)[2 * (k - 1) + 1];
      }
    }
  }

  /** Handling the hits shows no message. */
  lemma HitsShowNoMessage(issues: seq<IssueRef>)
    ensures ShowMessage(NoIssueMessage) !in IssueEffects(issues)
  {
    IssueEffectsAll(issues);
    var effects := IssueEffects(issues);
    forall e | e in effects ensures e != ShowMessage(NoIssueMessage) {
      var i :| 0 <= i < |effects| && effects[i] == e;
      var k := i / 2;
      assert i == 2 * k || i == 2 * k + 1;
      assert k < |issues|;
      assert effects[2 * k].ShowOriginKey? && effects[2 * k + 1].FetchIssue?;
    }
  }

  /** A key is made of `[A-z]` characters, a hyphen and digits: never a double quote. */
  lemma KeyHasNoQuote(key: string)
    requires KeyShaped(key)
    ensures '"' !in key
  {
    var d :| 0 < d < |key| && DashAt(key, d);
    forall x | 0 <= x < |key| ensures key[x] != '"' {
      if x < d {
        assert IsLetter(key[x]);
      } else if x > d {
        assert IsDigit(key[x]);
      }
    }
  }

  /**
   * The quoted value of the query closes exactly after the key: the key
   * the handler searches for is read back whole from the query it builds.
   */
  lemma SearchedKeyRoundTrip(href: string, key: string)
    requires RemoteKey(href) == Some(key)
    ensures JqlKey(SearchJql(key)) == Some(key)
  {
    KeyHasNoQuote(key);
  }

  // ---------------------------------------------------------------------
  // One fetched issue

  /**
   * The fields read from a fetched issue; `assignee` is the assignee's
   * display name, `None` when the issue is unassigned (`null`).
   */
  datatype IssueFields = IssueFields(
    summary: string, statusName: string, colorName: string,
    assignee: Option<string>, comments: seq<Comment>)

  /**
   * What the panel shows for an issue. `comments` is `None` when the
   * callback stopped before the list was built.
   */
  datatype IssueView = IssueView(
    summary: string, status: string, statusClass: string,
    assignee: Option<string>, comments: Option<seq<CommentNode>>)

  /**
   * The callback for a fetched issue (lines 179-264). Summary and status
   * are written first; reading the display name of a `null` assignee then
   * throws, so an unassigned issue gets no assignee, no comment list and
   * no lookups. Otherwise the comments are rendered and every id the table
   * knows is looked up again, names already stored included: `lookups`
   * holds the addresses requested.
   */
  method RenderIssue(cache: UserCache, fields: IssueFields) returns (view: IssueView, lookups: set<string>)
    modifies cache
    ensures fields.assignee.None? ==>
      && view == IssueView(fields.summary, fields.statusName, StatusClass(fields.colorName), None, None)
      && lookups == {}
      && cache.users == old(cache.users)
    ensures fields.assignee.Some? ==>
      var r := ListSpec(old(cache.users), fields.comments);
      && view == IssueView(fields.summary, fields.statusName, StatusClass(fields.colorName), fields.assignee, Some(r.nodes))
      && cache.users == r.users
      && lookups == set id | id in r.users.Keys :: UserUri(id)
  {
    var cls := StatusClass(fields.colorName);
    if fields.assignee.None? {
      view := IssueView(fields.summary, fields.statusName, cls, None, None);
      lookups := {};
      return;
    }
    var list := RenderComments(cache, fields.comments);
    view := IssueView(fields.summary, fields.statusName, cls, fields.assignee, Some(list));
    lookups := set id | id in cache.users.Keys :: UserUri(id);
  }

  /** The address of the lookup for one id (line 123). */
  function UserUri(key: string): string {
    UserApi + key
  }

  /** Distinct ids are looked up at distinct addresses: one request per id in the table. */
  lemma UserUriInjective(a: string, b: string)
    ensures UserUri(a) == UserUri(b) <==> a == b
  {
    if UserUri(a) == UserUri(b) {
      assert a == UserUri(a)[|UserApi|..];
      assert b == UserUri(b)[|UserApi|..];
    }
  }

  /**
   * The lookups after rendering an assigned issue: every id already in
   * the table (resolved or not) and every comment author.
   */
  lemma LookupsCoverTable(users: Users, comments: seq<Comment>)
    ensures var r := ListSpec(users, comments);
      && users.Keys <= r.users.Keys
      && (forall c :: c in comments ==> c.authorId in r.users.Keys)
      && KeepsNames(users, r.users)
  {
    ListFromTable([], users, comments);
  }
}
