/**
 * The service worker's gate: on tab activation and on tab updates it
 * decides whether the side panel is enabled for the tab and whether the
 * tab's address is forwarded to the panel. The worker keeps no state, so
 * each listener is a function from the event to the effects it causes.
 * Parsing an address (`new URL`) is a parameter: `None` is a parse that throws.
 */
module ServiceWorker {
  import opened Wrappers
  import opened Patterns
  import SidePanel

  const Origin: string := "https://support.hlag.com"
  const Debug: bool := false
  const PanelPath: string := "sidepanel.html"

  /** A parsed address: its origin and its serialised form. */
  datatype Url = Url(origin: string, href: string)

  /** The tab as the event reports it; `url` is absent when the tab has none. */
  datatype Tab = Tab(url: Option<string>)

  datatype Effect =
    | EnablePanel(tabId: int, path: string)
    | SendToPanel(href: string, debug: bool)

  /** `!tab.url`: no address, or the empty one. */
  predicate NoUrl(tab: Tab) {
    tab.url.None? || tab.url.value == ""
  }

  /**
   * `sendMessage` (lines 16-36): give up without an address, enable the
   * panel for the tab once the address parses, and forward it only when it
   * names an `ITOPTI` ticket.
   */
  function SendMessage(tabId: int, tab: Tab, parse: string -> Option<Url>): (effects: seq<Effect>)
    ensures NoUrl(tab) ==> effects == []
    ensures effects != [] <==> !NoUrl(tab) && parse(tab.url.value).Some?
    ensures |effects| <= 2
    ensures !NoUrl(tab) && parse(tab.url.value).Some? ==> var href := parse(tab.url.value).value.href;
      && effects[0] == EnablePanel(tabId, PanelPath)
      && (|effects| == 2 <==> MatchesTicket(href))
      && (|effects| == 2 ==> effects[1] == SendToPanel(href, Debug))
  {
    if NoUrl(tab) then []
    else match parse(tab.url.value)
      case None => []
      case Some(url) =>
        [EnablePanel(tabId, PanelPath)] + (if MatchesTicket(url.href) then [SendToPanel(url.href, Debug)] else [])
  }

  /**
   * `onActivated` (lines 38-55): the looked-up tab must have an address
   * whose origin is the origin Jira; the load status is not checked.
   */
  function OnActivated(tabId: int, tab: Tab, parse: string -> Option<Url>): (effects: seq<Effect>)
    ensures effects != [] ==> tab.url.Some? && parse(tab.url.value).Some? && parse(tab.url.value).value.origin == Origin
    ensures tab.url.Some? && parse(tab.url.value).Some? && parse(tab.url.value).value.origin == Origin ==>
      effects == SendMessage(tabId, tab, parse)
  {
    if tab.url.None? then []
    else match parse(tab.url.value)
      case None => []
      case Some(url) => if url.origin == Origin then SendMessage(tabId, tab, parse) else []
  }

  /**
   * `onUpdated` (lines 57-69): the same origin test, and the page must
   * have finished loading. An address that does not parse is caught.
   */
  function OnUpdated(tabId: int, status: Option<string>, tab: Tab, parse: string -> Option<Url>): (effects: seq<Effect>)
    ensures effects != [] ==> status == Some("complete")
    ensures effects != [] ==> tab.url.Some? && parse(tab.url.value).Some? && parse(tab.url.value).value.origin == Origin
    ensures status == Some("complete") ==> effects == OnActivated(tabId, tab, parse)
  {
    if tab.url.None? then []
    else match parse(tab.url.value)
      case None => []
      case Some(url) =>
        if url.origin == Origin && status == Some("complete") then SendMessage(tabId, tab, parse) else []
  }

  /** Some message is forwarded to the panel. */
  predicate Forwards(effects: seq<Effect>) {
    exists k :: 0 <= k < |effects| && effects[k].SendToPanel?
  }

  /**
   * A message is forwarded exactly when the parsed address names an
   * `ITOPTI` ticket, and it carries that address and the debug flag.
   */
  lemma ForwardIffTicket(tabId: int, tab: Tab, parse: string -> Option<Url>)
    ensures var effects := SendMessage(tabId, tab, parse);
      Forwards(effects) <==> !NoUrl(tab) && parse(tab.url.value).Some? && MatchesTicket(parse(tab.url.value).value.href)
    ensures forall e :: e in SendMessage(tabId, tab, parse) && e.SendToPanel? ==>
      e == SendToPanel(parse(tab.url.value).value.href, false)
  {
    var effects := SendMessage(tabId, tab, parse);
    if Forwards(effects) {
      var k :| 0 <= k < |effects| && effects[k].SendToPanel?;
      assert k == 1;
    }
  }

  /**
   * Every address the worker forwards starts a cycle in the panel: its
   * key scan finds a key, so the panel clears itself and searches.
   */
  lemma ForwardedUrlStartsCycle(tabId: int, tab: Tab, parse: string -> Option<Url>, href: string)
    requires SendToPanel(href, Debug) in SendMessage(tabId, tab, parse)
    ensures RemoteKey(href).Some?
    ensures SidePanel.OnMessage(href) != []
  {
    var effects := SendMessage(tabId, tab, parse);
    var k :| 0 <= k < |effects| && effects[k] == SendToPanel(href, Debug);
    assert k == 1;
    TicketYieldsKey(href);
    RemoteKeyExists(href);
  }

  /**
   * The key the panel searches for is not necessarily the ticket that let
   * the address through: an earlier key-shaped part of the address wins.
   */
  lemma ForwardedKeyMayDiffer(parse: string -> Option<Url>)
    requires parse(SampleLink) == Some(Url(Origin, SampleLink))
    ensures SendMessage(0, Tab(Some(SampleLink)), parse)
      == [EnablePanel(0, PanelPath), SendToPanel(SampleLink, Debug)]
    ensures RemoteKey(SampleLink) == Some("AB-1")
  {
    EarlierKeyWins();
  }
}
