# JiraSideBySide in Dafny

A model of the browser extension that shows, beside a support ticket
page, the internal Jira issue linked to it. Two scripts make up the core:

- `scripts/service-worker.js` gates tab events. A tab on the support origin
  gets the side panel enabled. Its address is forwarded to the panel when
  it names an `ITOPTI-<digits>` ticket.
- `scripts/sidepanel.js` is the panel. It scans the forwarded address for
  a remote issue key and searches the internal Jira for it. It fetches
  every hit and renders summary, status, assignee and comments. Unknown
  user mentions become placeholders. A later lookup step (`replaceMentions`)
  fills them in with display names.

Modules:

- `Wrappers`: `Option`, standing for JavaScript's `null`/`undefined`.
- `JsString`: `String.prototype.replaceAll` with a literal pattern, and
  lemmas about it.
- `Patterns`: the three regular expressions, matched as a JavaScript
  engine matches them.
  - `[A-z]` is code points 65 to 122, so it also takes in `[ \ ] ^ _` and the backtick.
  - The mention capture runs to the *last* `]` of the run of id characters.
  - The global mention scan resumes after each match.
- `MatchScan`: the global scan of a `g` regular expression, read off a
  table of the match anchored at each position. It takes the leftmost
  match and resumes after it.
- `IdentityCache`: the `users` table as a class with a map field.
  - `Some(name)` is a resolved id.
  - `None` is an id marked pending (`null`).
- `Render`: the comment loop, with `RenderAuthor`, `RenderBody` and `RenderComments`.
  - These are methods that rewrite strings step by step.
  - Each is proved against a specification function (`AuthorSpec`,
    `BodySpec`, `ListSpec`). The properties are proved about those functions.
- `Resolution`: one lookup's callback in `replaceMentions`, over a
  document modelled as an `array<Element>`.
- `SidePanel`: the message handler as a list of effects.
  - the search answer;
  - the callback for one fetched issue (`RenderIssue`).
- `ServiceWorker`: the three listeners as functions from an event to the
  effects it causes.

## Model

| member | source | states |
|---|---|---|
| Patterns.RemoteKey | scripts/sidepanel.js:140 | the matched key has the `[A-z]+-[0-9]+` shape |
| Patterns.RemoteKeyExists | scripts/sidepanel.js:140-144 | the scan yields no key exactly when no `[A-z]` character, hyphen and digit stand in a row |
| Patterns.RemoteKeyIsFirst | scripts/sidepanel.js:140-145 | the key is the whole `[A-z]` run before the first such hyphen and the whole digit run after it |
| Patterns.EarlierKeyWins | scripts/sidepanel.js:140 | on `https://support.hlag.com/AB-1/ITOPTI-2` the ticket gate matches, but the panel's key is `AB-1` |
| Patterns.HasTicketFrom | scripts/service-worker.js:26 | true exactly when `ITOPTI-` followed by a digit occurs at or after the position |
| Patterns.TicketYieldsKey | scripts/service-worker.js:26 | every address passing the ticket gate also yields a remote key |
| Patterns.MatchIsToken | scripts/sidepanel.js:17 | a match anchored at a position covers a whole well-formed mention token |
| Patterns.MentionMatchIsLongest | scripts/sidepanel.js:17 | the match at a position is the longest token starting there, and there is none exactly when no token starts there |
| Patterns.MatchIsLongestToken | scripts/sidepanel.js:17 | conversely, the longest token starting at a position is the match there |
| MatchScan.ScanEmpty | scripts/sidepanel.js:235 | a global scan is empty exactly when its match table holds no match |
| MatchScan.ScanTextsAreMatches | scripts/sidepanel.js:235 | every text a global scan yields is one the pattern matches |
| MatchScan.ScanJoined | scripts/sidepanel.js:235 | the scan of two texts joined by a character no match covers is the scan of the first, then that of the second |
| Patterns.Mentions | scripts/sidepanel.js:235 | every element of `body.match(mentionsRegex)` is a whole token |
| Patterns.MentionsEmpty | scripts/sidepanel.js:235-238 | the scan finds nothing (`null`) exactly when the pattern matches at no position |
| Patterns.TableOfSpaced | scripts/sidepanel.js:17 | no match runs across a space: the match table of `a + " " + b` is that of `a` followed by that of `b` |
| Patterns.MentionsConcat | scripts/sidepanel.js:235 | the mentions of `a + " " + b` are those of `a` followed by those of `b`, repeats included |
| Patterns.MentionsOfToken | scripts/sidepanel.js:235 | a token on its own is scanned as exactly itself |
| Patterns.MentionCapture | scripts/sidepanel.js:240 | `mention.match(mentionRegex)` fails exactly when the text holds no mention, and otherwise captures the id of its first mention |
| Patterns.MentionMatchOfToken | scripts/sidepanel.js:235 | a token not followed by an id character is matched exactly, whatever `]` its id holds |
| Patterns.CaptureOfToken | scripts/sidepanel.js:240-242 | re-matching a scanned token always captures its id, so the capture test never fails |
| Patterns.TokenRoundTrip | scripts/sidepanel.js:216 | a well-formed id's mention text is scanned as one token that captures the id |
| IdentityCache.UserCache.constructor | scripts/sidepanel.js:20 | the table starts empty |
| IdentityCache.UserCache.MarkPending | scripts/sidepanel.js:248 | only an id without a name becomes pending, and no stored name changes |
| IdentityCache.UserCache.Store | scripts/sidepanel.js:125 | the id gets the name, and every other id reads as before |
| Render.StatusClass | scripts/sidepanel.js:186-192 | `yellow` and `green` map to in-progress and done (each iff), and everything else to todo |
| Render.Sanitise | scripts/sidepanel.js:252 | same length, no `:` left, and each `:` becomes `_` with the other characters kept |
| Render.AnchorsCollide | scripts/sidepanel.js:207 | two distinct ids (`a:b`, `a_b`) share one element id |
| Render.Br | scripts/sidepanel.js:232 | the body rewritten character by character (`BrSpec`): each newline becomes `<br>`, so none survives, and a body without one is unchanged |
| Render.ApplyMention | scripts/sidepanel.js:240-255 | a mention without a capture changes nothing; otherwise the table only gains the id, marked pending unless it has a name, and is untouched when it has one |
| Render.CommentSpec | scripts/sidepanel.js:203-261 | the node shows the comment's date, author anchor and id; the body is rendered after the author is entered; the table gains the author and the mentioned ids, pending only |
| Render.RenderAuthor | scripts/sidepanel.js:203-217 | the author span and the new table equal `AuthorSpec` of the old table |
| Render.RenderBody | scripts/sidepanel.js:231-258 | the body rewritten mention by mention, and the new table, equal `BodySpec` of the old table |
| Render.RenderComments | scripts/sidepanel.js:199-262 | the list and the new table equal `ListSpec` of the old table |
| Render.PlainBodyRendersWithBreaks | scripts/sidepanel.js:231-238 | a body in which no mention matches renders as the `<br>`-converted body, with the table unchanged |
| Render.BodyWithoutBracketIsPlain | scripts/sidepanel.js:231-238 | a body without `[` renders as the `<br>`-converted body, with the table unchanged |
| Render.ApplyMentionsTable | scripts/sidepanel.js:242-254 | the mention loop only marks ids pending. Keys grow by exactly the mentioned ids, and the table is untouched when all of them have names |
| Render.BodyTable | scripts/sidepanel.js:231-258 | the same for a whole comment body |
| Render.AuthorLabel | scripts/sidepanel.js:203-217 | the author span has the anchor id, shows the stored name or else the mention text, and only marks the author pending |
| Render.ListFromOrder | scripts/sidepanel.js:202-261 | prepending puts node k of the result on comment n-1-k, and the earlier list follows the new nodes unchanged |
| Render.ListIsReversed | scripts/sidepanel.js:261 | the list has one node per comment, in the reverse of the API order |
| Render.ListFromTable | scripts/sidepanel.js:202-262 | rendering a list only marks ids pending and leaves every author in the table |
| Render.MentionsTwice | scripts/sidepanel.js:235 | a token repeated with a space between is scanned twice |
| Render.PendingPass | scripts/sidepanel.js:246-254 | a pass for an id without a name wraps every occurrence in the placeholder and marks the id pending |
| Render.CachedPass | scripts/sidepanel.js:242-244 | a pass for an id with a stored name replaces every occurrence by `[~name]` and leaves the table alone |
| Render.RepeatedCachedMention | scripts/sidepanel.js:239-245 | a mention written twice, with a stored name free of `:`, ends as `[~name]` twice, the second pass finding nothing left |
| Render.RepeatedPendingMentionNests | scripts/sidepanel.js:239-255 | a pending mention written twice ends as two placeholders, each nested inside another |
| Resolution.ResolveElement | scripts/sidepanel.js:128-133 | the element id is kept, an element with another id is left as it is, and a placeholder for the key becomes `[~name]` |
| Resolution.ResolvedDoc | scripts/sidepanel.js:128-133 | every element keeps its id, elements without the key's anchor are untouched, and each placeholder for the key becomes `[~name]` |
| Resolution.ResolveUser | scripts/sidepanel.js:124-133 | the name is stored and the array becomes `ResolvedDoc` of the old array |
| Resolution.ResolveToken | scripts/sidepanel.js:132 | the placeholder text `[~accountid:ID]` becomes `[~name]` |
| Resolution.MentionPlaceholderResolves | scripts/sidepanel.js:244 | a resolved mention placeholder reads `[~name]`, the same text the cached path gives |
| Resolution.AuthorPlaceholderResolves | scripts/sidepanel.js:210-216 | a resolved author placeholder reads `[~name]`, while a cached author shows the bare name |
| SidePanel.OnMessage | scripts/sidepanel.js:139-160 | no effect iff the address has no key. Otherwise: clear, show the key link, search with the key's JQL |
| SidePanel.SearchJql | scripts/sidepanel.js:160 | a key without `"` is read back whole from the query built for it |
| SidePanel.JqlKey | scripts/sidepanel.js:160 | a key read back from a query is the quoted value after the prefix and holds no quote |
| SidePanel.SearchedKeyRoundTrip | scripts/sidepanel.js:160 | the searched key is read back whole: its quoted value closes right after it |
| SidePanel.KeyHasNoQuote | scripts/sidepanel.js:9 | a key never contains `"` |
| SidePanel.IssueEffectsAll | scripts/sidepanel.js:168-177 | every hit, in order, is shown as a link and then fetched |
| SidePanel.OnSearchResults | scripts/sidepanel.js:163-177 | `total == 0` gives exactly the not-found message. Otherwise every hit is fetched, in order, and no message is shown |
| SidePanel.HitsShowNoMessage | scripts/sidepanel.js:168-177 | handling the hits never shows the not-found message |
| SidePanel.RenderIssue | scripts/sidepanel.js:179-264 | a `null` assignee stops after summary and status, with no list and no lookups. Otherwise the list is `ListSpec`, and the user address of every table key is requested |
| SidePanel.UserUriInjective | scripts/sidepanel.js:120-123 | distinct ids are requested at distinct addresses, so there is one request per table key |
| SidePanel.LookupsCoverTable | scripts/sidepanel.js:120-123 | the lookups include every id already known, resolved ones too, and every comment author |
| ServiceWorker.SendMessage | scripts/service-worker.js:16-36 | nothing without an address. Once it parses, the panel is enabled first, and a second effect forwards the address iff it names a ticket |
| ServiceWorker.OnActivated | scripts/service-worker.js:38-55 | effects only for a parsed address on the support origin, and then exactly `sendMessage`'s |
| ServiceWorker.OnUpdated | scripts/service-worker.js:57-69 | effects only once loading is complete, on the support origin, and then the same as on activation |
| ServiceWorker.ForwardIffTicket | scripts/service-worker.js:26-32 | a message is sent iff the parsed address names a ticket, and it carries that address and `debug = false` |
| ServiceWorker.ForwardedUrlStartsCycle | scripts/service-worker.js:26-31 | every forwarded address makes the panel's handler clear and search |
| ServiceWorker.ForwardedKeyMayDiffer | scripts/service-worker.js:26 | the address `https://support.hlag.com/AB-1/ITOPTI-2` is forwarded, and the panel searches for `AB-1` |

## Behaviour of the code

- **No in-flight guard.** Nothing stops a second lookup for an id whose
  first is still outstanding. `replaceMentions` looks up every key in the
  table again, names already stored included (`LookupsCoverTable`).
- **Lookup count.** Every comment author is looked up, even for bodies
  without mentions, and so is every id that already has a name.
- **All search hits.** Every search hit is shown and fetched, not just one
  (`IssueEffectsAll`).
- **Unassigned issues.** An issue without an assignee stops the callback
  at line 197: reading `displayName` of `null` throws, so no comment is
  rendered and no lookup starts.
- **Order.** Comments come out in the reverse of the API's order, which
  is not necessarily newest first.
- **Author labels.** A resolved author placeholder reads `[~name]`, while
  an author already cached shows `name` (`AuthorPlaceholderResolves`).
- **Repeated pending mentions.** A mention written twice while its id is
  pending ends as two doubly nested placeholders
  (`RepeatedPendingMentionNests`).

## Left out

- Network calls (`fetch`, `getIssues`, `getIssue`, `getResourceURI`) are
  requests in the effect lists, and their answers are inputs.
- `createIssue` and `sleep` are not used by the rest of the code.
- `encodeURI` on the query is left out. The query is kept unencoded.
- `new URL` is a `parse` parameter in `ServiceWorker`; the panel is handed
  the serialised `href` as a string.
- `Date.toLocaleString`: a comment's `created` is taken already formatted.
- `innerHTML` parsing and serialisation are left out. A text node holding
  `&`, `<` or `>` would be escaped on the way back, and the model keeps
  text as written.
- DOM nesting is not modelled. The document is a flat array of elements,
  so rewriting a mention span does not also rewrite the paragraph around it.
- `clearData`, style toggling and the appending of key links are effects
  without contents.
- `querySelectorAll` with an id containing `"` or `\` is left out; the
  selector is taken to match the element id literally.
- Special replacement patterns (`$&`, `$1`, ...) in a display name given
  to `replaceAll` are left out. The name is inserted literally.
- A missing `displayName` (read as the string `undefined`) is left out.
- Keys of the `users` array that collide with array properties (`length`)
  are left out.
- Promise interleaving is left out. Each lookup callback is one atomic
  `ResolveUser` step, applied at any point.
- The `setPanelBehavior` call is left out, and so is the failure of
  `setOptions`.
- RepeatedCachedMention: stated only for names without `:`. A name that
  holds the mention text would be rewritten again by the second pass, and
  that case is not worked out.
- An `onUpdated` event without `tab.url` is taken as a parse failure:
  `new URL(undefined)` throws and the error is caught.
