/**
 * Rendering one fetched issue's comments into the panel (the comment loop
 * of the message handler): the author label, the comment body with its
 * mentions substituted or wrapped in placeholders, and the list, which
 * comes out in the reverse of the API's order because every node is prepended.
 * The DOM is replaced by strings: an element is its id and its inner
 * HTML text.
 */
module Render {
  import opened Wrappers
  import opened JsString
  import opened Patterns
  import opened IdentityCache

  /** A DOM element reduced to its `id` attribute and its inner HTML. */
  datatype Element = Element(id: string, text: string)

  /** A comment as the issue API returns it; `created` is already formatted for display. */
  datatype Comment = Comment(id: string, authorId: string, created: string, body: string)

  /** One `<li>`: the date, " | ", the author span, a line break and the body paragraph. */
  datatype CommentNode = CommentNode(created: string, author: Element, body: Element)

  /** The CSS class given to the status field for a status category colour. */
  function StatusClass(colorName: string): (cls: string)
    ensures cls == "status-inprogress" <==> colorName == "yellow"
    ensures cls == "status-done" <==> colorName == "green"
    ensures cls == "status-todo" <==> colorName != "yellow" && colorName != "green"
  {
    if colorName == "yellow" then "status-inprogress"
    else if colorName == "green" then "status-done"
    else "status-todo"
  }

  /** `id.replaceAll(":", "_")`: the account id as it appears inside an element id. */
  function Sanitise(id: string): (r: string)
    ensures |r| == |id| && ':' !in r
    ensures forall k :: 0 <= k < |id| ==> r[k] == if id[k] == ':' then '_' else id[k]
  {
    ReplaceCharwise(id, ':', '_');
    ReplaceAll(id, ":", "_")
  }

  /** The element id shared by every placeholder of one account id. */
  function Anchor(id: string): string {
    "id" + Sanitise(id)
  }

  /**
   * Sanitising is not injective, since `_` is itself an id character: two
   * distinct account ids can share the element id their placeholders carry.
   */
  lemma AnchorsCollide()
    ensures "a:b" != "a_b" && Anchor("a:b") == Anchor("a_b")
  {
    var r := Sanitise("a:b");
    assert r[0] == 'a' && r[1] == '_' && r[2] == 'b';
    assert r == "a_b";
    var r' := Sanitise("a_b");
    assert r'[0] == 'a' && r'[1] == '_' && r'[2] == 'b';
    assert r' == "a_b";
  }

  /** `s` with every newline written as `<br>`, one character at a time. */
  function BrSpec(s: string): string
    decreases |s|
  {
    if s == [] then [] else (if s[0] == '\n' then "<br>" else [s[0]]) + BrSpec(s[1..])
  }

  /** Replacing the one-character pattern is rewriting character by character. */
  lemma {:induction false} BrPerChar(s: string)
    ensures ReplaceAll(s, "\n", "<br>") == BrSpec(s)
    decreases |s|
  {
    if s != [] {
      assert s[..1] == [s[0]];
      BrPerChar(s[1..]);
    }
  }

  /**
   * `body.replaceAll("\n", "<br>")`: each newline becomes `<br>` and every
   * other character is kept, so no newline survives and a body without
   * one is untouched.
   */
  function Br(body: string): (r: string)
    ensures r == BrSpec(body)
    ensures '\n' !in r
    ensures '\n' !in body ==> r == body
  {
    BrPerChar(body);
    ReplaceAllRemovesChar(body, '\n', "<br>");
    if '\n' in body then ReplaceAll(body, "\n", "<br>")
    else
      AbsentChar(body, "\n", '\n');
      ReplaceAllAbsent(body, "\n", "<br>");
      ReplaceAll(body, "\n", "<br>")
  }

  /** What a mention becomes once its id has a stored name. */
  function CachedMention(name: string): string {
    "[~" + name + "]"
  }

  /** Opening tag of the placeholder wrapped around a mention still waiting for its name. */
  function SpanOpen(id: string): string {
    "<span class=\"mention\" id=\"" + Anchor(id) + "\">"
  }

  const SpanClose: string := "</span>"

  /** `mentionNode.outerHTML`: the mention text inside a placeholder span tagged with the id. */
  function MentionSpan(id: string, mention: string): string {
    SpanOpen(id) + mention + SpanClose
  }

  // ---------------------------------------------------------------------
  // Specification of the body rendering

  datatype RenderedBody = RenderedBody(html: string, users: Users)

  /**
   * One pass of the mention loop (lines 240-255): a mention without a
   * capture changes nothing; otherwise every occurrence in the body is
   * replaced, by `[~<name>]` for a stored name (`CachedPass`) and by a
   * placeholder otherwise (`PendingPass`), and the table changes only by
   * marking the captured id pending when it has no name.
   */
  function ApplyMention(html: string, users: Users, mention: string): (r: RenderedBody)
    ensures OnlyMarksPending(users, r.users)
    ensures MentionCapture(mention).None? ==> r == RenderedBody(html, users)
    ensures MentionCapture(mention).Some? ==> var id := MentionCapture(mention).value;
      && r.users.Keys == users.Keys + {id}
      && NameOf(r.users, id) == NameOf(users, id)
      && (NameOf(users, id).Some? ==> r.users == users)
  {
    match MentionCapture(mention)
    case None => RenderedBody(html, users)
    case Some(id) =>
      match NameOf(users, id)
      case Some(name) => RenderedBody(ReplaceAll(html, mention, CachedMention(name)), users)
      case None => RenderedBody(ReplaceAll(html, mention, MentionSpan(id, mention)), users[id := None])
  }

  /** The mention loop over `mentions`, in order. */
  function ApplyMentions(html: string, users: Users, mentions: seq<string>): RenderedBody
    decreases |mentions|
  {
    if mentions == [] then RenderedBody(html, users)
    else
      var r := ApplyMention(html, users, mentions[0]);
      ApplyMentions(r.html, r.users, mentions[1..])
  }

  /** The rendered body of a comment and the table afterwards (lines 231-258). */
  function BodySpec(users: Users, body: string): RenderedBody {
    var text := Br(body);
    ApplyMentions(text, users, Mentions(text))
  }

  /** The ids of the tokens in `mentions`. */
  function MentionedIds(mentions: seq<string>): set<string> {
    if mentions == [] then {}
    else (if IsToken(mentions[0]) then {TokenId(mentions[0])} else {}) + MentionedIds(mentions[1..])
  }

  datatype RenderedAuthor = RenderedAuthor(node: Element, users: Users)

  /** The author span and the table afterwards (lines 203-217). */
  function AuthorSpec(users: Users, authorId: string): RenderedAuthor {
    match NameOf(users, authorId)
    case Some(name) => RenderedAuthor(Element(Anchor(authorId), name), users)
    case None => RenderedAuthor(Element(Anchor(authorId), Token(authorId)), users[authorId := None])
  }

  datatype RenderedComment = RenderedComment(node: CommentNode, users: Users)

  /**
   * One comment: its author first, then its body, which is rendered with
   * the table as the author left it. The node shows the comment, and the
   * table gains the author and the mentioned ids, marked pending, only.
   */
  function CommentSpec(users: Users, c: Comment): (r: RenderedComment)
    ensures Shows(r.node, c)
    ensures r.node.author == AuthorSpec(users, c.authorId).node
    ensures r.node.body.text == BodySpec(AuthorSpec(users, c.authorId).users, c.body).html
    ensures OnlyMarksPending(users, r.users)
    ensures r.users.Keys == users.Keys + {c.authorId} + MentionedIds(Mentions(Br(c.body)))
  {
    var a := AuthorSpec(users, c.authorId);
    AuthorLabel(users, c.authorId);
    BodyTable(a.users, c.body);
    OnlyMarksPendingTransitive(users, a.users, BodySpec(a.users, c.body).users);
    var b := BodySpec(a.users, c.body);
    RenderedComment(CommentNode(c.created, a.node, Element("id" + c.id, b.html)), b.users)
  }

  datatype RenderedList = RenderedList(nodes: seq<CommentNode>, users: Users)

  /** The comment loop from a list `acc` already built, prepending each node. */
  function ListFrom(acc: seq<CommentNode>, users: Users, comments: seq<Comment>): RenderedList
    decreases |comments|
  {
    if comments == [] then RenderedList(acc, users)
    else
      var rc := CommentSpec(users, comments[0]);
      ListFrom([rc.node] + acc, rc.users, comments[1..])
  }

  /** The whole comment list of one issue (lines 199-262). */
  function ListSpec(users: Users, comments: seq<Comment>): RenderedList {
    ListFrom([], users, comments)
  }

  lemma ApplyMentionsUnfold(html: string, users: Users, mentions: seq<string>, n: nat)
    requires n < |mentions|
    ensures var r := ApplyMention(html, users, mentions[n]);
      ApplyMentions(html, users, mentions[n..]) == ApplyMentions(r.html, r.users, mentions[n + 1..])
  {
    assert mentions[n..][1..] == mentions[n + 1..];
  }

  // ---------------------------------------------------------------------
  // The rendering as the panel performs it

  /** Builds the author span, marking an id without a name as pending. */
  method RenderAuthor(cache: UserCache, authorId: string) returns (node: Element)
    modifies cache
    ensures RenderedAuthor(node, cache.users) == AuthorSpec(old(cache.users), authorId)
  {
    var name := NameOf(cache.users, authorId);
    if name.Some? {
      node := Element(Anchor(authorId), name.value);
    } else {
      cache.MarkPending(authorId);
      node := Element(Anchor(authorId), Token(authorId));
    }
  }

  /**
   * Rewrites the body step by step: newlines first, then once per mention
   * found, a name substitution or a placeholder wrap of every occurrence.
   */
  method RenderBody(cache: UserCache, body: string) returns (html: string)
    modifies cache
    ensures RenderedBody(html, cache.users) == BodySpec(old(cache.users), body)
  {
    var text := Br(body);
    html := text;
    var mentions := Mentions(text);
    var n := 0;
    while n < |mentions|
      invariant n <= |mentions|
      invariant ApplyMentions(html, cache.users, mentions[n..]) == ApplyMentions(text, old(cache.users), mentions)
    {
      var mention := mentions[n];
      ghost var before := RenderedBody(html, cache.users);
      var id := MentionCapture(mention);
      if id.Some? {
        var name := NameOf(cache.users, id.value);
        if name.Some? {
          html := ReplaceAll(html, mention, CachedMention(name.value));
        } else {
          cache.MarkPending(id.value);
          html := ReplaceAll(html, mention, MentionSpan(id.value, mention));
        }
      }
      assert RenderedBody(html, cache.users) == ApplyMention(before.html, before.users, mention);
      ApplyMentionsUnfold(before.html, before.users, mentions, n);
      n := n + 1;
    }
  }

  /** Builds the list node by node, each new node going in front of the ones before. */
  method RenderComments(cache: UserCache, comments: seq<Comment>) returns (list: seq<CommentNode>)
    modifies cache
    ensures RenderedList(list, cache.users) == ListSpec(old(cache.users), comments)
  {
    list := [];
    var i := 0;
    while i < |comments|
      invariant i <= |comments|
      invariant ListFrom(list, cache.users, comments[i..]) == ListSpec(old(cache.users), comments)
    {
      var c := comments[i];
      var author := RenderAuthor(cache, c.authorId);
      var html := RenderBody(cache, c.body);
      var node := CommentNode(c.created, author, Element("id" + c.id, html));
      list := [node] + list;
      assert comments[i..][1..] == comments[i + 1..];
      i := i + 1;
    }
  }

  // ---------------------------------------------------------------------
  // What the rendering promises

  /**
   * A body in which no mention matches renders as the body with every
   * newline turned into `<br>`, and the table is left alone.
   */
  lemma PlainBodyRendersWithBreaks(users: Users, body: string)
    requires NoMention(Br(body))
    ensures BodySpec(users, body) == RenderedBody(Br(body), users)
    ensures '\n' !in BodySpec(users, body).html
  {
    MentionsEmpty(Br(body));
  }

  /** In particular a body without any `[` renders that way. */
  lemma BodyWithoutBracketIsPlain(users: Users, body: string)
    requires '[' !in body
    ensures BodySpec(users, body) == RenderedBody(Br(body), users)
  {
    var text := Br(body);
    ReplaceAllChars(body, "\n", "<br>", '[');
    forall q | 0 <= q <= |text| ensures MentionMatchAt(text, q).None? {
      if q + |MentionPrefix| <= |text| {
        assert text[q..q + |MentionPrefix|][0] == text[q];
      }
    }
    PlainBodyRendersWithBreaks(users, body);
  }

  /**
   * The mention loop writes the table only to mark ids pending: stored
   * names survive, every mentioned id is known afterwards and no other id
   * is added, and when every mentioned id already has a name nothing changes.
   */
  lemma {:induction false} ApplyMentionsTable(html: string, users: Users, mentions: seq<string>)
    requires forall m :: m in mentions ==> IsToken(m)
    ensures var r := ApplyMentions(html, users, mentions);
      && OnlyMarksPending(users, r.users)
      && r.users.Keys == users.Keys + MentionedIds(mentions)
      && ((forall m :: m in mentions ==> NameOf(users, TokenId(m)).Some?) ==> r.users == users)
    decreases |mentions|
  {
    if mentions != [] {
      var m := mentions[0];
      var r1 := ApplyMention(html, users, m);
      CaptureOfToken(m);
      ApplyMentionsTable(r1.html, r1.users, mentions[1..]);
      OnlyMarksPendingTransitive(users, r1.users, ApplyMentions(html, users, mentions).users);
    }
  }

  /** The same for a whole comment body. */
  lemma BodyTable(users: Users, body: string)
    ensures var r := BodySpec(users, body);
      && OnlyMarksPending(users, r.users)
      && r.users.Keys == users.Keys + MentionedIds(Mentions(Br(body)))
      && ((forall m :: m in Mentions(Br(body)) ==> NameOf(users, TokenId(m)).Some?) ==> r.users == users)
  {
    ApplyMentionsTable(Br(body), users, Mentions(Br(body)));
  }

  /**
   * A cached author is labelled with the bare name, while the placeholder
   * of a pending one reproduces the mention text `[~accountid:ID]`; both
   * carry the element id of the author's account.
   */
  lemma AuthorLabel(users: Users, authorId: string)
    ensures var a := AuthorSpec(users, authorId);
      && a.node.id == Anchor(authorId)
      && a.node.text == (if NameOf(users, authorId).Some? then NameOf(users, authorId).value else Token(authorId))
      && OnlyMarksPending(users, a.users)
      && a.users.Keys == users.Keys + {authorId}
  {
  }

  /** Node `n` shows comment `c`: its date, its author's element id and its own element id. */
  predicate Shows(n: CommentNode, c: Comment) {
    n.created == c.created && n.author.id == Anchor(c.authorId) && n.body.id == "id" + c.id
  }

  /**
   * The loop from a list `acc` already built puts one node per comment in
   * front of `acc`, the last comment first.
   */
  lemma {:induction false} ListFromOrder(acc: seq<CommentNode>, users: Users, comments: seq<Comment>)
    ensures var r := ListFrom(acc, users, comments);
      && |r.nodes| == |acc| + |comments|
      && r.nodes[|comments|..] == acc
      && forall k :: 0 <= k < |comments| ==> Shows(r.nodes[k], comments[|comments| - 1 - k])
    decreases |comments|
  {
    if comments != [] {
      var rc := CommentSpec(users, comments[0]);
      var r := ListFrom([rc.node] + acc, rc.users, comments[1..]);
      ListFromOrder([rc.node] + acc, rc.users, comments[1..]);
      assert r.nodes[|comments|..] == r.nodes[|comments| - 1..][1..];
      ShowsAfterPrepend(r.nodes, rc.node, acc, comments);
    }
  }

  /** The index bookkeeping of one step of `ListFromOrder`. */
  lemma ShowsAfterPrepend(nodes: seq<CommentNode>, node: CommentNode, acc: seq<CommentNode>, comments: seq<Comment>)
    requires comments != [] && Shows(node, comments[0])
    requires |nodes| == |acc| + |comments| && nodes[|comments| - 1..] == [node] + acc
    requires forall k :: 0 <= k < |comments| - 1 ==> Shows(nodes[k], comments[1..][|comments| - 2 - k])
    ensures forall k :: 0 <= k < |comments| ==> Shows(nodes[k], comments[|comments| - 1 - k])
  {
    assert nodes[|comments| - 1] == nodes[|comments| - 1..][0] == node;
    forall k | 0 <= k < |comments| ensures Shows(nodes[k], comments[|comments| - 1 - k]) {
      if k < |comments| - 1 {
        assert comments[1..][|comments| - 2 - k] == comments[|comments| - 1 - k];
      }
    }
  }

  /**
   * The list shows the comments in the reverse of the order the API gave
   * them, one node per comment.
   */
  lemma ListIsReversed(users: Users, comments: seq<Comment>)
    ensures var r := ListSpec(users, comments);
      && |r.nodes| == |comments|
      && forall k :: 0 <= k < |comments| ==> Shows(r.nodes[k], comments[|comments| - 1 - k])
  {
    ListFromOrder([], users, comments);
  }

  /**
   * Rendering a whole list only marks ids pending, and leaves every
   * comment author known to the table.
   */
  lemma {:induction false} ListFromTable(acc: seq<CommentNode>, users: Users, comments: seq<Comment>)
    ensures var r := ListFrom(acc, users, comments);
      && OnlyMarksPending(users, r.users)
      && forall c :: c in comments ==> c.authorId in r.users
    decreases |comments|
  {
    if comments != [] {
      var rc := CommentSpec(users, comments[0]);
      ListFromTable([rc.node] + acc, rc.users, comments[1..]);
      OnlyMarksPendingTransitive(users, rc.users, ListFrom(acc, users, comments).users);
    }
  }

  // ---------------------------------------------------------------------
  // A mention repeated while its id is pending

  /** A mention text holds only `[`, `~` and id characters. */
  lemma TokenChars(id: string)
    requires IsId(id)
    ensures forall k :: 0 <= k < |Token(id)| ==>
      Token(id)[k] == '[' || Token(id)[k] == '~' || IsIdChar(Token(id)[k])
  {
    var m := Token(id);
    forall k | 0 <= k < |m| ensures m[k] == '[' || m[k] == '~' || IsIdChar(m[k]) {
      if k < |MentionPrefix| {
        assert m[k] == MentionPrefix[k];
      } else if k < |m| - 1 {
        assert m[k] == id[k - |MentionPrefix|];
      }
    }
  }

  lemma Assoc(a: string, b: string, c: string)
    ensures a + (b + c) == a + b + c
  {
  }

  /** Replacing `m` by `p` in `m + sep + m`, when no occurrence of `m` can start inside `sep`. */
  lemma WrapPair(m: string, sep: string, p: string, x: char)
    requires |m| > 0 && |sep| > 0 && x in m && x !in sep && sep[|sep| - 1] !in m
    ensures ReplaceAll(m + sep + m, m, p) == p + sep + p
  {
    NoOccurrenceInHead(sep, m, m, x);
    assert m + sep + m == m + (sep + m);
    ReplaceAllHead(m, sep + m, p);
    ReplaceAllSkip(sep, m, m, p);
    assert m + [] == m;
    ReplaceAllHead(m, [], p);
  }

  /** Replacing `m` by `p == o + m + c` in `p + rest`, when no occurrence of `m` can start inside `o`. */
  lemma WrapInside(o: string, m: string, c: string, rest: string, x: char)
    requires |m| > 0 && |o| > 0 && x in m && x !in o && o[|o| - 1] !in m
    ensures ReplaceAll(o + m + c + rest, m, o + m + c) == o + (o + m + c) + ReplaceAll(c + rest, m, o + m + c)
  {
    var p := o + m + c;
    NoOccurrenceInHead(o, m + (c + rest), m, x);
    assert o + m + c + rest == o + (m + (c + rest));
    ReplaceAllSkip(o, m + (c + rest), m, p);
    ReplaceAllHead(m, c + rest, p);
  }

  /** A placeholder on its own is wrapped once more, from the inside. */
  lemma WrapSpan(o: string, m: string, c: string, x: char)
    requires |m| > |c| && |o| > 0 && x in m && x !in o && o[|o| - 1] !in m
    ensures ReplaceAll(o + m + c, m, o + m + c) == o + (o + m + c) + c
  {
    WrapInside(o, m, c, [], x);
    assert o + m + c + [] == o + m + c;
    assert c + [] == c;
  }

  /**
   * Replacing `m` by `p == o + m + c` in `p + sep + p` wraps both copies
   * of `p` once more.
   */
  lemma WrapAgain(o: string, m: string, c: string, sep: string, x: char)
    requires |m| > |c| && |o| > 0 && |sep| > 0
    requires x in m && x !in o && x !in c + sep
    requires o[|o| - 1] !in m && (c + sep)[|c + sep| - 1] !in m
    ensures var p := o + m + c;
      ReplaceAll(p + sep + p, m, p) == o + p + c + sep + (o + p + c)
  {
    var p := o + m + c;
    var q := o + p + c;
    WrapSpan(o, m, c, x);
    assert ReplaceAll(p, m, p) == q;
    NoOccurrenceInHead(c + sep, p, m, x);
    ReplaceAllSkip(c + sep, p, m, p);
    assert ReplaceAll(c + sep + p, m, p) == c + sep + q;
    WrapInside(o, m, c, sep + p, x);
    Assoc(c, sep, p);
    assert ReplaceAll(p + (sep + p), m, p) == o + p + (c + sep + q);
    Assoc(p, sep, p);
    Assoc(o + p, c + sep, q);
    Assoc(o + p, c, sep);
  }

  /** Two copies of a mention separated by a space are scanned as two tokens. */
  lemma MentionsTwice(m: string)
    requires IsToken(m)
    ensures Mentions(m + " " + m) == [m, m]
  {
    MentionsConcat(m, m);
    MentionsOfToken(m);
  }

  /**
   * The loop handles a repeated pending mention once per occurrence, and
   * each pass wraps every copy again, including the copies already inside
   * a placeholder: two occurrences end up as two doubly nested spans.
   */
  lemma RepeatedPendingMentionNests(users: Users, id: string)
    requires IsId(id) && NameOf(users, id).None?
    ensures var m := Token(id); var p := MentionSpan(id, m);
      BodySpec(users, m + " " + m) == RenderedBody(MentionSpan(id, p) + " " + MentionSpan(id, p), users[id := None])
  {
    var m := Token(id);
    var p := MentionSpan(id, m);
    TokenRoundTrip(id);
    NoBreakInPair(id);
    MentionsTwice(m);
    FirstPendingPass(users, id);
    SecondPendingPass(users[id := None], id);
    TwoPasses(users, m + " " + m, m, p + " " + p, MentionSpan(id, p) + " " + MentionSpan(id, p), users[id := None]);
  }

  /** The body holding a mention twice has no newline. */
  lemma NoBreakInPair(id: string)
    requires IsId(id)
    ensures Br(Token(id) + " " + Token(id)) == Token(id) + " " + Token(id)
  {
    TokenChars(id);
  }

  /** The loop over a body scanned as `[m, m]`. */
  lemma TwoPasses(users: Users, body: string, m: string, h1: string, h2: string, u1: Users)
    requires Br(body) == body && Mentions(body) == [m, m]
    requires ApplyMention(body, users, m) == RenderedBody(h1, u1)
    requires ApplyMention(h1, u1, m) == RenderedBody(h2, u1)
    ensures BodySpec(users, body) == RenderedBody(h2, u1)
  {
    assert ApplyMentions(h1, u1, [m]) == RenderedBody(h2, u1);
    assert [m, m][1..] == [m];
    assert ApplyMentions(body, users, [m, m]) == RenderedBody(h2, u1);
  }

  /** The first pass wraps both copies of a pending mention. */
  lemma FirstPendingPass(users: Users, id: string)
    requires IsId(id) && NameOf(users, id).None?
    ensures var m := Token(id); var p := MentionSpan(id, m);
      ApplyMention(m + " " + m, users, m) == RenderedBody(p + " " + p, users[id := None])
  {
    var m := Token(id);
    PendingPass(m + " " + m, users, id);
    TokenSeparators(id);
    WrapPair(m, " ", MentionSpan(id, m), ':');
  }

  /** A mention text holds a `:` but no space and no newline. */
  lemma TokenSeparators(id: string)
    requires IsId(id)
    ensures ':' in Token(id) && ' ' !in Token(id) && '\n' !in Token(id) && '>' !in Token(id)
  {
    TokenChars(id);
    assert Token(id)[|MentionPrefix| - 1] == ':';
  }

  /** The opening tag holds no `:` (the anchor has none) and ends in `>`. */
  lemma SpanOpenShape(id: string)
    ensures ':' !in SpanOpen(id) && |SpanOpen(id)| > 0 && SpanOpen(id)[|SpanOpen(id)| - 1] == '>'
  {
    var o := SpanOpen(id);
    var a := Anchor(id);
    assert ':' !in a;
    assert o == "<span class=\"mention\" id=\"" + a + "\">";
    forall k | 0 <= k < |o| ensures o[k] != ':' {
      if k < 26 {
        assert o[k] == "<span class=\"mention\" id=\""[k];
      } else if k < 26 + |a| {
        assert o[k] == a[k - 26];
      }
    }
  }

  /** The second pass wraps both placeholders once more, from the inside. */
  lemma SecondPendingPass(users: Users, id: string)
    requires IsId(id) && id in users && users[id] == None
    ensures var m := Token(id); var p := MentionSpan(id, m);
      ApplyMention(p + " " + p, users, m) == RenderedBody(MentionSpan(id, p) + " " + MentionSpan(id, p), users)
  {
    var m := Token(id);
    var p := MentionSpan(id, m);
    PendingAgain(p + " " + p, users, id);
    WrapPlaceholders(id);
  }

  /** A pass for an id already pending leaves the table as it is. */
  lemma PendingAgain(html: string, users: Users, id: string)
    requires IsId(id) && id in users && users[id] == None
    ensures ApplyMention(html, users, Token(id)) ==
      RenderedBody(ReplaceAll(html, Token(id), MentionSpan(id, Token(id))), users)
  {
    PendingPass(html, users, id);
    assert users[id := None] == users;
  }

  /** Replacing a mention by its placeholder inside two placeholders nests each once more. */
  lemma WrapPlaceholders(id: string)
    requires IsId(id)
    ensures var m := Token(id); var p := MentionSpan(id, m);
      ReplaceAll(p + " " + p, m, p) == MentionSpan(id, p) + " " + MentionSpan(id, p)
  {
    var m := Token(id);
    var o := SpanOpen(id);
    TokenSeparators(id);
    SpanOpenShape(id);
    assert ':' !in SpanClose + " ";
    WrapAgain(o, m, SpanClose, " ", ':');
  }

  /** One pass of the loop for a mention whose id has a stored name. */
  lemma CachedPass(html: string, users: Users, id: string, name: string)
    requires IsId(id) && NameOf(users, id) == Some(name)
    ensures ApplyMention(html, users, Token(id)) ==
      RenderedBody(ReplaceAll(html, Token(id), CachedMention(name)), users)
  {
    TokenRoundTrip(id);
  }

  /**
   * A mention repeated while its id has a stored name: the first pass
   * rewrites both copies, and the second finds nothing left to rewrite
   * when the name holds no `:`, which every mention text holds.
   */
  lemma RepeatedCachedMention(users: Users, id: string, name: string)
    requires IsId(id) && NameOf(users, id) == Some(name) && ':' !in name
    ensures var m := Token(id);
      BodySpec(users, m + " " + m) == RenderedBody(CachedMention(name) + " " + CachedMention(name), users)
  {
    var m := Token(id);
    var c := CachedMention(name);
    NoBreakInPair(id);
    MentionsTwice(m);
    FirstCachedPass(users, id, name);
    SecondCachedPass(users, id, name);
    TwoPasses(users, m + " " + m, m, c + " " + c, c + " " + c, users);
  }

  /** The first pass rewrites both copies of a mention with a stored name. */
  lemma FirstCachedPass(users: Users, id: string, name: string)
    requires IsId(id) && NameOf(users, id) == Some(name)
    ensures var m := Token(id); var c := CachedMention(name);
      ApplyMention(m + " " + m, users, m) == RenderedBody(c + " " + c, users)
  {
    var m := Token(id);
    CachedPass(m + " " + m, users, id, name);
    TokenSeparators(id);
    WrapPair(m, " ", CachedMention(name), ':');
  }

  /** The second pass finds no copy left when the name holds no `:`. */
  lemma SecondCachedPass(users: Users, id: string, name: string)
    requires IsId(id) && NameOf(users, id) == Some(name) && ':' !in name
    ensures var m := Token(id); var c := CachedMention(name);
      ApplyMention(c + " " + c, users, m) == RenderedBody(c + " " + c, users)
  {
    var m := Token(id);
    var c := CachedMention(name);
    CachedPass(c + " " + c, users, id, name);
    TokenSeparators(id);
    assert ':' !in c + " " + c;
    AbsentChar(c + " " + c, m, ':');
    ReplaceAllAbsent(c + " " + c, m, c);
  }

  /** One pass of the loop for a mention whose id has no stored name. */
  lemma PendingPass(html: string, users: Users, id: string)
    requires IsId(id) && NameOf(users, id).None?
    ensures ApplyMention(html, users, Token(id)) ==
      RenderedBody(ReplaceAll(html, Token(id), MentionSpan(id, Token(id))), users[id := None])
  {
    TokenRoundTrip(id);
  }
}
