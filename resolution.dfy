/**
 * The resolution step of `replaceMentions`: once the user lookup for an
 * account id answers, the name is stored and every element carrying the
 * id's anchor has `accountid:<id>` rewritten to the name. The document
 * is a flat array of elements (id attribute and inner HTML).
 */
module Resolution {
  import opened Wrappers
  import opened JsString
  import opened Patterns
  import opened IdentityCache
  import opened Render

  /** The text `replaceAll` looks for inside a placeholder of `key`. */
  function AccountText(key: string): string {
    "accountid:" + key
  }

  /**
   * One element after `key` resolved to `name`: only elements carrying the
   * key's anchor are rewritten, and a placeholder for the key reads `[~<name>]`.
   */
  function ResolveElement(e: Element, key: string, name: string): (r: Element)
    ensures r.id == e.id
    ensures e.id != Anchor(key) ==> r == e
    ensures e.id == Anchor(key) ==> r.text == ReplaceAll(e.text, AccountText(key), name)
    ensures e == Element(Anchor(key), Token(key)) ==> r == Element(Anchor(key), CachedMention(name))
  {
    ResolveToken(key, name);
    if e.id == Anchor(key) then Element(e.id, ReplaceAll(e.text, AccountText(key), name)) else e
  }

  /**
   * The whole document after `key` resolved to `name`: every element keeps
   * its id, elements without the key's anchor are untouched, and the
   * placeholders for the key now read `[~<name>]`.
   */
  function ResolvedDoc(doc: seq<Element>, key: string, name: string): (r: seq<Element>)
    ensures |r| == |doc|
    ensures forall k :: 0 <= k < |doc| ==> r[k].id == doc[k].id
    ensures forall k :: 0 <= k < |doc| && doc[k].id != Anchor(key) ==> r[k] == doc[k]
    ensures forall k :: 0 <= k < |doc| && doc[k].id == Anchor(key) ==> r[k].text == ReplaceAll(doc[k].text, AccountText(key), name)
    ensures forall k :: 0 <= k < |doc| && doc[k] == Element(Anchor(key), Token(key)) ==> r[k] == Element(Anchor(key), CachedMention(name))
  {
    seq(|doc|, k requires 0 <= k < |doc| => ResolveElement(doc[k], key, name))
  }

  /**
   * The callback of one lookup (lines 124-133): store the name, then
   * rewrite the matching elements one after the other.
   */
  method ResolveUser(cache: UserCache, doc: array<Element>, key: string, name: string)
    modifies cache, doc
    ensures cache.users == old(cache.users)[key := Some(name)]
    ensures doc[..] == ResolvedDoc(old(doc[..]), key, name)
  {
    cache.Store(key, name);
    var i := 0;
    while i < doc.Length
      invariant i <= doc.Length
      invariant cache.users == old(cache.users)[key := Some(name)]
      invariant forall k :: 0 <= k < i ==> doc[k] == ResolveElement(old(doc[k]), key, name)
      invariant forall k :: i <= k < doc.Length ==> doc[k] == old(doc[k])
    {
      var e := doc[i];
      if e.id == Anchor(key) {
        doc[i] := Element(e.id, ReplaceAll(e.text, AccountText(key), name));
      }
      i := i + 1;
    }
  }

  /** Every token is the mention text of the id it captures. */
  lemma TokenOfId(m: string)
    requires IsToken(m)
    ensures Token(TokenId(m)) == m
  {
    assert m == m[..|MentionPrefix|] + m[|MentionPrefix|..|m| - 1] + [m[|m| - 1]];
  }

  /** The placeholder text `[~accountid:<key>]` becomes `[~<name>]`. */
  lemma ResolveToken(key: string, name: string)
    ensures ReplaceAll(Token(key), AccountText(key), name) == CachedMention(name)
  {
    var pat := AccountText(key);
    var t := pat + "]";
    assert Token(key) == "[~" + t;
    forall i | 0 <= i < 2 ensures !OccursAt("[~" + t, pat, i) {
      assert ("[~" + t)[i] != pat[0];
    }
    ReplaceAllSkip("[~", t, pat, name);
    ReplaceAllHead(pat, "]", name);
  }

  /**
   * A mention placeholder, once its id resolves, reads exactly as the
   * cached path would have rendered the mention: `[~<name>]`.
   */
  lemma MentionPlaceholderResolves(users: Users, m: string, name: string)
    requires IsToken(m)
    ensures var id := TokenId(m);
      && ResolveElement(Element(Anchor(id), m), id, name) == Element(Anchor(id), CachedMention(name))
      && ApplyMention(m, users[id := Some(name)], m).html == CachedMention(name)
  {
    var id := TokenId(m);
    TokenOfId(m);
    ResolveToken(id, name);
    CaptureOfToken(m);
    assert m + [] == m;
    ReplaceAllHead(m, [], CachedMention(name));
  }

  /**
   * An author placeholder resolves to `[~<name>]`, while an author whose
   * name was already stored is labelled with the bare name: the two paths
   * disagree.
   */
  lemma AuthorPlaceholderResolves(users: Users, authorId: string, name: string)
    requires NameOf(users, authorId).None?
    ensures var a := AuthorSpec(users, authorId);
      ResolveElement(a.node, authorId, name) == Element(Anchor(authorId), CachedMention(name))
    ensures AuthorSpec(users[authorId := Some(name)], authorId).node == Element(Anchor(authorId), name)
    ensures CachedMention(name) != name
  {
    ResolveToken(authorId, name);
  }
}
