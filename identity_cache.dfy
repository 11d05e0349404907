/**
 * The panel's `users` table: account id to display name. A present id
 * without a name (`null`) is one waiting for its lookup.
 */
module IdentityCache {
  import opened Wrappers

  /** `Some(name)` for a resolved id; `None` for an id marked pending. */
  type Users = map<string, Option<string>>

  /** `users[id]` read as the panel's `users[id] != null` test sees it. */
  function NameOf(users: Users, id: string): Option<string> {
    if id in users then users[id] else None
  }

  /** Every stored name in `u` is still there, unchanged, in `u'`. */
  predicate KeepsNames(u: Users, u': Users) {
    forall k :: k in u && u[k].Some? ==> k in u' && u'[k] == u[k]
  }

  /**
   * `u'` arises from `u` by marking ids pending only: no key disappears,
   * no name is touched, and every new or changed entry is pending.
   */
  predicate OnlyMarksPending(u: Users, u': Users) {
    && u.Keys <= u'.Keys
    && KeepsNames(u, u')
    && forall k :: k in u' && (k !in u || u'[k] != u[k]) ==> u'[k] == None
  }

  lemma OnlyMarksPendingTransitive(u: Users, v: Users, w: Users)
    requires OnlyMarksPending(u, v) && OnlyMarksPending(v, w)
    ensures OnlyMarksPending(u, w)
  {
  }

  class UserCache {
    var users: Users

    constructor ()
      ensures users == map[]
    {
      users := map[];
    }

    /** `users[id] = null` (lines 215 and 248), only ever reached for an id without a name. */
    method MarkPending(id: string)
      requires NameOf(users, id).None?
      modifies this
      ensures users == old(users)[id := None]
      ensures OnlyMarksPending(old(users), users)
    {
      users := users[id := None];
    }

    /** `users[key] = name` once a lookup has answered (line 125). */
    method Store(id: string, name: string)
      modifies this
      ensures users == old(users)[id := Some(name)]
      ensures forall k :: k != id ==> NameOf(users, k) == NameOf(old(users), k)
    {
      users := users[id := Some(name)];
    }
  }
}
