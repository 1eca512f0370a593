/**
 * The browser's persistent `localStorage`, which holds the logged-in
 * session under the two keys `userRole` and `username`.
 */
module Session {
  import opened Wrappers

  const UserRoleKey := "userRole"
  const UsernameKey := "username"

  /** A store of string values under string keys. */
  class SessionStore {
    var items: map<string, string>

    constructor (initial: map<string, string>)
      ensures items == initial
    {
      items := initial;
    }

    /** `getItem(key)`: the stored value, or `None` for `null`. */
    function GetItem(key: string): Option<string>
      reads this
    {
      if key in items then Some(items[key]) else None
    }

    /** `setItem(key, value)`: stores `value` under `key`, keeping every other entry. */
    method SetItem(key: string, value: string)
      modifies this
      ensures items == old(items)[key := value]
      ensures GetItem(key) == Some(value)
      ensures forall k :: k != key ==> GetItem(k) == old(GetItem(k))
    {
      items := items[key := value];
    }

    /** `removeItem(key)`: drops the entry under `key`, keeping every other entry. */
    method RemoveItem(key: string)
      modifies this
      ensures items == old(items) - {key}
      ensures GetItem(key) == None
      ensures forall k :: k != key ==> GetItem(k) == old(GetItem(k))
    {
      items := items - {key};
    }
  }

  /** `!value` for what `getItem` returns: `null` or the empty string. */
  predicate IsFalsy(v: Option<string>) {
    v.None? || v.value == ""
  }
}
