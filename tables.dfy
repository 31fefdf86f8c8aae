/** The two tables of the hosted key-value store, as sequential in-memory maps:
    `users` (username to record) and `stores` (store uuid to record). */
module Tables {
  import opened Base
  import Dict

  /** The permission a member holds on a store (`{"permissions": ...}`). */
  datatype Permission = Owner | Write | Read

  /** A note as stored in a store's `items` list: a generated id and the
      client's document. */
  datatype Note = Note(id: string, note: map<string, string>)

  /** A `users` record: the password hash and the user's shortcut dict, which
      maps each shortcut the user chose to a store uuid. */
  datatype UserRecord = UserRecord(password: string, stores: Dict.Dict<string, string>)

  /** A `stores` record. `items` may be null in the table, hence the Option. */
  datatype StoreRecord = StoreRecord(view: string, items: Option<seq<Note>>, members: map<string, Permission>)

  type Users = map<string, UserRecord>
  type Stores = map<string, StoreRecord>

  /** The two messages of the store lookup and membership checks that the
      store and note routes share. */
  const StoreMissing := "Store does not exist."
  const NoAccess := "User does not have access to this store."

  /** A store with no members does not exist: it is deleted with its last member. */
  ghost predicate NoEmptyStore(stores: Stores)
  {
    forall s :: s in stores ==> stores[s].members != map[]
  }

  /** Every member of a store is a user. */
  ghost predicate MembersAreUsers(users: Users, stores: Stores)
  {
    forall s, u :: s in stores && u in stores[s].members ==> u in users
  }

  /** Each user's shortcut dict is a dict in which no store has two shortcuts. */
  ghost predicate ShortcutDictsWellFormed(users: Users)
  {
    forall u :: u in users ==> Dict.UniqueKeys(users[u].stores) && Dict.DistinctValues(users[u].stores)
  }

  /** Every shortcut names an existing store of which its user is a member:
      no shortcut dangles. */
  ghost predicate ShortcutsAreMemberships(users: Users, stores: Stores)
  {
    forall u, s :: u in users && Dict.HasValue(users[u].stores, s) ==> s in stores && u in stores[s].members
  }

  /** The shape every route keeps. */
  ghost predicate Consistent(users: Users, stores: Stores)
  {
    && NoEmptyStore(stores)
    && MembersAreUsers(users, stores)
    && ShortcutDictsWellFormed(users)
    && ShortcutsAreMemberships(users, stores)
  }

  /** Both tables, updated by the routes in sequence. */
  class Database {
    var users: Users
    var stores: Stores

    ghost predicate Valid()
      reads this
    {
      Consistent(users, stores)
    }

    constructor ()
      ensures Valid()
      ensures users == map[] && stores == map[]
    {
      users := map[];
      stores := map[];
    }
  }
}
