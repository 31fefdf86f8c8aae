/** The note routes (routers/note.py): listing a store's notes and adding one.
    Every route receives the user `get_active_user_required` resolved. */
module NoteRoutes {
  import opened Base
  import opened Tables
  import opened Auth

  const NoWriteAccess := "User does not have write access to this store."

  /** The membership gate: any permission lets a member read. */
  predicate IsMember(store: StoreRecord, user: User)
  {
    user.username in store.members
  }

  /** The write gate: a member whose permission is not `read`. */
  predicate CanWrite(store: StoreRecord, user: User)
  {
    user.username in store.members && store.members[user.username] != Read
  }

  /** Owners and writers may write; readers may not; writing implies reading. */
  lemma WriteGate(store: StoreRecord, user: User)
    ensures CanWrite(store, user) ==> IsMember(store, user)
    ensures IsMember(store, user) ==> (CanWrite(store, user) <==> store.members[user.username] in {Owner, Write})
  {
  }

  /** A store's items as a list: `[]` when the field is null. */
  function ItemsOf(store: StoreRecord): (items: seq<Note>)
    ensures store.items.Some? ==> items == store.items.value
    ensures store.items.None? ==> items == []
  {
    match store.items
    case None => []
    case Some(items) => items
  }

  /** `list_notes`: the missing store is reported first, then a non-member;
      any member, `read` included, gets the items. Nothing is written. */
  function ListNotes(stores: Stores, user: User, storeUuid: string): (r: Response<seq<Note>>)
    ensures storeUuid !in stores ==> r == Err(BadRequest, StoreMissing)
    ensures storeUuid in stores && !IsMember(stores[storeUuid], user) ==> r == Err(BadRequest, NoAccess)
    ensures r.Ok? <==> storeUuid in stores && IsMember(stores[storeUuid], user)
    ensures r.Ok? ==> r.value == ItemsOf(stores[storeUuid])
    ensures !r.Crash?
  {
    if storeUuid !in stores then Err(BadRequest, StoreMissing)
    else if user.username !in stores[storeUuid].members then Err(BadRequest, NoAccess)
    else Ok(ItemsOf(stores[storeUuid]))
  }

  /** A `read` member can list a store's notes but not add one. */
  lemma ReaderCanListButNotWrite(stores: Stores, user: User, storeUuid: string)
    requires storeUuid in stores && user.username in stores[storeUuid].members
    requires stores[storeUuid].members[user.username] == Read
    ensures ListNotes(stores, user, storeUuid).Ok?
    ensures !CanWrite(stores[storeUuid], user)
  {
  }

  /** `new_note`: `freshId` is the generated `uuid4().hex`. On success the note
      `{id, note}` is appended to the items (which start as a one-element list
      when the field was null), and its id is returned. */
  method NewNote(db: Database, user: User, storeUuid: string, note: map<string, string>, freshId: string)
    returns (r: Response<string>)
    requires db.Valid()
    modifies db
    ensures db.Valid()
    ensures db.users == old(db.users)
    ensures storeUuid !in old(db.stores) ==> r == Err(BadRequest, StoreMissing) && unchanged(db)
    ensures storeUuid in old(db.stores) && !CanWrite(old(db.stores[storeUuid]), user) ==>
              r == Err(BadRequest, NoWriteAccess) && unchanged(db)
    ensures storeUuid in old(db.stores) && CanWrite(old(db.stores[storeUuid]), user) ==>
              && r == Ok(freshId)
              && db.stores == old(db.stores)[storeUuid := old(db.stores[storeUuid]).(items :=
                                Some(ItemsOf(old(db.stores[storeUuid])) + [Note(freshId, note)]))]
              && var items := db.stores[storeUuid].items.value;
                 |items| > 0 && items[|items| - 1].id == r.value
  {
    if storeUuid !in db.stores {
      return Err(BadRequest, StoreMissing);
    }
    var store := db.stores[storeUuid];
    if user.username !in store.members || store.members[user.username] == Read {
      return Err(BadRequest, NoWriteAccess);
    }
    var noteObject := Note(freshId, note);
    if store.items.None? {
      assert ItemsOf(store) + [noteObject] == [noteObject];
      db.stores := db.stores[storeUuid := store.(items := Some([noteObject]))];
    } else {
      db.stores := db.stores[storeUuid := store.(items := Some(store.items.value + [noteObject]))];
    }
    r := Ok(freshId);
  }
}
