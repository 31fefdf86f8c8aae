/** The store routes (routers/store.py): listing a user's stores, creating a
    store, renaming a shortcut, and leaving or deleting a store. Every route
    receives the user `get_active_user_required` resolved. */
module StoreRoutes {
  import opened Base
  import Dict
  import opened Tables
  import opened Auth

  const ShortcutTaken := "Store with this shortcut already exists."
  const StoreNotHeld := "User does not have this store."
  const NotOwner := "Only store owner can delete for all store members."

  /** One entry of the `/list` answer: `{"uuid": ..., "view": ...}`. */
  datatype StoreSummary = StoreSummary(uuid: string, view: string)

  /** A user's shortcut dict once `_delete_store_user` has dropped the first
      shortcut pointing at `uuid` (if any). */
  function WithoutStore(d: Dict.Dict<string, string>, uuid: string): (r: Dict.Dict<string, string>)
    ensures Dict.FirstKeyOf(d, uuid).None? ==> r == d
    ensures Dict.FirstKeyOf(d, uuid).Some? ==> |r| == |d| - 1
    ensures Dict.FirstKeyOf(d, uuid).Some? ==>
              var i := Dict.KeyIndex(d, Dict.FirstKeyOf(d, uuid).value);
              r == d[..i] + d[i + 1..] && (Dict.UniqueKeys(d) ==> d[i].1 == uuid)
    ensures Dict.UniqueKeys(d) ==>
              forall k :: Dict.Get(r, k) == if Some(k) == Dict.FirstKeyOf(d, uuid) then None else Dict.Get(d, k)
    ensures forall w :: Dict.HasValue(r, w) ==> Dict.HasValue(d, w)
    ensures Dict.UniqueKeys(d) && Dict.DistinctValues(d) ==>
              Dict.UniqueKeys(r) && Dict.DistinctValues(r) && !Dict.HasValue(r, uuid)
  {
    match Dict.FirstKeyOf(d, uuid)
    case None => d
    case Some(k) =>
      if Dict.UniqueKeys(d) && Dict.DistinctValues(d) then
        Dict.RemoveDropsValue(d, k, uuid);
        Dict.Remove(d, k)
      else
        Dict.Remove(d, k)
  }

  /** The `stores` table once `username` has left store `uuid`: the member is
      gone, and the store with it when nobody is left. */
  function RemoveMember(stores: Stores, uuid: string, username: string): (r: Stores)
    requires uuid in stores
    ensures r - {uuid} == stores - {uuid}
    ensures uuid in r <==> stores[uuid].members.Keys - {username} != {}
    ensures uuid in r ==> r[uuid] == stores[uuid].(members := stores[uuid].members - {username})
    ensures uuid in r ==> r[uuid].members.Keys == stores[uuid].members.Keys - {username}
  {
    var members := stores[uuid].members - {username};
    if members == map[] then
      assert members.Keys == {};
      stores - {uuid}
    else
      assert members.Keys != {} by {
        var x :| x in members;
      }
      stores[uuid := stores[uuid].(members := members)]
  }

  /** Creating a store keeps the tables consistent. */
  lemma NewStoreKeepsConsistent(users: Users, stores: Stores, username: string, shortcut: string,
                                uuid: string, view: string)
    requires Consistent(users, stores)
    requires username in users && !Dict.HasKey(users[username].stores, shortcut)
    requires uuid !in stores
    ensures Consistent(users[username := users[username].(stores := Dict.Set(users[username].stores, shortcut, uuid))],
                       stores[uuid := StoreRecord(view, Some([]), map[username := Owner])])
  {
    var d := users[username].stores;
    assert !Dict.HasValue(d, uuid);
    var users' := users[username := users[username].(stores := Dict.Set(d, shortcut, uuid))];
    var stores' := stores[uuid := StoreRecord(view, Some([]), map[username := Owner])];
    assert NoEmptyStore(stores') by {
      assert username in stores'[uuid].members;
    }
    assert MembersAreUsers(users', stores');
    assert ShortcutDictsWellFormed(users');
    forall u, s | u in users' && Dict.HasValue(users'[u].stores, s)
      ensures s in stores' && u in stores'[s].members
    {
      if u == username && s != uuid {
        assert Dict.HasValue(d, s);
      }
    }
  }

  /** Renaming a shortcut keeps the tables consistent. */
  lemma RenameKeepsConsistent(users: Users, stores: Stores, username: string, previous: string,
                              shortcut: string, uuid: string)
    requires Consistent(users, stores)
    requires username in users && Dict.Get(users[username].stores, previous) == Some(uuid)
    ensures Dict.HasKey(users[username].stores, previous)
    ensures Consistent(users[username := users[username].(stores :=
                         Dict.Set(Dict.Remove(users[username].stores, previous), shortcut, uuid))], stores)
  {
    var d := users[username].stores;
    Dict.RemoveDropsValue(d, previous, uuid);
    assert Dict.HasValue(d, uuid);
  }

  /** A member leaving a store keeps the tables consistent. */
  lemma LeaveKeepsConsistent(users: Users, stores: Stores, uuid: string, username: string)
    requires Consistent(users, stores)
    requires uuid in stores && username in stores[uuid].members
    ensures username in users
    ensures Consistent(users[username := DropShortcut(users[username], uuid)], RemoveMember(stores, uuid, username))
  {
    LeaveKeepsShortcuts(users, stores, uuid, username);
  }

  lemma LeaveKeepsShortcuts(users: Users, stores: Stores, uuid: string, username: string)
    requires Consistent(users, stores)
    requires uuid in stores && username in stores[uuid].members
    ensures username in users
    ensures ShortcutsAreMemberships(users[username := DropShortcut(users[username], uuid)],
                                    RemoveMember(stores, uuid, username))
  {
    var users' := users[username := DropShortcut(users[username], uuid)];
    var stores' := RemoveMember(stores, uuid, username);
    forall u, s | u in users' && Dict.HasValue(users'[u].stores, s)
      ensures s in stores' && u in stores'[s].members
    {
      if u == username {
        assert s != uuid;
      } else if s == uuid {
        assert u in stores[uuid].members.Keys - {username};
      }
    }
  }

  /** `list_stores`: for each of the user's shortcuts, in order, the store's
      uuid and view. The consistency invariant rules out a shortcut to a
      missing store, on which the code would raise. */
  method ListStores(db: Database, user: User) returns (r: Response<Dict.Dict<string, StoreSummary>>)
    requires db.Valid()
    ensures user.username !in db.users ==> r == Crash
    ensures user.username in db.users ==>
              var d := db.users[user.username].stores;
              r.Ok? && |r.value| == |d| &&
              forall i :: 0 <= i < |d| ==>
                d[i].1 in db.stores && r.value[i] == (d[i].0, StoreSummary(d[i].1, db.stores[d[i].1].view))
  {
    if user.username !in db.users {
      return Crash;
    }
    var d := db.users[user.username].stores;
    var returned: Dict.Dict<string, StoreSummary> := [];
    for i := 0 to |d|
      invariant |returned| == i
      invariant forall j :: 0 <= j < i ==>
                  d[j].1 in db.stores && returned[j] == (d[j].0, StoreSummary(d[j].1, db.stores[d[j].1].view))
    {
      Dict.HasValueAt(d, i);
      if Dict.HasKey(returned, d[i].0) {
        var j := Dict.HasKeyAt(returned, d[i].0);
        Dict.UniqueKeysAt(d, j, i);
      }
      returned := Dict.Set(returned, d[i].0, StoreSummary(d[i].1, db.stores[d[i].1].view));
    }
    r := Ok(returned);
  }

  /** `new_store`: `freshUuid` is the generated `uuid4().hex`. */
  method NewStore(db: Database, user: User, view: string, shortcut: string, freshUuid: string)
    returns (r: Response<string>)
    requires db.Valid()
    requires freshUuid !in db.stores
    modifies db
    ensures db.Valid()
    ensures user.username !in old(db.users) ==> r == Crash && unchanged(db)
    ensures user.username in old(db.users) && Dict.HasKey(old(db.users[user.username].stores), shortcut) ==>
              r == Err(BadRequest, ShortcutTaken) && unchanged(db)
    ensures user.username in old(db.users) && !Dict.HasKey(old(db.users[user.username].stores), shortcut) ==>
              && r == Ok(freshUuid)
              && db.users == old(db.users)[user.username := old(db.users[user.username]).(stores :=
                               old(db.users[user.username].stores) + [(shortcut, freshUuid)])]
              && (forall k :: Dict.Get(db.users[user.username].stores, k) ==
                                if k == shortcut then Some(freshUuid) else Dict.Get(old(db.users[user.username].stores), k))
              && db.stores == old(db.stores)[freshUuid := StoreRecord(view, Some([]), map[user.username := Owner])]
  {
    if user.username !in db.users {
      return Crash;
    }
    var userStores := db.users[user.username].stores;
    if Dict.HasKey(userStores, shortcut) {
      return Err(BadRequest, ShortcutTaken);
    }
    NewStoreKeepsConsistent(db.users, db.stores, user.username, shortcut, freshUuid, view);
    userStores := Dict.Set(userStores, shortcut, freshUuid);
    db.users := db.users[user.username := db.users[user.username].(stores := userStores)];
    db.stores := db.stores[freshUuid := StoreRecord(view, Some([]), map[user.username := Owner])];
    r := Ok(freshUuid);
  }

  /** `edit_store_shortcut`: the first shortcut pointing at `storeUuid` is
      dropped and `shortcut` is set to `storeUuid`, overwriting whatever
      `shortcut` held before. */
  method EditStoreShortcut(db: Database, user: User, storeUuid: string, shortcut: string)
    returns (r: Response<()>)
    requires db.Valid()
    modifies db
    ensures db.Valid()
    ensures db.stores == old(db.stores)
    ensures user.username !in old(db.users) ==> r == Crash && unchanged(db)
    ensures user.username in old(db.users) && !Dict.HasValue(old(db.users[user.username].stores), storeUuid) ==>
              r == Err(BadRequest, StoreNotHeld) && unchanged(db)
    ensures user.username in old(db.users) && Dict.HasValue(old(db.users[user.username].stores), storeUuid) ==>
              var d := old(db.users[user.username].stores);
              var first := Dict.FirstKeyOf(d, storeUuid).value;
              && r == Ok(())
              && db.users == old(db.users)[user.username := old(db.users[user.username]).(stores :=
                               Dict.Set(Dict.Remove(d, first), shortcut, storeUuid))]
              && forall k :: Dict.Get(db.users[user.username].stores, k) ==
                               if k == shortcut then Some(storeUuid) else if k == first then None else Dict.Get(d, k)
  {
    if user.username !in db.users {
      return Crash;
    }
    var userStores := db.users[user.username].stores;
    var i := Dict.FindFirstWithValue(userStores, storeUuid);
    if i == |userStores| {
      return Err(BadRequest, StoreNotHeld);
    }
    var existing := userStores[i].0;
    RenameKeepsConsistent(db.users, db.stores, user.username, existing, shortcut, storeUuid);
    var trimmed := Dict.Remove(userStores, existing);
    db.users := db.users[user.username := db.users[user.username].(stores := trimmed)];
    db.users := db.users[user.username := db.users[user.username].(stores := Dict.Set(trimmed, shortcut, storeUuid))];
    r := Ok(());
  }

  /** `_delete_store_user`: `username` leaves store `uuid`; the store is deleted
      when that leaves it without members; the first of the user's shortcuts
      pointing at the store is dropped. */
  method DeleteStoreUser(db: Database, uuid: string, username: string)
    requires db.Valid()
    requires uuid in db.stores && username in db.stores[uuid].members
    modifies db
    ensures db.Valid()
    ensures username in old(db.users)
    ensures db.stores == RemoveMember(old(db.stores), uuid, username)
    ensures db.users == old(db.users)[username := DropShortcut(old(db.users[username]), uuid)]
  {
    LeaveKeepsConsistent(db.users, db.stores, uuid, username);
    ghost var before := db.stores;
    var storeData := db.stores[uuid];
    var members := storeData.members - {username};
    db.stores := db.stores[uuid := storeData.(members := members)];
    if members == map[] {
      db.stores := db.stores - {uuid};
    }
    assert db.stores == RemoveMember(before, uuid, username);

    var userStores := db.users[username].stores;
    var i := Dict.FindFirstWithValue(userStores, uuid);
    if i < |userStores| {
      userStores := Dict.Remove(userStores, userStores[i].0);
    }
    db.users := db.users[username := db.users[username].(stores := userStores)];
  }

  /** A user's record once `_delete_store_user` has dropped its first
      shortcut to `uuid`. */
  function DropShortcut(rec: UserRecord, uuid: string): (r: UserRecord)
    ensures r.password == rec.password
    ensures r.stores == WithoutStore(rec.stores, uuid)
  {
    rec.(stores := WithoutStore(rec.stores, uuid))
  }

  /** Where the `delete_for_all` loop stands: the members of `snapshot` not in
      `remaining` have left store `uuid` and dropped their shortcut to it; the
      store is gone once nobody remains; nothing else has changed. */
  ghost predicate Clearing(users: Users, stores: Stores, users0: Users, stores0: Stores,
                           uuid: string, snapshot: set<string>, remaining: set<string>)
  {
    && remaining <= snapshot
    && stores - {uuid} == stores0 - {uuid}
    && (remaining != {} ==> uuid in stores && stores[uuid].members.Keys == remaining)
    && (remaining == {} ==> uuid !in stores)
    && users.Keys == users0.Keys
    && forall x :: x in users ==>
         users[x] == if x in snapshot && x !in remaining then DropShortcut(users0[x], uuid) else users0[x]
  }

  /** One more member leaving moves the loop one step on. */
  lemma ClearingStep(users: Users, stores: Stores, users0: Users, stores0: Stores,
                     uuid: string, snapshot: set<string>, remaining: set<string>, username: string)
    requires Clearing(users, stores, users0, stores0, uuid, snapshot, remaining)
    requires username in remaining && username in users
    ensures uuid in stores
    ensures Clearing(users[username := DropShortcut(users[username], uuid)],
                     RemoveMember(stores, uuid, username),
                     users0, stores0, uuid, snapshot, remaining - {username})
  {
  }

  /** When nobody remains, the store is gone and exactly the snapshot's
      members have dropped their shortcut to it. */
  lemma ClearingDone(users: Users, stores: Stores, users0: Users, stores0: Stores, uuid: string)
    requires uuid in stores0
    requires Clearing(users, stores, users0, stores0, uuid, stores0[uuid].members.Keys, {})
    ensures stores == stores0 - {uuid}
    ensures users == map x | x in users0 ::
                       if x in stores0[uuid].members then DropShortcut(users0[x], uuid) else users0[x]
  {
  }

  /** The loop of `delete_store` with `delete_for_all`: every member of the
      snapshot `members.copy()` leaves, one `_delete_store_user` at a time. */
  method RemoveAllMembers(db: Database, storeUuid: string)
    requires db.Valid()
    requires storeUuid in db.stores
    modifies db
    ensures db.Valid()
    ensures Clearing(db.users, db.stores, old(db.users), old(db.stores), storeUuid, old(db.stores[storeUuid].members.Keys), {})
  {
    var storeData := db.stores[storeUuid];
    ghost var oldUsers := db.users;
    ghost var oldStores := db.stores;
    var snapshot := storeData.members.Keys;
    var remaining := snapshot;
    assert remaining != {} by {
      var x :| x in storeData.members;
    }
    while remaining != {}
      invariant db.Valid()
      invariant Clearing(db.users, db.stores, oldUsers, oldStores, storeUuid, snapshot, remaining)
      decreases remaining
    {
      var username :| username in remaining;
      ClearingStep(db.users, db.stores, oldUsers, oldStores, storeUuid, snapshot, remaining, username);
      DeleteStoreUser(db, storeUuid, username);
      remaining := remaining - {username};
    }
  }

  /** `delete_store`. The checks come in this order: the store exists, the
      user is a member, and for `deleteForAll` the user is its owner; each
      failure changes nothing. With `deleteForAll` every member of the
      snapshot taken before the loop leaves (in any order: the result is the
      same) and the store is gone; without it only the user leaves. */
  method DeleteStore(db: Database, user: User, storeUuid: string, deleteForAll: bool)
    returns (r: Response<()>)
    requires db.Valid()
    modifies db
    ensures db.Valid()
    ensures storeUuid !in old(db.stores) ==> r == Err(BadRequest, StoreMissing) && unchanged(db)
    ensures storeUuid in old(db.stores) && user.username !in old(db.stores[storeUuid].members) ==>
              r == Err(BadRequest, NoAccess) && unchanged(db)
    ensures storeUuid in old(db.stores) && user.username in old(db.stores[storeUuid].members) &&
            deleteForAll && old(db.stores[storeUuid].members[user.username]) != Owner ==>
              r == Err(BadRequest, NotOwner) && unchanged(db)
    ensures storeUuid in old(db.stores) && user.username in old(db.stores[storeUuid].members) &&
            deleteForAll && old(db.stores[storeUuid].members[user.username]) == Owner ==>
              && r == Ok(())
              && db.stores == old(db.stores) - {storeUuid}
              && db.users == (map x | x in old(db.users) ::
                                if x in old(db.stores[storeUuid].members)
                                then DropShortcut(old(db.users[x]), storeUuid)
                                else old(db.users[x]))
              && forall x :: x in db.users ==> !Dict.HasValue(db.users[x].stores, storeUuid)
    ensures storeUuid in old(db.stores) && user.username in old(db.stores[storeUuid].members) && !deleteForAll ==>
              && r == Ok(())
              && db.stores == RemoveMember(old(db.stores), storeUuid, user.username)
              && (storeUuid in db.stores <==> old(db.stores[storeUuid].members).Keys != {user.username})
              && db.users == old(db.users)[user.username := DropShortcut(old(db.users[user.username]), storeUuid)]
  {
    if storeUuid !in db.stores {
      return Err(BadRequest, StoreMissing);
    }
    var storeData := db.stores[storeUuid];
    if user.username !in storeData.members {
      return Err(BadRequest, NoAccess);
    }
    if deleteForAll {
      if storeData.members[user.username] != Owner {
        return Err(BadRequest, NotOwner);
      }
      RemoveAllMembers(db, storeUuid);
      ClearingDone(db.users, db.stores, old(db.users), old(db.stores), storeUuid);
    } else {
      DeleteStoreUser(db, storeUuid, user.username);
    }
    r := Ok(());
  }
}
