/**
  The collections of every user and the saved items filed in them: the store and its
  constraints, the statements that act on it, the operations built from them, and a
  database that runs each operation as one transaction.

  `norm` stands for the reduction the unique index applies to a name.
*/
module CollectionStore {
  import opened Options
  import opened Text

  type UserId = nat
  // Identifiers; zero is the nil identifier and names nothing.
  type CollectionId = nat
  type ItemId = nat
  type Norm = string -> string

  const NIL: CollectionId := 0
  const UNSORTED := "unsorted"
  const NAME_MAX := 100

  datatype Collection = Collection(owner: UserId, name: string, systemKey: Option<string>)

  datatype Item = Item(owner: UserId, collection: CollectionId)

  datatype Store = Store(users: set<UserId>, collections: map<CollectionId, Collection>, items: map<ItemId, Item>)

  predicate MarksUnsorted(systemKey: Option<string>) {
    systemKey == Some(UNSORTED)
  }

  predicate IsUnsorted(c: Collection) {
    MarksUnsorted(c.systemKey)
  }

  predicate Owns(s: Store, user: UserId, id: CollectionId) {
    id in s.collections && s.collections[id].owner == user
  }

  // ----- constraints -----

  // The composite foreign key: an item's collection exists and has the item's owner.
  ghost predicate ItemsFiled(s: Store) {
    forall i :: i in s.items ==> Owns(s, s.items[i].owner, s.items[i].collection)
  }

  ghost predicate SameName(norm: Norm, a: Collection, b: Collection) {
    a.owner == b.owner && norm(a.name) == norm(b.name)
  }

  ghost predicate NamesUnique(norm: Norm, s: Store) {
    forall a, b | a in s.collections && b in s.collections && SameName(norm, s.collections[a], s.collections[b]) ::
      a == b
  }

  ghost predicate SameSystemKey(a: Collection, b: Collection) {
    a.owner == b.owner && a.systemKey.Some? && a.systemKey == b.systemKey
  }

  ghost predicate SystemKeysUnique(s: Store) {
    forall a, b | a in s.collections && b in s.collections && SameSystemKey(s.collections[a], s.collections[b]) ::
      a == b
  }

  ghost predicate HasUnsorted(s: Store, user: UserId) {
    exists id :: Owns(s, user, id) && IsUnsorted(s.collections[id])
  }

  ghost predicate Valid(norm: Norm, s: Store) {
    && ItemsFiled(s)
    && NamesUnique(norm, s)
    && SystemKeysUnique(s)
    && NIL !in s.collections
    && (forall id :: id in s.collections ==> s.collections[id].owner in s.users)
    && (forall user :: user in s.users ==> HasUnsorted(s, user))
  }

  // ----- statements -----

  predicate Taken(norm: Norm, s: Store, user: UserId, name: string, id: CollectionId) {
    Owns(s, user, id) && norm(s.collections[id].name) == norm(name)
  }

  // Insert unless the name is taken for this user.
  function InsertCollection(s: Store, user: UserId, name: string, id: CollectionId): Store {
    s.(collections := s.collections[id := Collection(user, name, None)])
  }

  // The update of one item; the foreign key decides whether it is accepted.
  function MoveItem(s: Store, item: ItemId, to: CollectionId): Store
    requires item in s.items
  {
    s.(items := s.items[item := s.items[item].(collection := to)])
  }

  // The items of the user filed in the collection.
  function ItemsIn(s: Store, user: UserId, id: CollectionId): set<ItemId> {
    set i | i in s.items && s.items[i].owner == user && s.items[i].collection == id
  }

  function MoveItems(s: Store, user: UserId, from: CollectionId, to: CollectionId): Store {
    s.(items :=
      map i | i in s.items :: if i in ItemsIn(s, user, from) then s.items[i].(collection := to) else s.items[i])
  }

  function DeleteItems(s: Store, user: UserId, from: CollectionId): Store {
    s.(items := map i | i in s.items && i !in ItemsIn(s, user, from) :: s.items[i])
  }

  predicate Referenced(s: Store, id: CollectionId) {
    exists i :: i in s.items && s.items[i].collection == id
  }

  function RemoveCollection(s: Store, id: CollectionId): Store {
    s.(collections := s.collections - {id})
  }

  // ----- operations, as atomic functions of the committed store -----

  datatype Failure =
    | InvalidIntent
    | InvalidName
    | InvalidUrl
    | InvalidAction
    | InvalidTarget
    | ItemNotFound
    | NameAlreadyExists
    | CollectionNotFound
    | TargetNotFound
    | UnsortedProtected
    | CollectionNotEmpty
    | Internal

  datatype PutRequest = PutRequest(user: UserId, item: ItemId, name: string, intent: string)

  datatype PutReport = PutReport(collection: CollectionId, created: bool, already: bool)

  // The submitted name as it is stored, when it may be stored.
  function StoredName(name: string): Result<string, Failure> {
    var trimmed := Trim(name);
    if trimmed == "" || |trimmed| > NAME_MAX then Err(InvalidName) else Ok(trimmed)
  }

  // The collection that holds the name for this user, if any.
  ghost function Holder(norm: Norm, s: Store, user: UserId, name: string): (id: Option<CollectionId>)
    ensures id.Some? ==> Taken(norm, s, user, name, id.value)
    ensures id.None? ==> forall c :: !Taken(norm, s, user, name, c)
  {
    if c :| Taken(norm, s, user, name, c) then Some(c) else None
  }

  ghost function Put(norm: Norm, s: Store, r: PutRequest, newId: CollectionId): (Store, Result<PutReport, Failure>) {
    if r.intent != "existing" && r.intent != "create" then (s, Err(InvalidIntent))
    else if StoredName(r.name).Err? then (s, Err(InvalidName))
    else
      var name := StoredName(r.name).value;
      if r.item !in s.items || s.items[r.item].owner != r.user then (s, Err(ItemNotFound))
      else
        match Holder(norm, s, r.user, name)
        case None =>
          (MoveItem(InsertCollection(s, r.user, name, newId), r.item, newId), Ok(PutReport(newId, true, false)))
        case Some(id) =>
          if r.intent == "create" then (s, Err(NameAlreadyExists))
          else if s.items[r.item].collection == id then (s, Ok(PutReport(id, false, true)))
          else (MoveItem(s, r.item, id), Ok(PutReport(id, false, false)))
  }

  ghost function UnsortedOf(s: Store, user: UserId): (id: Option<CollectionId>)
    ensures id.Some? ==> Owns(s, user, id.value) && IsUnsorted(s.collections[id.value])
    ensures id.None? ==> !HasUnsorted(s, user)
  {
    if c :| Owns(s, user, c) && IsUnsorted(s.collections[c]) then Some(c) else None
  }

  // Saving a URL: a new item in the user's Unsorted collection.
  ghost function Create(s: Store, user: UserId, urlHasHost: bool, newId: ItemId): (Store, Result<ItemId, Failure>) {
    if !urlHasHost then (s, Err(InvalidUrl))
    else
      match UnsortedOf(s, user)
      case None => (s, Err(Internal))
      case Some(id) => (s.(items := s.items[newId := Item(user, id)]), Ok(newId))
  }

  datatype DeleteReport = DeleteReport(collection: CollectionId, empty: bool, deletable: bool)

  function DeleteItem(s: Store, user: UserId, item: ItemId): (Store, Result<DeleteReport, Failure>) {
    if item !in s.items || s.items[item].owner != user then (s, Err(ItemNotFound))
    else
      var id := s.items[item].collection;
      var after := s.(items := s.items - {item});
      var empty := ItemsIn(after, user, id) == {};
      var unsorted := Owns(after, user, id) && IsUnsorted(after.collections[id]);
      (after, Ok(DeleteReport(id, empty, empty && !unsorted)))
  }

  datatype DeleteRequest = DeleteRequest(user: UserId, collection: CollectionId, action: string, target: CollectionId)

  // What the request may not mean, before the store is touched.
  function RefusedRequest(r: DeleteRequest): Option<Failure> {
    if r.action == "delete" then (if r.target != NIL then Some(InvalidTarget) else None)
    else if r.action == "move" then (if r.target == NIL || r.target == r.collection then Some(InvalidTarget) else None)
    else Some(InvalidAction)
  }

  function Dispose(s: Store, r: DeleteRequest): Store {
    if r.action == "move" then MoveItems(s, r.user, r.collection, r.target)
    else DeleteItems(s, r.user, r.collection)
  }

  function DeleteCollection(s: Store, r: DeleteRequest): (Store, Result<(), Failure>) {
    if RefusedRequest(r).Some? then (s, Err(RefusedRequest(r).value))
    else if !Owns(s, r.user, r.collection) then (s, Err(CollectionNotFound))
    else if IsUnsorted(s.collections[r.collection]) then (s, Err(UnsortedProtected))
    else if r.action == "move" && !Owns(s, r.user, r.target) then (s, Err(TargetNotFound))
    else if Referenced(Dispose(s, r), r.collection) then (s, Err(CollectionNotEmpty))
    else (RemoveCollection(Dispose(s, r), r.collection), Ok(()))
  }

  // ----- the database -----

  // A transaction works on a copy; leaving without a commit drops the copy.
  class Database {
    const norm: Norm
    var committed: Store
    var working: Store

    constructor (norm: Norm, s: Store)
      ensures this.norm == norm && committed == s && working == s
    {
      this.norm, committed, working := norm, s, s;
    }

    ghost predicate Sound()
      reads this
    {
      Valid(norm, committed)
    }

    method Begin()
      modifies this`working
      ensures working == committed
    {
      working := committed;
    }

    method Commit()
      modifies this`committed
      ensures committed == working
    {
      committed := working;
    }

    // The insert that returns no row when the name is taken.
    method CreateUserCollection(user: UserId, name: string, newId: CollectionId) returns (inserted: bool)
      modifies this`working
      ensures inserted <==> Holder(norm, old(working), user, name).None?
      ensures working == if inserted then InsertCollection(old(working), user, name, newId) else old(working)
    {
      if exists c | c in working.collections :: Taken(norm, working, user, name, c) {
        return false;
      }
      working := InsertCollection(working, user, name, newId);
      return true;
    }

    method GetUserCollectionByName(user: UserId, name: string) returns (found: Option<CollectionId>)
      requires NamesUnique(norm, working)
      ensures found == Holder(norm, working, user, name)
    {
      if exists c | c in working.collections :: Taken(norm, working, user, name, c) {
        var c :| c in working.collections && Taken(norm, working, user, name, c);
        return Some(c);
      }
      return None;
    }

    method PutSavedItem(r: PutRequest, newId: CollectionId) returns (result: Result<PutReport, Failure>)
      requires Sound() && newId != NIL && newId !in committed.collections
      modifies this
      ensures (committed, result) == Put(norm, old(committed), r, newId)
    {
      if r.intent != "existing" && r.intent != "create" {
        return Err(InvalidIntent);
      }
      var stored := StoredName(r.name);
      if stored.Err? {
        return Err(stored.error);
      }
      Begin();
      if r.item !in working.items || working.items[r.item].owner != r.user {
        return Err(ItemNotFound);
      }
      var locked := working.items[r.item];

      var created := CreateUserCollection(r.user, stored.value, newId);
      var destination := newId;
      if !created {
        if r.intent == "create" {
          return Err(NameAlreadyExists);
        }
        var existing := GetUserCollectionByName(r.user, stored.value);
        if existing.None? {
          return Err(Internal);
        }
        destination := existing.value;
      }
      if locked.collection == destination {
        Commit();
        return Ok(PutReport(destination, created, true));
      }
      working := MoveItem(working, r.item, destination);
      Commit();
      return Ok(PutReport(destination, created, false));
    }

    method CreateSavedItem(user: UserId, urlHasHost: bool, newId: ItemId) returns (result: Result<ItemId, Failure>)
      requires Sound()
      modifies this
      ensures (committed, result) == Create(old(committed), user, urlHasHost, newId)
    {
      if !urlHasHost {
        return Err(InvalidUrl);
      }
      if !exists c | c in committed.collections :: Owns(committed, user, c) && IsUnsorted(committed.collections[c]) {
        return Err(Internal);
      }
      var id :| id in committed.collections && Owns(committed, user, id) && IsUnsorted(committed.collections[id]);
      committed := committed.(items := committed.items[newId := Item(user, id)]);
      return Ok(newId);
    }

    // Three statements of their own: the delete commits before the two that read.
    method DeleteSavedItem(user: UserId, item: ItemId) returns (result: Result<DeleteReport, Failure>)
      modifies this`committed
      ensures (committed, result) == DeleteItem(old(committed), user, item)
    {
      if item !in committed.items || committed.items[item].owner != user {
        return Err(ItemNotFound);
      }
      var id := committed.items[item].collection;
      committed := committed.(items := committed.items - {item});
      var remaining := |ItemsIn(committed, user, id)|;
      var systemKey := if Owns(committed, user, id) then committed.collections[id].systemKey else None;
      var empty := remaining == 0;
      return Ok(DeleteReport(id, empty, empty && !MarksUnsorted(systemKey)));
    }

    method DeleteUserCollection(r: DeleteRequest) returns (result: Result<(), Failure>)
      requires Sound()
      modifies this
      ensures (committed, result) == DeleteCollection(old(committed), r)
    {
      var refused := RefusedRequest(r);
      if refused.Some? {
        return Err(refused.value);
      }
      Begin();
      if !Owns(working, r.user, r.collection) {
        return Err(CollectionNotFound);
      }
      if IsUnsorted(working.collections[r.collection]) {
        return Err(UnsortedProtected);
      }
      if r.action == "move" && !Owns(working, r.user, r.target) {
        return Err(TargetNotFound);
      }
      working := if r.action == "move" then MoveItems(working, r.user, r.collection, r.target)
                 else DeleteItems(working, r.user, r.collection);
      if exists i | i in working.items :: working.items[i].collection == r.collection {
        return Err(CollectionNotEmpty);
      }
      working := RemoveCollection(working, r.collection);
      Commit();
      return Ok(());
    }
  }
}
