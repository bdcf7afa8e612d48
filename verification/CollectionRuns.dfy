/** What the operations on collections and saved items keep, one by one and over whole runs. */
module CollectionRuns {
  import opened Options
  import opened Text
  import opened CollectionStore

  // ----- every operation keeps the constraints -----

  lemma MovingKeepsValid(norm: Norm, s: Store, item: ItemId, to: CollectionId)
    requires Valid(norm, s) && item in s.items && Owns(s, s.items[item].owner, to)
    ensures Valid(norm, MoveItem(s, item, to))
  {
    var after := MoveItem(s, item, to);
    forall user | user in after.users ensures HasUnsorted(after, user) {
      assert HasUnsorted(s, user);
    }
  }

  lemma InsertingKeepsNames(norm: Norm, s: Store, user: UserId, name: string, newId: CollectionId)
    requires NamesUnique(norm, s) && newId !in s.collections && Holder(norm, s, user, name).None?
    ensures NamesUnique(norm, InsertCollection(s, user, name, newId))
  {
    var after := InsertCollection(s, user, name, newId);
    forall a, b | a in after.collections && b in after.collections
                  && SameName(norm, after.collections[a], after.collections[b])
      ensures a == b
    {
      assert !Taken(norm, s, user, name, a) && !Taken(norm, s, user, name, b);
    }
  }

  lemma InsertingKeepsUnsorted(s: Store, user: UserId, name: string, newId: CollectionId, u: UserId)
    requires newId !in s.collections && HasUnsorted(s, u)
    ensures HasUnsorted(InsertCollection(s, user, name, newId), u)
  {
    var id :| Owns(s, u, id) && IsUnsorted(s.collections[id]);
    assert Owns(InsertCollection(s, user, name, newId), u, id);
  }

  lemma InsertingKeepsFiled(s: Store, user: UserId, name: string, newId: CollectionId)
    requires ItemsFiled(s) && newId !in s.collections
    ensures ItemsFiled(InsertCollection(s, user, name, newId))
  {
  }

  lemma InsertingKeepsSystemKeys(s: Store, user: UserId, name: string, newId: CollectionId)
    requires SystemKeysUnique(s) && newId !in s.collections
    ensures SystemKeysUnique(InsertCollection(s, user, name, newId))
  {
  }

  lemma InsertingKeepsValid(norm: Norm, s: Store, user: UserId, name: string, newId: CollectionId)
    requires Valid(norm, s) && user in s.users && newId != NIL && newId !in s.collections
    requires Holder(norm, s, user, name).None?
    ensures Valid(norm, InsertCollection(s, user, name, newId))
  {
    InsertingKeepsFiled(s, user, name, newId);
    InsertingKeepsNames(norm, s, user, name, newId);
    InsertingKeepsSystemKeys(s, user, name, newId);
    var after := InsertCollection(s, user, name, newId);
    forall u | u in after.users ensures HasUnsorted(after, u) {
      InsertingKeepsUnsorted(s, user, name, newId, u);
    }
  }

  lemma PutKeepsValid(norm: Norm, s: Store, r: PutRequest, newId: CollectionId)
    requires Valid(norm, s) && newId != NIL && newId !in s.collections
    ensures Valid(norm, Put(norm, s, r, newId).0)
  {
    if Put(norm, s, r, newId).0 != s {
      var name := StoredName(r.name).value;
      assert Owns(s, r.user, s.items[r.item].collection);
      match Holder(norm, s, r.user, name)
      case None =>
        InsertingKeepsValid(norm, s, r.user, name, newId);
        MovingKeepsValid(norm, InsertCollection(s, r.user, name, newId), r.item, newId);
      case Some(id) =>
        MovingKeepsValid(norm, s, r.item, id);
    }
  }

  lemma CreateKeepsValid(norm: Norm, s: Store, user: UserId, urlHasHost: bool, newId: ItemId)
    requires Valid(norm, s) && newId !in s.items
    ensures Valid(norm, Create(s, user, urlHasHost, newId).0)
  {
    var after := Create(s, user, urlHasHost, newId).0;
    forall u | u in after.users ensures HasUnsorted(after, u) {
      assert HasUnsorted(s, u);
    }
  }

  lemma DeleteItemKeepsValid(norm: Norm, s: Store, user: UserId, item: ItemId)
    requires Valid(norm, s)
    ensures Valid(norm, DeleteItem(s, user, item).0)
  {
    var after := DeleteItem(s, user, item).0;
    forall u | u in after.users ensures HasUnsorted(after, u) {
      assert HasUnsorted(s, u);
    }
  }

  lemma ItemsOfOwned(s: Store, user: UserId, id: CollectionId, i: ItemId)
    requires ItemsFiled(s) && Owns(s, user, id) && i in s.items
    ensures s.items[i].collection == id <==> i in ItemsIn(s, user, id)
  {
    assert Owns(s, s.items[i].owner, s.items[i].collection);
  }

  lemma DisposalFilesItems(s: Store, r: DeleteRequest)
    requires ItemsFiled(s) && RefusedRequest(r).None? && Owns(s, r.user, r.collection)
    requires r.action == "move" && ItemsIn(s, r.user, r.collection) != {} ==> Owns(s, r.user, r.target)
    ensures ItemsFiled(RemoveCollection(Dispose(s, r), r.collection))
    ensures !Referenced(Dispose(s, r), r.collection)
  {
    var after := RemoveCollection(Dispose(s, r), r.collection);
    forall i | i in after.items
      ensures Owns(after, after.items[i].owner, after.items[i].collection)
      ensures after.items[i].collection != r.collection
    {
      ItemsOfOwned(s, r.user, r.collection, i);
      assert Owns(s, s.items[i].owner, s.items[i].collection);
    }
  }

  // Removing a collection that is not Unsorted keeps every constraint on collections.
  lemma RemovalKeepsCollections(norm: Norm, s: Store, t: Store, id: CollectionId)
    requires Valid(norm, s) && t.users == s.users && t.collections == s.collections - {id} && ItemsFiled(t)
    requires id in s.collections ==> !IsUnsorted(s.collections[id])
    ensures Valid(norm, t)
  {
    forall u | u in t.users ensures HasUnsorted(t, u) {
      var k :| Owns(s, u, k) && IsUnsorted(s.collections[k]);
      assert Owns(t, u, k);
    }
  }

  // A collection that holds nothing and is not Unsorted may go.
  lemma EmptyMayGo(norm: Norm, s: Store, id: CollectionId)
    requires Valid(norm, s) && id in s.collections && !IsUnsorted(s.collections[id]) && !Referenced(s, id)
    ensures Valid(norm, RemoveCollection(s, id))
  {
    var t := RemoveCollection(s, id);
    forall i | i in t.items ensures Owns(t, t.items[i].owner, t.items[i].collection) {
      assert Owns(s, s.items[i].owner, s.items[i].collection);
    }
    RemovalKeepsCollections(norm, s, t, id);
  }

  // Disposing of a collection's items and removing the collection keeps the constraints,
  // given that its items have somewhere of their owner's to go.
  lemma RemovalKeepsValid(norm: Norm, s: Store, r: DeleteRequest)
    requires Valid(norm, s) && RefusedRequest(r).None?
    requires Owns(s, r.user, r.collection) && !IsUnsorted(s.collections[r.collection])
    requires r.action == "move" && ItemsIn(s, r.user, r.collection) != {} ==> Owns(s, r.user, r.target)
    ensures Valid(norm, RemoveCollection(Dispose(s, r), r.collection))
    ensures !Referenced(Dispose(s, r), r.collection)
  {
    DisposalFilesItems(s, r);
    RemovalKeepsCollections(norm, s, RemoveCollection(Dispose(s, r), r.collection), r.collection);
  }

  // The not-empty conflict is for collections that changed under the operation: with
  // nothing in between, disposing always empties the collection.
  lemma AtomicDeleteNeverFindsItems(norm: Norm, s: Store, r: DeleteRequest)
    requires Valid(norm, s)
    ensures Valid(norm, DeleteCollection(s, r).0)
    ensures DeleteCollection(s, r).1 != Err(CollectionNotEmpty)
  {
    if RefusedRequest(r).None? && Owns(s, r.user, r.collection) && !IsUnsorted(s.collections[r.collection])
       && (r.action == "move" ==> Owns(s, r.user, r.target)) {
      RemovalKeepsValid(norm, s, r);
    }
  }

  // ----- whole runs -----

  datatype Op =
    | DoPut(put: PutRequest, newCollection: CollectionId)
    | DoCreate(user: UserId, urlHasHost: bool, newItem: ItemId)
    | DoDeleteItem(owner: UserId, item: ItemId)
    | DoDeleteCollection(delete: DeleteRequest)

  ghost function Run(norm: Norm, s: Store, op: Op): Store {
    match op
    case DoPut(r, newId) => Put(norm, s, r, newId).0
    case DoCreate(user, ok, newId) => Create(s, user, ok, newId).0
    case DoDeleteItem(user, item) => DeleteItem(s, user, item).0
    case DoDeleteCollection(r) => DeleteCollection(s, r).0
  }

  // Generated identifiers name nothing yet.
  predicate FreshFor(s: Store, op: Op) {
    && (op.DoPut? ==> op.newCollection != NIL && op.newCollection !in s.collections)
    && (op.DoCreate? ==> op.newItem !in s.items)
  }

  ghost function RunAll(norm: Norm, s: Store, ops: seq<Op>): Store {
    if ops == [] then s else Run(norm, RunAll(norm, s, ops[..|ops| - 1]), ops[|ops| - 1])
  }

  ghost predicate FreshThroughout(norm: Norm, s: Store, ops: seq<Op>) {
    forall k :: 0 <= k < |ops| ==> FreshFor(RunAll(norm, s, ops[..k]), ops[k])
  }

  lemma FreshPrefix(norm: Norm, s: Store, ops: seq<Op>)
    requires ops != [] && FreshThroughout(norm, s, ops)
    ensures FreshThroughout(norm, s, ops[..|ops| - 1])
    ensures FreshFor(RunAll(norm, s, ops[..|ops| - 1]), ops[|ops| - 1])
  {
    var n := |ops| - 1;
    forall k | 0 <= k < n ensures FreshFor(RunAll(norm, s, ops[..n][..k]), ops[..n][k]) {
      assert ops[..n][..k] == ops[..k];
    }
  }

  lemma OpKeepsUsers(norm: Norm, s: Store, op: Op)
    ensures Run(norm, s, op).users == s.users
  {
  }

  lemma OpKeepsValid(norm: Norm, s: Store, op: Op)
    requires Valid(norm, s) && FreshFor(s, op)
    ensures Valid(norm, Run(norm, s, op))
  {
    match op
    case DoPut(r, newId) => PutKeepsValid(norm, s, r, newId);
    case DoCreate(user, ok, newId) => CreateKeepsValid(norm, s, user, ok, newId);
    case DoDeleteItem(user, item) => DeleteItemKeepsValid(norm, s, user, item);
    case DoDeleteCollection(r) => AtomicDeleteNeverFindsItems(norm, s, r);
  }

  // After every run each item is in one existing collection of its own owner, each user
  // keeps exactly one Unsorted, and no two of a user's collections share a reduced name.
  lemma {:induction false} RunsKeepValid(norm: Norm, s: Store, ops: seq<Op>)
    requires Valid(norm, s) && FreshThroughout(norm, s, ops)
    ensures Valid(norm, RunAll(norm, s, ops))
    ensures RunAll(norm, s, ops).users == s.users
    decreases |ops|
  {
    if ops == [] {
    } else {
      FreshPrefix(norm, s, ops);
      RunsKeepValid(norm, s, ops[..|ops| - 1]);
      OpKeepsValid(norm, RunAll(norm, s, ops[..|ops| - 1]), ops[|ops| - 1]);
      OpKeepsUsers(norm, RunAll(norm, s, ops[..|ops| - 1]), ops[|ops| - 1]);
    }
  }

  // The Unsorted collections present at the start are the ones there at the end.
  lemma {:induction false} UnsortedIsPermanent(norm: Norm, s: Store, ops: seq<Op>, id: CollectionId)
    requires FreshThroughout(norm, s, ops)
    requires id in s.collections && IsUnsorted(s.collections[id])
    ensures var t := RunAll(norm, s, ops); id in t.collections && t.collections[id] == s.collections[id]
    decreases |ops|
  {
    if ops == [] {
    } else {
      FreshPrefix(norm, s, ops);
      UnsortedIsPermanent(norm, s, ops[..|ops| - 1], id);
      OpKeepsUnsorted(norm, RunAll(norm, s, ops[..|ops| - 1]), ops[|ops| - 1], id);
    }
  }

  lemma OpKeepsUnsorted(norm: Norm, s: Store, op: Op, id: CollectionId)
    requires FreshFor(s, op) && id in s.collections && IsUnsorted(s.collections[id])
    ensures var t := Run(norm, s, op); id in t.collections && t.collections[id] == s.collections[id]
  {
  }

  // ----- put -----

  // What a put may change: on success one item's collection and at most one new collection,
  // which then holds the item; on failure nothing at all.
  ghost predicate PutChanges(
      s: Store, r: PutRequest, newId: CollectionId, t: Store, result: Result<PutReport, Failure>) {
    && (result.Err? ==> t == s)
    && t.items.Keys == s.items.Keys
    && (forall i :: i in s.items && i != r.item ==> t.items[i] == s.items[i])
    && (forall c :: c in s.collections ==> c in t.collections && t.collections[c] == s.collections[c])
    && (result.Ok? ==> PutReports(s, r, newId, t, result.value))
  }

  ghost predicate PutReports(s: Store, r: PutRequest, newId: CollectionId, t: Store, report: PutReport) {
    && r.item in t.items && t.items[r.item] == Item(r.user, report.collection)
    && !(report.created && report.already)
    && (report.already <==> t == s)
    && (report.created <==> report.collection !in s.collections)
    && t.collections.Keys == s.collections.Keys + (if report.created then {newId} else {})
  }

  lemma PutIntoNew(s: Store, r: PutRequest, name: string, newId: CollectionId)
    requires newId !in s.collections && r.item in s.items && s.items[r.item].owner == r.user
    ensures PutChanges(s, r, newId, MoveItem(InsertCollection(s, r.user, name, newId), r.item, newId),
                       Ok(PutReport(newId, true, false)))
  {
    var t := MoveItem(InsertCollection(s, r.user, name, newId), r.item, newId);
    assert newId in t.collections;
    assert t != s;
  }

  lemma PutIntoHeld(s: Store, r: PutRequest, id: CollectionId, newId: CollectionId)
    requires id in s.collections && r.item in s.items && s.items[r.item].owner == r.user
    requires s.items[r.item].collection != id
    ensures PutChanges(s, r, newId, MoveItem(s, r.item, id), Ok(PutReport(id, false, false)))
  {
    assert MoveItem(s, r.item, id).items[r.item].collection == id;
    assert MoveItem(s, r.item, id) != s;
  }

  lemma PutEffect(norm: Norm, s: Store, r: PutRequest, newId: CollectionId)
    requires Valid(norm, s) && newId != NIL && newId !in s.collections
    ensures PutChanges(s, r, newId, Put(norm, s, r, newId).0, Put(norm, s, r, newId).1)
  {
    var (t, result) := Put(norm, s, r, newId);
    if result.Ok? {
      var name := StoredName(r.name).value;
      match Holder(norm, s, r.user, name)
      case None => PutIntoNew(s, r, name, newId);
      case Some(id) =>
        if s.items[r.item].collection != id {
          PutIntoHeld(s, r, id, newId);
        }
    }
  }

  lemma HolderIsUnique(norm: Norm, s: Store, user: UserId, name: string, id: CollectionId)
    requires NamesUnique(norm, s) && Taken(norm, s, user, name, id)
    ensures Holder(norm, s, user, name) == Some(id)
  {
    var other := Holder(norm, s, user, name);
    assert other.Some? && Taken(norm, s, user, name, other.value);
    assert SameName(norm, s.collections[other.value], s.collections[id]);
  }

  // A put that succeeds leaves the item in a collection that holds the submitted name.
  lemma PutFilesUnderTheName(norm: Norm, s: Store, r: PutRequest, newId: CollectionId)
    requires newId !in s.collections && Put(norm, s, r, newId).1.Ok?
    ensures var (t, result) := Put(norm, s, r, newId);
            && Taken(norm, t, r.user, StoredName(r.name).value, result.value.collection)
            && r.item in t.items && t.items[r.item] == Item(r.user, result.value.collection)
  {
  }

  lemma PutOfFiled(norm: Norm, t: Store, r: PutRequest, id: CollectionId, laterId: CollectionId)
    requires r.intent == "existing" && StoredName(r.name).Ok?
    requires Holder(norm, t, r.user, StoredName(r.name).value) == Some(id)
    requires r.item in t.items && t.items[r.item] == Item(r.user, id)
    ensures Put(norm, t, r, laterId) == (t, Ok(PutReport(id, false, true)))
  {
  }

  // A second identical put under the existing intent finds the item where the first left it
  // and writes nothing.
  lemma PutIsIdempotent(norm: Norm, s: Store, r: PutRequest, newId: CollectionId, laterId: CollectionId)
    requires Valid(norm, s) && newId != NIL && newId !in s.collections
    requires r.intent == "existing" && Put(norm, s, r, newId).1.Ok?
    ensures var (t, result) := Put(norm, s, r, newId);
            Put(norm, t, r, laterId) == (t, Ok(PutReport(result.value.collection, false, true)))
  {
    var (t, result) := Put(norm, s, r, newId);
    PutKeepsValid(norm, s, r, newId);
    PutFilesUnderTheName(norm, s, r, newId);
    HolderIsUnique(norm, t, r.user, StoredName(r.name).value, result.value.collection);
    PutOfFiled(norm, t, r, result.value.collection, laterId);
  }

  // Under the create intent a taken name is a conflict and changes nothing, whoever created
  // the holder; a name is taken for its own user only.
  lemma TakenNameIsRefused(norm: Norm, s: Store, r: PutRequest, newId: CollectionId, holder: CollectionId)
    requires Valid(norm, s) && r.intent == "create" && StoredName(r.name).Ok?
    requires r.item in s.items && s.items[r.item].owner == r.user
    requires Taken(norm, s, r.user, StoredName(r.name).value, holder)
    ensures Put(norm, s, r, newId) == (s, Err(NameAlreadyExists))
  {
  }

  // Why a put is refused, in the order in which it is: an intent that is neither of the two, a
  // name that is blank or longer than a hundred characters once trimmed, an item that is not
  // there or is another user's, and a name to be created that is taken.
  lemma PutRefusals(norm: Norm, s: Store, r: PutRequest, newId: CollectionId)
    ensures var result := Put(norm, s, r, newId).1;
            var trimmed := Trim(r.name);
            result.Err? ==>
              result.error
              == if r.intent != "existing" && r.intent != "create" then InvalidIntent
                 else if trimmed == "" || |trimmed| > 100 then InvalidName
                 else if r.item !in s.items || s.items[r.item].owner != r.user then ItemNotFound
                 else NameAlreadyExists
    ensures var trimmed := Trim(r.name);
            Put(norm, s, r, newId).1.Ok?
            <==> && r.intent in {"existing", "create"} && 1 <= |trimmed| <= 100
                 && r.item in s.items && s.items[r.item].owner == r.user
                 && (r.intent == "create" ==> forall c :: !Taken(norm, s, r.user, trimmed, c))
  {
  }

  // ----- create and delete items -----

  // Saving a URL files one new item, and nothing else, in the collection whose system key says
  // "unsorted"; without a host nothing happens.
  lemma CreateEffect(norm: Norm, s: Store, user: UserId, urlHasHost: bool, newId: ItemId)
    requires Valid(norm, s) && user in s.users && newId !in s.items
    ensures var (t, result) := Create(s, user, urlHasHost, newId);
            && t.collections == s.collections && t.users == s.users
            && if !urlHasHost then t == s && result == Err(InvalidUrl)
               else
                 && result == Ok(newId)
                 && t.items.Keys == s.items.Keys + {newId}
                 && (forall i :: i in s.items ==> t.items[i] == s.items[i])
                 && t.items[newId].owner == user
                 && t.items[newId].collection in s.collections
                 && s.collections[t.items[newId].collection].owner == user
                 && s.collections[t.items[newId].collection].systemKey == Some("unsorted")
  {
    if urlHasHost {
      assert HasUnsorted(s, user);
    }
  }

  // Deleting an item takes that one item away and nothing else, and reports the collection it
  // was filed in; an item that is not there, or is another user's, is not found.
  lemma DeleteItemEffect(s: Store, user: UserId, item: ItemId)
    ensures var (t, result) := DeleteItem(s, user, item);
            if item in s.items && s.items[item].owner == user then
              && result.Ok? && result.value.collection == s.items[item].collection
              && t.items == s.items - {item} && item !in t.items
              && t.users == s.users && t.collections == s.collections
            else
              result == Err(ItemNotFound) && t == s
  {
  }

  // ----- delete collection -----

  // Why a deletion is refused, in the order in which it is: an action that is neither of the
  // two, a target with "delete", none or the collection itself with "move", a collection that is
  // not there or is another user's, the Unsorted one, and a target likewise not there.
  lemma DeleteRefusals(norm: Norm, s: Store, r: DeleteRequest)
    requires Valid(norm, s)
    ensures var result := DeleteCollection(s, r).1;
            result
            == if r.action != "delete" && r.action != "move" then Err(InvalidAction)
               else if r.action == "delete" && r.target != 0 then Err(InvalidTarget)
               else if r.action == "move" && (r.target == 0 || r.target == r.collection) then Err(InvalidTarget)
               else if r.collection !in s.collections || s.collections[r.collection].owner != r.user
               then Err(CollectionNotFound)
               else if s.collections[r.collection].systemKey == Some("unsorted") then Err(UnsortedProtected)
               else if r.action == "move" && (r.target !in s.collections || s.collections[r.target].owner != r.user)
               then Err(TargetNotFound)
               else Ok(())
  {
    AtomicDeleteNeverFindsItems(norm, s, r);
  }

  // Moving conserves the items and retargets exactly those of the collection; deleting
  // removes exactly those; nothing else changes, and a failure changes nothing at all.
  lemma DeleteCollectionEffect(norm: Norm, s: Store, r: DeleteRequest)
    requires Valid(norm, s)
    ensures var (t, result) := DeleteCollection(s, r);
            && (result.Err? ==> t == s)
            && (result.Ok? ==>
                && t.collections == s.collections - {r.collection}
                && (forall i :: i in s.items && s.items[i].collection != r.collection ==>
                      i in t.items && t.items[i] == s.items[i])
                && (forall i :: i in s.items && s.items[i].collection == r.collection ==>
                      if r.action == "move" then i in t.items && t.items[i] == Item(r.user, r.target)
                          else i !in t.items)
                && t.items.Keys <= s.items.Keys)
  {
    forall i | i in s.items && s.items[i].collection == r.collection && Owns(s, r.user, r.collection)
      ensures i in ItemsIn(s, r.user, r.collection)
    {
      assert Owns(s, s.items[i].owner, s.items[i].collection);
    }
  }

  // ----- agreement between the two features -----

  lemma EmptyLosesNothing(t: Store, user: UserId, id: CollectionId)
    requires ItemsFiled(t) && Owns(t, user, id)
    ensures DeleteItems(t, user, id).items == t.items <==> !Referenced(t, id)
  {
    if Referenced(t, id) {
      var i :| i in t.items && t.items[i].collection == id;
      ItemsOfOwned(t, user, id, i);
      assert i !in DeleteItems(t, user, id).items;
    }
  }

  // A collection of this user's that is not Unsorted and holds nothing is removed on request,
  // and no item goes with it; any other is kept, or takes an item with it.
  lemma RemovableIsEmpty(norm: Norm, t: Store, user: UserId, id: CollectionId)
    requires Valid(norm, t) && Owns(t, user, id)
    ensures var (u, deleted) := DeleteCollection(t, DeleteRequest(user, id, "delete", NIL));
            deleted.Ok? && u.items == t.items <==> !IsUnsorted(t.collections[id]) && !Referenced(t, id)
  {
    AtomicDeleteNeverFindsItems(norm, t, DeleteRequest(user, id, "delete", NIL));
    EmptyLosesNothing(t, user, id);
  }

  lemma ReportIsExact(norm: Norm, s: Store, user: UserId, item: ItemId)
    requires Valid(norm, s) && DeleteItem(s, user, item).1.Ok?
    ensures var (t, result) := DeleteItem(s, user, item);
            var report := result.value;
            && Owns(t, user, report.collection)
            && (report.empty <==> !Referenced(t, report.collection))
            && (report.deletable
                <==> !IsUnsorted(t.collections[report.collection]) && !Referenced(t, report.collection))
  {
    var (t, result) := DeleteItem(s, user, item);
    var id := result.value.collection;
    assert Owns(s, user, id);
    DeleteItemKeepsValid(norm, s, user, item);
    if Referenced(t, id) {
      var i :| i in t.items && t.items[i].collection == id;
      ItemsOfOwned(t, user, id, i);
    }
  }

  // When deleting an item reports the collection as deletable, deleting it right away
  // succeeds and removes no item; when it does not, the collection is Unsorted or holds one.
  lemma DeletableMeansDeletable(norm: Norm, s: Store, user: UserId, item: ItemId)
    requires Valid(norm, s) && DeleteItem(s, user, item).1.Ok?
    ensures var (t, result) := DeleteItem(s, user, item);
            var report := result.value;
            var (u, deleted) := DeleteCollection(t, DeleteRequest(user, report.collection, "delete", NIL));
            && (report.deletable <==> deleted.Ok? && u.items == t.items)
            && (report.deletable
                <==> !IsUnsorted(t.collections[report.collection]) && !Referenced(t, report.collection))
  {
    var (t, result) := DeleteItem(s, user, item);
    DeleteItemKeepsValid(norm, s, user, item);
    ReportIsExact(norm, s, user, item);
    RemovableIsEmpty(norm, t, user, result.value.collection);
  }
}
