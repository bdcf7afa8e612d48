/**
  Putting an item into a collection one statement at a time, with other transactions
  committing between its statements under read committed.

  Its own writes stay invisible until it commits. Meanwhile the item's row is locked, the
  inserted name is taken for everybody else, and a collection that the item has been moved to
  cannot be removed.
*/
module PutInterleaved {
  import opened Options
  import opened CollectionStore
  import opened CollectionRuns

  datatype Phase =
    | Begun                                       // about to lock the item
    | Locked                                      // about to insert the collection
    | NameTaken(holder: CollectionId)             // about to look up who holds the name
    | Resolved(id: CollectionId, created: bool)   // about to move the item, unless it is there
    | Moved(id: CollectionId, created: bool)      // about to commit
    | Done(result: Result<PutReport, Failure>)

  // `was` is where the item was filed when it was locked.
  datatype State = State(committed: Store, phase: Phase, was: CollectionId)

  datatype Step =
    | Advance               // the put executes its next statement
    | Others(store: Store)  // another transaction commits, leaving this store

  // A request that the service lets through.
  predicate Accepted(r: PutRequest) {
    r.intent in {"existing", "create"} && StoredName(r.name).Ok?
  }

  function NameOf(r: PutRequest): string
    requires Accepted(r)
  {
    StoredName(r.name).value
  }

  predicate HasItem(s: Store, r: PutRequest) {
    r.item in s.items && s.items[r.item].owner == r.user
  }

  ghost function HolderIn(norm: Norm, s: Store, r: PutRequest): Option<CollectionId>
    requires Accepted(r)
  {
    Holder(norm, s, r.user, NameOf(r))
  }

  predicate Holds(norm: Norm, s: Store, r: PutRequest, id: CollectionId)
    requires Accepted(r)
  {
    Taken(norm, s, r.user, NameOf(r), id)
  }

  function Fail(st: State, f: Failure): State {
    st.(phase := Done(Err(f)))
  }

  // What the commit makes visible.
  function Shown(s: Store, r: PutRequest, id: CollectionId, created: bool): Store
    requires Accepted(r)
  {
    var t := if created then InsertCollection(s, r.user, NameOf(r), id) else s;
    if r.item in t.items then MoveItem(t, r.item, id) else t
  }

  // The put's next statement, on what is committed when it runs.
  ghost function Next(norm: Norm, st: State, r: PutRequest, newId: CollectionId): State
    requires Accepted(r)
  {
    var s := st.committed;
    match st.phase
    case Begun =>
      if !HasItem(s, r) then Fail(st, ItemNotFound)
      else st.(phase := Locked, was := s.items[r.item].collection)
    case Locked =>
      (match HolderIn(norm, s, r)
       case None => st.(phase := Resolved(newId, true))
       case Some(id) => if r.intent == "create" then Fail(st, NameAlreadyExists) else st.(phase := NameTaken(id)))
    case NameTaken(_) =>
      (match HolderIn(norm, s, r)
       case None => Fail(st, Internal)
       case Some(id) => st.(phase := Resolved(id, false)))
    case Resolved(id, created) =>
      if st.was == id then st.(phase := Done(Ok(PutReport(id, created, true))))
      else if !HasItem(s, r) || (!created && !Owns(s, r.user, id)) then Fail(st, Internal)
      else st.(phase := Moved(id, created))
    case Moved(id, created) =>
      st.(committed := Shown(s, r, id, created), phase := Done(Ok(PutReport(id, created, false))))
    case Done(_) => st
  }

  // From the lock to the end.
  predicate HoldsLock(st: State) {
    !st.phase.Begun? && !st.phase.Done?
  }

  predicate HasInserted(st: State) {
    (st.phase.Resolved? || st.phase.Moved?) && st.phase.created
  }

  // The collection that the put found under the name and has not yet moved the item to.
  predicate Found(st: State, id: CollectionId) {
    st.phase == NameTaken(id) || st.phase == Resolved(id, false)
  }

  // What another transaction may leave committed: a store that meets every constraint, in
  // which no collection row was rewritten, no identifier was used again, and what the put has
  // locked is as it was.
  ghost predicate Permitted(norm: Norm, st: State, r: PutRequest, newId: CollectionId, t: Store)
    requires Accepted(r)
  {
    var s := st.committed;
    && Valid(norm, t) && newId !in t.collections
    && (forall c :: c in s.collections && c in t.collections ==> t.collections[c] == s.collections[c])
    && (forall c :: Found(st, c) && c !in s.collections ==> c !in t.collections)
    // the locked row
    && (HoldsLock(st) ==> r.item in s.items && r.item in t.items && t.items[r.item] == s.items[r.item])
    // the name in the unique index
    && (HasInserted(st) ==> HolderIn(norm, t, r).None?)
    // a moved row holds its collection against removal
    && (st.phase.Moved? && !st.phase.created ==> Owns(t, r.user, st.phase.id))
  }

  ghost function Take(norm: Norm, st: State, r: PutRequest, newId: CollectionId, step: Step): State
    requires Accepted(r)
  {
    match step
    case Advance => Next(norm, st, r, newId)
    case Others(t) => st.(committed := t)
  }

  ghost function Exec(norm: Norm, st: State, r: PutRequest, newId: CollectionId, steps: seq<Step>): State
    requires Accepted(r)
  {
    if steps == [] then st
    else Take(norm, Exec(norm, st, r, newId, steps[..|steps| - 1]), r, newId, steps[|steps| - 1])
  }

  // Other transactions keep to what is permitted for as long as the put runs.
  ghost predicate Schedule(norm: Norm, st: State, r: PutRequest, newId: CollectionId, steps: seq<Step>)
    requires Accepted(r)
  {
    forall k :: 0 <= k < |steps| && steps[k].Others? ==>
      var before := Exec(norm, st, r, newId, steps[..k]);
      if before.phase.Done? then Valid(norm, steps[k].store) else Permitted(norm, before, r, newId, steps[k].store)
  }

  function Start(s: Store): State {
    State(s, Begun, NIL)
  }

  // ----- what every interleaving keeps -----

  // What the put knows at each point.
  ghost predicate Tracked(norm: Norm, st: State, r: PutRequest, newId: CollectionId)
    requires Accepted(r)
  {
    var s := st.committed;
    && (!st.phase.Done? ==> newId !in s.collections)
    && (HoldsLock(st) ==> r.item in s.items && s.items[r.item] == Item(r.user, st.was))
    && (HasInserted(st) ==> st.phase.id == newId && HolderIn(norm, s, r).None?)
    && (forall c :: Found(st, c) && c in s.collections ==> Holds(norm, s, r, c))
    && (forall c :: Found(st, c) ==> r.intent == "existing")
    && (st.phase.Moved? ==> st.was != st.phase.id)
    && (st.phase.Moved? && !st.phase.created ==> Holds(norm, s, r, st.phase.id) && r.intent == "existing")
  }

  ghost predicate Consistent(norm: Norm, st: State, r: PutRequest, newId: CollectionId)
    requires Accepted(r)
  {
    Valid(norm, st.committed) && newId != NIL && Tracked(norm, st, r, newId)
  }

  lemma ShownIsValid(norm: Norm, st: State, r: PutRequest, newId: CollectionId)
    requires Accepted(r) && Consistent(norm, st, r, newId) && st.phase.Moved?
    ensures Valid(norm, Shown(st.committed, r, st.phase.id, st.phase.created))
  {
    var s := st.committed;
    assert Owns(s, r.user, s.items[r.item].collection);
    if st.phase.created {
      InsertingKeepsValid(norm, s, r.user, NameOf(r), newId);
      MovingKeepsValid(norm, InsertCollection(s, r.user, NameOf(r), newId), r.item, newId);
    } else {
      MovingKeepsValid(norm, s, r.item, st.phase.id);
    }
  }

  lemma LookupKeepsTrack(norm: Norm, st: State, r: PutRequest, newId: CollectionId)
    requires Accepted(r) && Tracked(norm, st, r, newId) && (st.phase.Begun? || st.phase.Locked? || st.phase.NameTaken?)
    ensures Tracked(norm, Next(norm, st, r, newId), r, newId)
  {
    if st.phase.NameTaken? {
      assert Found(st, st.phase.holder);
    }
  }

  lemma MoveKeepsTrack(norm: Norm, st: State, r: PutRequest, newId: CollectionId)
    requires Accepted(r) && Tracked(norm, st, r, newId) && st.phase.Resolved?
    ensures Tracked(norm, Next(norm, st, r, newId), r, newId)
  {
    assert st.phase.created || Found(st, st.phase.id);
  }

  lemma NextKeepsTrack(norm: Norm, st: State, r: PutRequest, newId: CollectionId)
    requires Accepted(r) && Tracked(norm, st, r, newId)
    ensures Tracked(norm, Next(norm, st, r, newId), r, newId)
  {
    match st.phase
    case Done(_) =>
    case Resolved(_, _) => MoveKeepsTrack(norm, st, r, newId);
    case Moved(_, _) =>
    case _ => LookupKeepsTrack(norm, st, r, newId);
  }

  lemma NextCommits(norm: Norm, st: State, r: PutRequest, newId: CollectionId)
    requires Accepted(r)
    ensures Next(norm, st, r, newId).committed
         == if st.phase.Moved? then Shown(st.committed, r, st.phase.id, st.phase.created) else st.committed
  {
  }

  lemma AdvanceKeepsConsistent(norm: Norm, st: State, r: PutRequest, newId: CollectionId)
    requires Accepted(r) && Consistent(norm, st, r, newId)
    ensures Consistent(norm, Next(norm, st, r, newId), r, newId)
  {
    NextKeepsTrack(norm, st, r, newId);
    NextCommits(norm, st, r, newId);
    if st.phase.Moved? {
      ShownIsValid(norm, st, r, newId);
    }
  }

  lemma OthersKeepConsistent(norm: Norm, st: State, r: PutRequest, newId: CollectionId, t: Store)
    requires Accepted(r) && Consistent(norm, st, r, newId) && !st.phase.Done? && Permitted(norm, st, r, newId, t)
    ensures Consistent(norm, st.(committed := t), r, newId)
  {
    var after := st.(committed := t);
    forall c | Found(after, c) ensures r.intent == "existing" && (c in t.collections ==> Holds(norm, t, r, c)) {
      assert Found(st, c);
    }
  }

  lemma SchedulePrefix(norm: Norm, st: State, r: PutRequest, newId: CollectionId, steps: seq<Step>)
    requires Accepted(r) && steps != [] && Schedule(norm, st, r, newId, steps)
    ensures Schedule(norm, st, r, newId, steps[..|steps| - 1])
    ensures var last, before := steps[|steps| - 1], Exec(norm, st, r, newId, steps[..|steps| - 1]);
            last.Others? ==>
              if before.phase.Done? then Valid(norm, last.store) else Permitted(norm, before, r, newId, last.store)
  {
    var n := |steps| - 1;
    forall k | 0 <= k < n && steps[..n][k].Others?
      ensures var before := Exec(norm, st, r, newId, steps[..n][..k]);
              if before.phase.Done? then Valid(norm, steps[..n][k].store)
              else Permitted(norm, before, r, newId, steps[..n][k].store)
    {
      assert steps[..n][..k] == steps[..k];
    }
  }

  // However the statements interleave, the committed store meets every constraint at every
  // moment.
  lemma {:induction false} AlwaysConsistent(norm: Norm, s: Store, r: PutRequest, newId: CollectionId, steps: seq<Step>)
    requires Accepted(r) && Valid(norm, s) && newId != NIL && newId !in s.collections
    requires Schedule(norm, Start(s), r, newId, steps)
    ensures Consistent(norm, Exec(norm, Start(s), r, newId, steps), r, newId)
    decreases |steps|
  {
    if steps == [] {
    } else {
      var n := |steps| - 1;
      var st := Exec(norm, Start(s), r, newId, steps[..n]);
      SchedulePrefix(norm, Start(s), r, newId, steps);
      AlwaysConsistent(norm, s, r, newId, steps[..n]);
      match steps[n]
      case Advance => AdvanceKeepsConsistent(norm, st, r, newId);
      case Others(t) =>
        if !st.phase.Done? {
          OthersKeepConsistent(norm, st, r, newId, t);
        }
    }
  }

  // ----- all or nothing -----

  // The store that the other transactions alone leave.
  function OthersAlone(s: Store, steps: seq<Step>): Store {
    if steps == [] then s
    else
      match steps[|steps| - 1]
      case Advance => OthersAlone(s, steps[..|steps| - 1])
      case Others(t) => t
  }

  // Until it succeeds, and for ever when it fails, the put leaves the committed store as the
  // other transactions alone would.
  lemma {:induction false} NothingShowsUntilCommit(
      norm: Norm, s: Store, r: PutRequest, newId: CollectionId, steps: seq<Step>)
    requires Accepted(r)
    requires var st := Exec(norm, Start(s), r, newId, steps); !(st.phase.Done? && st.phase.result.Ok?)
    ensures Exec(norm, Start(s), r, newId, steps).committed == OthersAlone(s, steps)
    decreases |steps|
  {
    if steps == [] {
    } else {
      NothingShowsUntilCommit(norm, s, r, newId, steps[..|steps| - 1]);
    }
  }

  // ----- the split put against the atomic one -----

  ghost predicate Decides(norm: Norm, st: State, r: PutRequest, newId: CollectionId)
    requires Accepted(r)
  {
    !st.phase.Done? && Next(norm, st, r, newId).phase.Done?
  }

  ghost predicate FailsInternally(norm: Norm, st: State, r: PutRequest, newId: CollectionId)
    requires Accepted(r)
  {
    Decides(norm, st, r, newId) && Next(norm, st, r, newId).phase == Done(Err(Internal))
  }

  // Whatever came before, the split put decides as the atomic one would on the store committed
  // at that moment, and leaves what it would leave; but it may fail internally, which the
  // atomic one never does, and then leaves nothing.
  lemma DecidesAtomically(norm: Norm, st: State, r: PutRequest, newId: CollectionId)
    requires Accepted(r) && Consistent(norm, st, r, newId) && Decides(norm, st, r, newId)
    ensures var after := Next(norm, st, r, newId);
            var (t, result) := Put(norm, st.committed, r, newId);
            if FailsInternally(norm, st, r, newId) then after.committed == st.committed && result != Err(Internal)
            else after.phase == Done(result) && after.committed == t
  {
    PutNeverFailsInternally(norm, st.committed, r, newId);
    NextCommits(norm, st, r, newId);
    match st.phase
    case Resolved(_, _) => AlreadyThere(norm, st, r, newId);
    case Moved(_, _) => CommitsAtomically(norm, st, r, newId);
    case _ =>
      if !FailsInternally(norm, st, r, newId) {
        RefusesAtomically(norm, st, r, newId);
      }
  }

  lemma PutNeverFailsInternally(norm: Norm, s: Store, r: PutRequest, newId: CollectionId)
    requires Accepted(r)
    ensures Put(norm, s, r, newId).1 != Err(Internal)
  {
  }

  lemma RefusesAtomically(norm: Norm, st: State, r: PutRequest, newId: CollectionId)
    requires Accepted(r) && Consistent(norm, st, r, newId) && !st.phase.Resolved? && !st.phase.Moved?
    requires Decides(norm, st, r, newId) && !FailsInternally(norm, st, r, newId)
    ensures Next(norm, st, r, newId).phase == Done(Put(norm, st.committed, r, newId).1)
    ensures Put(norm, st.committed, r, newId).0 == st.committed
  {
  }

  lemma AlreadyThere(norm: Norm, st: State, r: PutRequest, newId: CollectionId)
    requires Accepted(r) && Consistent(norm, st, r, newId) && st.phase.Resolved?
    ensures st.was == st.phase.id ==>
              && !st.phase.created
              && Put(norm, st.committed, r, newId) == (st.committed, Ok(PutReport(st.phase.id, false, true)))
  {
    var s := st.committed;
    assert Owns(s, r.user, s.items[r.item].collection);
    if st.was == st.phase.id {
      assert Found(st, st.phase.id);
      HolderIsUnique(norm, s, r.user, NameOf(r), st.phase.id);
    }
  }

  lemma CommitsAtomically(norm: Norm, st: State, r: PutRequest, newId: CollectionId)
    requires Accepted(r) && Consistent(norm, st, r, newId) && st.phase.Moved?
    ensures Put(norm, st.committed, r, newId)
         == (Shown(st.committed, r, st.phase.id, st.phase.created), Ok(PutReport(st.phase.id, st.phase.created, false)))
  {
    if !st.phase.created {
      HolderIsUnique(norm, st.committed, r.user, NameOf(r), st.phase.id);
    }
  }

  // A put that succeeds has filed the item under the submitted name.
  lemma SuccessFilesUnderTheName(norm: Norm, st: State, r: PutRequest, newId: CollectionId)
    requires Accepted(r) && Consistent(norm, st, r, newId) && Decides(norm, st, r, newId)
    requires Next(norm, st, r, newId).phase.result.Ok?
    ensures var after := Next(norm, st, r, newId);
            var report := after.phase.result.value;
            && Holds(norm, after.committed, r, report.collection)
            && r.item in after.committed.items && after.committed.items[r.item] == Item(r.user, report.collection)
            && (report.created <==> report.collection !in st.committed.collections)
            && (report.already <==> after.committed == st.committed)
  {
    DecidesAtomically(norm, st, r, newId);
    PutFilesUnderTheName(norm, st.committed, r, newId);
    PutEffect(norm, st.committed, r, newId);
  }

  // ----- exactly when it fails internally -----

  // The store that the put's latest statement read.
  ghost function LastRead(norm: Norm, s: Store, r: PutRequest, newId: CollectionId, steps: seq<Step>): Store
    requires Accepted(r)
  {
    if steps == [] then s
    else
      match steps[|steps| - 1]
      case Advance => Exec(norm, Start(s), r, newId, steps[..|steps| - 1]).committed
      case Others(_) => LastRead(norm, s, r, newId, steps[..|steps| - 1])
  }

  // What the put found under the name held the name when it was found.
  lemma {:induction false} FoundHeldTheName(
      norm: Norm, s: Store, r: PutRequest, newId: CollectionId, steps: seq<Step>, id: CollectionId)
    requires Accepted(r) && Found(Exec(norm, Start(s), r, newId, steps), id)
    ensures Holds(norm, LastRead(norm, s, r, newId, steps), r, id)
    decreases |steps|
  {
    var n := |steps| - 1;
    match steps[n]
    case Advance =>
    case Others(_) =>
      assert Found(Exec(norm, Start(s), r, newId, steps[..n]), id);
      FoundHeldTheName(norm, s, r, newId, steps[..n], id);
  }

  // The collection that was found has gone, and where it is to be looked up again, nothing has
  // taken the name since.
  ghost predicate LostWhatItFound(norm: Norm, st: State, r: PutRequest)
    requires Accepted(r)
  {
    exists id :: Found(st, id) && id !in st.committed.collections
                 && (st.phase.NameTaken? ==> HolderIn(norm, st.committed, r).None?)
  }

  // In every schedule, the next statement fails internally if and only if the collection that
  // the statement before it found under the name, where it then was, has been removed since
  // and, before the look-up, nothing else has taken the name. A create never does.
  lemma FailsInternallyExactly(norm: Norm, s: Store, r: PutRequest, newId: CollectionId, steps: seq<Step>)
    requires Accepted(r) && Valid(norm, s) && newId != NIL && newId !in s.collections
    requires Schedule(norm, Start(s), r, newId, steps)
    ensures var now := Exec(norm, Start(s), r, newId, steps);
            && (FailsInternally(norm, now, r, newId) <==> LostWhatItFound(norm, now, r))
            && (LostWhatItFound(norm, now, r) ==> r.intent == "existing")
            && (forall id :: Found(now, id) ==> Holds(norm, LastRead(norm, s, r, newId, steps), r, id))
  {
    var now := Exec(norm, Start(s), r, newId, steps);
    AlwaysConsistent(norm, s, r, newId, steps);
    forall id | Found(now, id) ensures Holds(norm, LastRead(norm, s, r, newId, steps), r, id) {
      FoundHeldTheName(norm, s, r, newId, steps, id);
    }
    NextFailsInternally(norm, now, r, newId);
  }

  lemma NextFailsInternally(norm: Norm, st: State, r: PutRequest, newId: CollectionId)
    requires Accepted(r) && Consistent(norm, st, r, newId)
    ensures FailsInternally(norm, st, r, newId) <==> LostWhatItFound(norm, st, r)
  {
    match st.phase
    case NameTaken(holder) => LookupFails(norm, st, r, newId, holder);
    case Resolved(_, _) =>
      ItemIsSomewhere(norm, st, r, newId);
      LosesWhatItResolved(norm, st, r);
      MoveFails(norm, st, r, newId);
    case _ =>
  }

  lemma LosesWhatItResolved(norm: Norm, st: State, r: PutRequest)
    requires Accepted(r) && st.phase.Resolved?
    ensures LostWhatItFound(norm, st, r) <==> !st.phase.created && st.phase.id !in st.committed.collections
    ensures !st.phase.created ==> Found(st, st.phase.id)
  {
    if !st.phase.created {
      assert Found(st, st.phase.id);
    }
  }

  lemma LookupFails(norm: Norm, st: State, r: PutRequest, newId: CollectionId, holder: CollectionId)
    requires Accepted(r) && Consistent(norm, st, r, newId) && st.phase == NameTaken(holder)
    ensures FailsInternally(norm, st, r, newId) <==> LostWhatItFound(norm, st, r)
  {
    assert Found(st, holder);
  }

  lemma ItemIsSomewhere(norm: Norm, st: State, r: PutRequest, newId: CollectionId)
    requires Accepted(r) && Consistent(norm, st, r, newId) && HoldsLock(st)
    ensures st.was in st.committed.collections && HasItem(st.committed, r)
  {
    assert Owns(st.committed, r.user, st.was);
  }

  lemma MoveFails(norm: Norm, st: State, r: PutRequest, newId: CollectionId)
    requires Accepted(r) && st.phase.Resolved? && HasItem(st.committed, r) && st.was in st.committed.collections
    requires !st.phase.created && st.phase.id in st.committed.collections ==> Owns(st.committed, r.user, st.phase.id)
    ensures FailsInternally(norm, st, r, newId) <==> !st.phase.created && st.phase.id !in st.committed.collections
  {
  }

  // ----- the failures are reachable -----

  lemma ThenAdvance(norm: Norm, st: State, r: PutRequest, newId: CollectionId, steps: seq<Step>)
    requires Accepted(r)
    ensures Exec(norm, st, r, newId, steps + [Advance]) == Next(norm, Exec(norm, st, r, newId, steps), r, newId)
  {
    assert (steps + [Advance])[..|steps|] == steps;
  }

  lemma ThenOthers(norm: Norm, st: State, r: PutRequest, newId: CollectionId, steps: seq<Step>, t: Store)
    requires Accepted(r)
    ensures Exec(norm, st, r, newId, steps + [Others(t)]) == Exec(norm, st, r, newId, steps).(committed := t)
  {
    assert (steps + [Others(t)])[..|steps|] == steps;
  }

  // An item to be filed into an existing collection elsewhere that holds nothing.
  predicate IntoEmpty(norm: Norm, s: Store, r: PutRequest, id: CollectionId) {
    && Accepted(r) && r.intent == "existing" && HasItem(s, r)
    && Holds(norm, s, r, id) && !IsUnsorted(s.collections[id]) && !Referenced(s, id)
  }

  lemma TwoStatements(norm: Norm, s: Store, r: PutRequest, newId: CollectionId, id: CollectionId)
    requires Valid(norm, s) && IntoEmpty(norm, s, r, id)
    ensures s.items[r.item].collection != id
    ensures var st := State(s, NameTaken(id), s.items[r.item].collection);
            && Exec(norm, Start(s), r, newId, [Advance] + [Advance]) == st
            && Next(norm, st, r, newId) == st.(phase := Resolved(id, false))
  {
    HolderIsUnique(norm, s, r.user, NameOf(r), id);
    assert [] + [Advance] == [Advance];
    ThenAdvance(norm, Start(s), r, newId, []);
    ThenAdvance(norm, Start(s), r, newId, [Advance]);
  }

  lemma ThreeStatements(norm: Norm, s: Store, r: PutRequest, newId: CollectionId, id: CollectionId)
    requires Valid(norm, s) && IntoEmpty(norm, s, r, id)
    ensures Exec(norm, Start(s), r, newId, [Advance] + [Advance] + [Advance])
         == State(s, Resolved(id, false), s.items[r.item].collection)
  {
    TwoStatements(norm, s, r, newId, id);
    ThenAdvance(norm, Start(s), r, newId, [Advance] + [Advance]);
  }

  // A schedule in which the put's own statements lead to `st`, and then the collection goes.
  lemma ThenRemoved(
      norm: Norm, s: Store, r: PutRequest, newId: CollectionId, steps: seq<Step>, st: State, id: CollectionId)
    requires Valid(norm, s) && newId !in s.collections && IntoEmpty(norm, s, r, id)
    requires forall k :: 0 <= k < |steps| ==> steps[k] == Advance
    requires Exec(norm, Start(s), r, newId, steps) == st
    requires st.committed == s && (st.phase == NameTaken(id) || st.phase == Resolved(id, false))
    ensures var t := RemoveCollection(s, id);
            && Schedule(norm, Start(s), r, newId, steps + [Others(t)])
            && Exec(norm, Start(s), r, newId, steps + [Others(t)]) == st.(committed := t)
  {
    var t := RemoveCollection(s, id);
    ThenOthers(norm, Start(s), r, newId, steps, t);
    RemovalIsPermitted(norm, st, r, newId, id);
    OneCommit(norm, Start(s), r, newId, steps, t);
  }

  // Two statements, and then the collection is removed.
  lemma RemovedBeforeLookup(norm: Norm, s: Store, r: PutRequest, newId: CollectionId, id: CollectionId)
    requires Valid(norm, s) && newId !in s.collections && IntoEmpty(norm, s, r, id)
    ensures var steps := [Advance] + [Advance] + [Others(RemoveCollection(s, id))];
            && Schedule(norm, Start(s), r, newId, steps)
            && FailsInternally(norm, Exec(norm, Start(s), r, newId, steps), r, newId)
  {
    var st := State(s, NameTaken(id), s.items[r.item].collection);
    TwoStatements(norm, s, r, newId, id);
    ThenRemoved(norm, s, r, newId, [Advance] + [Advance], st, id);
    NoHolderLeft(norm, s, r, id);
    LookupFailsWithout(norm, st.(committed := RemoveCollection(s, id)), r, newId);
  }

  lemma LookupFailsWithout(norm: Norm, st: State, r: PutRequest, newId: CollectionId)
    requires Accepted(r) && st.phase.NameTaken? && HolderIn(norm, st.committed, r).None?
    ensures FailsInternally(norm, st, r, newId)
  {
  }

  // Three statements, and then the collection is removed.
  lemma RemovedBeforeMove(norm: Norm, s: Store, r: PutRequest, newId: CollectionId, id: CollectionId)
    requires Valid(norm, s) && newId !in s.collections && IntoEmpty(norm, s, r, id)
    ensures var steps := [Advance] + [Advance] + [Advance] + [Others(RemoveCollection(s, id))];
            && Schedule(norm, Start(s), r, newId, steps)
            && FailsInternally(norm, Exec(norm, Start(s), r, newId, steps), r, newId)
  {
    var st := State(s, Resolved(id, false), s.items[r.item].collection);
    TwoStatements(norm, s, r, newId, id);
    ThreeStatements(norm, s, r, newId, id);
    ThenRemoved(norm, s, r, newId, [Advance] + [Advance] + [Advance], st, id);
    MoveFailsWithout(norm, st.(committed := RemoveCollection(s, id)), r, newId, id);
  }

  lemma MoveFailsWithout(norm: Norm, st: State, r: PutRequest, newId: CollectionId, id: CollectionId)
    requires Accepted(r) && st.phase == Resolved(id, false) && id !in st.committed.collections && st.was != id
    ensures FailsInternally(norm, st, r, newId)
  {
  }

  lemma NoHolderLeft(norm: Norm, s: Store, r: PutRequest, id: CollectionId)
    requires Accepted(r) && Valid(norm, s) && Holds(norm, s, r, id)
    ensures HolderIn(norm, RemoveCollection(s, id), r).None?
  {
    var t := RemoveCollection(s, id);
    forall c ensures !Holds(norm, t, r, c) {
      if Holds(norm, t, r, c) {
        assert SameName(norm, s.collections[c], s.collections[id]);
      }
    }
  }

  lemma RemovalIsPermitted(norm: Norm, st: State, r: PutRequest, newId: CollectionId, id: CollectionId)
    requires Valid(norm, st.committed) && newId !in st.committed.collections
    requires IntoEmpty(norm, st.committed, r, id) && (st.phase == NameTaken(id) || st.phase == Resolved(id, false))
    ensures Permitted(norm, st, r, newId, RemoveCollection(st.committed, id))
  {
    EmptyMayGo(norm, st.committed, id);
  }

  lemma OneCommit(norm: Norm, st: State, r: PutRequest, newId: CollectionId, steps: seq<Step>, t: Store)
    requires Accepted(r) && forall k :: 0 <= k < |steps| ==> steps[k] == Advance
    requires Permitted(norm, Exec(norm, st, r, newId, steps), r, newId, t)
    requires !Exec(norm, st, r, newId, steps).phase.Done?
    ensures Schedule(norm, st, r, newId, steps + [Others(t)])
  {
    assert (steps + [Others(t)])[..|steps|] == steps;
  }

  // ----- undisturbed -----

  // Five statements, of which those after the end do nothing.
  ghost function Five(norm: Norm, st: State, r: PutRequest, newId: CollectionId): State
    requires Accepted(r)
  {
    var two := Next(norm, Next(norm, st, r, newId), r, newId);
    Next(norm, Next(norm, Next(norm, two, r, newId), r, newId), r, newId)
  }

  lemma UndisturbedIntoNew(norm: Norm, s: Store, r: PutRequest, newId: CollectionId)
    requires Accepted(r) && HasItem(s, r) && HolderIn(norm, s, r).None?
    requires s.items[r.item].collection != newId
    ensures Five(norm, Start(s), r, newId)
         == State(Shown(s, r, newId, true), Done(Ok(PutReport(newId, true, false))), s.items[r.item].collection)
  {
  }

  lemma UndisturbedIntoHeld(norm: Norm, s: Store, r: PutRequest, newId: CollectionId)
    requires Accepted(r) && HasItem(s, r) && HolderIn(norm, s, r).Some? && r.intent == "existing"
    ensures var id, was := HolderIn(norm, s, r).value, s.items[r.item].collection;
            Five(norm, Start(s), r, newId)
            == if was == id then State(s, Done(Ok(PutReport(id, false, true))), was)
               else State(Shown(s, r, id, false), Done(Ok(PutReport(id, false, false))), was)
  {
  }

  // With no other transaction in between, the split put is the atomic one.
  lemma UndisturbedIsAtomic(norm: Norm, s: Store, r: PutRequest, newId: CollectionId)
    requires Accepted(r) && Valid(norm, s) && newId != NIL && newId !in s.collections
    ensures var st := Five(norm, Start(s), r, newId);
            (st.committed, st.phase) == (Put(norm, s, r, newId).0, Done(Put(norm, s, r, newId).1))
  {
    if HasItem(s, r) {
      assert Owns(s, r.user, s.items[r.item].collection);
      if HolderIn(norm, s, r).None? {
        UndisturbedIntoNew(norm, s, r, newId);
      } else if r.intent == "existing" {
        UndisturbedIntoHeld(norm, s, r, newId);
      }
    }
  }
}
