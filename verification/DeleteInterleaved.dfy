/**
  Collection deletion one statement at a time, with other transactions committing between
  its statements under read committed.

  The deletion's own writes stay invisible until it commits; what it holds meanwhile are
  row locks, and those are all that restrains the other transactions.
*/
module DeleteInterleaved {
  import opened Options
  import opened CollectionStore
  import opened CollectionRuns

  datatype Phase =
    | Begun           // about to read the source collection
    | SourceRead      // about to read the target, when there is one
    | TargetRead      // about to dispose of the items
    | Disposed        // about to delete the collection's row
    | RowDeleted      // about to commit
    | Done(result: Result<(), Failure>)

  // `touched` are the items the deletion has deleted or moved and not yet committed.
  datatype State = State(committed: Store, phase: Phase, touched: set<ItemId>)

  datatype Step =
    | Advance               // the deletion executes its next statement
    | Others(store: Store)  // another transaction commits, leaving this store

  function Fail(st: State, f: Failure): State {
    st.(phase := Done(Err(f)))
  }

  // The deletion's next statement. Each statement reads what is committed when it runs, and
  // only the last one makes anything visible.
  function Next(st: State, r: DeleteRequest): State {
    var s := st.committed;
    match st.phase
    case Begun =>
      if !Owns(s, r.user, r.collection) then Fail(st, CollectionNotFound)
      else if IsUnsorted(s.collections[r.collection]) then Fail(st, UnsortedProtected)
      else st.(phase := SourceRead)
    case SourceRead =>
      if r.action == "move" && !Owns(s, r.user, r.target) then Fail(st, TargetNotFound)
      else st.(phase := TargetRead)
    case TargetRead =>
      // Moving a row makes the foreign key look for the target again.
      if r.action == "move" && ItemsIn(s, r.user, r.collection) != {} && !Owns(s, r.user, r.target)
      then Fail(st, TargetNotFound)
      else st.(phase := Disposed, touched := ItemsIn(s, r.user, r.collection))
    case Disposed =>
      if !Owns(s, r.user, r.collection) then Fail(st, CollectionNotFound)
      else if FiledMeanwhile(st, r) then Fail(st, CollectionNotEmpty)
      else st.(phase := RowDeleted)
    case RowDeleted =>
      st.(committed := RemoveCollection(WithTouched(st, r), r.collection), phase := Done(Ok(())))
    case Done(_) => st
  }

  // Some item the deletion has not touched refers to the collection.
  predicate FiledMeanwhile(st: State, r: DeleteRequest) {
    exists i :: i in st.committed.items && i !in st.touched && st.committed.items[i].collection == r.collection
  }

  // The committed store with the deletion's own item writes applied.
  function WithTouched(st: State, r: DeleteRequest): Store {
    var items := st.committed.items;
    if r.action == "move" then
      st.committed.(items :=
        map i | i in items :: if i in st.touched then items[i].(collection := r.target) else items[i])
    else
      st.committed.(items := map i | i in items && i !in st.touched :: items[i])
  }

  // What another transaction may leave committed: a store that meets every constraint, in
  // which no collection row was rewritten and no identifier of this request was reused, and
  // in which the rows the deletion has locked are as they were.
  ghost predicate Permitted(norm: Norm, st: State, r: DeleteRequest, t: Store) {
    var s := st.committed;
    && Valid(norm, t)
    && (forall c :: c in s.collections && c in t.collections ==> t.collections[c] == s.collections[c])
    && (forall c :: c in t.collections && c !in s.collections ==> c != r.collection && c != r.target)
    // touched items are locked by the deletion's own writes
    && (forall i :: i in st.touched ==> i in s.items && i in t.items && t.items[i] == s.items[i])
    // a moved row holds its target against removal
    && (r.action == "move" && st.touched != {} ==> Owns(t, r.user, r.target))
    // a deleted row holds off its own removal and every new reference to it
    && (st.phase == RowDeleted ==> Owns(t, r.user, r.collection) && !FiledMeanwhile(st.(committed := t), r))
  }

  function Take(st: State, r: DeleteRequest, step: Step): State {
    match step
    case Advance => Next(st, r)
    case Others(t) => st.(committed := t)
  }

  function Exec(st: State, r: DeleteRequest, steps: seq<Step>): State {
    if steps == [] then st else Take(Exec(st, r, steps[..|steps| - 1]), r, steps[|steps| - 1])
  }

  ghost predicate Schedule(norm: Norm, st: State, r: DeleteRequest, steps: seq<Step>) {
    forall k :: 0 <= k < |steps| && steps[k].Others? ==>
      Permitted(norm, Exec(st, r, steps[..k]), r, steps[k].store)
  }

  function Start(s: Store): State {
    State(s, Begun, {})
  }

  // ----- what every interleaving keeps -----

  ghost predicate Consistent(norm: Norm, st: State, r: DeleteRequest) {
    var s := st.committed;
    && Valid(norm, s)
    && (st.phase in {SourceRead, TargetRead, Disposed, RowDeleted} && r.collection in s.collections ==>
          s.collections[r.collection].owner == r.user && !IsUnsorted(s.collections[r.collection]))
    && (st.touched != {} ==> st.phase in {Disposed, RowDeleted} || st.phase.Done?)
    && (!st.phase.Done? ==>
          && (forall i :: i in st.touched ==> i in ItemsIn(s, r.user, r.collection))
          && (r.action == "move" && st.touched != {} ==> Owns(s, r.user, r.target)))
    && (st.phase == RowDeleted ==> Owns(s, r.user, r.collection) && !FiledMeanwhile(st, r))
  }

  // At the commit the touched items are exactly the collection's items, so what becomes
  // visible is what disposing of them all and removing the collection would leave.
  lemma TouchedAreAll(norm: Norm, st: State, r: DeleteRequest)
    requires Consistent(norm, st, r) && st.phase == RowDeleted
    ensures st.touched == ItemsIn(st.committed, r.user, r.collection)
    ensures WithTouched(st, r) == Dispose(st.committed, r)
  {
    assert forall i :: i in ItemsIn(st.committed, r.user, r.collection) ==> i in st.touched;
  }

  lemma CommitKeepsConsistent(norm: Norm, st: State, r: DeleteRequest)
    requires RefusedRequest(r).None? && Consistent(norm, st, r) && st.phase == RowDeleted
    ensures Consistent(norm, Next(st, r), r)
  {
    TouchedAreAll(norm, st, r);
    RemovalKeepsValid(norm, st.committed, r);
  }

  lemma AdvanceKeepsConsistent(norm: Norm, st: State, r: DeleteRequest)
    requires RefusedRequest(r).None? && Consistent(norm, st, r)
    ensures Consistent(norm, Next(st, r), r)
  {
    if st.phase == RowDeleted {
      CommitKeepsConsistent(norm, st, r);
    }
  }

  lemma OthersKeepConsistent(norm: Norm, st: State, r: DeleteRequest, t: Store)
    requires Consistent(norm, st, r) && Permitted(norm, st, r, t)
    ensures Consistent(norm, st.(committed := t), r)
  {
  }

  lemma SchedulePrefix(norm: Norm, st: State, r: DeleteRequest, steps: seq<Step>)
    requires steps != [] && Schedule(norm, st, r, steps)
    ensures Schedule(norm, st, r, steps[..|steps| - 1])
    ensures var last := steps[|steps| - 1];
            last.Others? ==> Permitted(norm, Exec(st, r, steps[..|steps| - 1]), r, last.store)
  {
    var n := |steps| - 1;
    forall k | 0 <= k < n && steps[..n][k].Others?
      ensures Permitted(norm, Exec(st, r, steps[..n][..k]), r, steps[..n][k].store)
    {
      assert steps[..n][..k] == steps[..k];
    }
  }

  // However the statements interleave, the committed store meets every constraint at every
  // moment: no item ever refers to a missing or foreign collection.
  lemma {:induction false} AlwaysConsistent(norm: Norm, s: Store, r: DeleteRequest, steps: seq<Step>)
    requires Valid(norm, s) && RefusedRequest(r).None? && Schedule(norm, Start(s), r, steps)
    ensures Consistent(norm, Exec(Start(s), r, steps), r)
    decreases |steps|
  {
    if steps == [] {
    } else {
      var n := |steps| - 1;
      var st := Exec(Start(s), r, steps[..n]);
      SchedulePrefix(norm, Start(s), r, steps);
      AlwaysConsistent(norm, s, r, steps[..n]);
      match steps[n]
      case Advance => AdvanceKeepsConsistent(norm, st, r);
      case Others(t) => OthersKeepConsistent(norm, st, r, t);
    }
  }

  // ----- all or nothing -----

  // The store that the other transactions alone leave.
  function OthersAlone(s: Store, steps: seq<Step>): Store {
    if steps == [] then s
    else
      match steps[|steps| - 1]
      case Advance => OthersAlone(s, steps[..|steps| - 1])
      case Others(t) => t
  }

  // Until it succeeds, and for ever when it fails, the deletion leaves the committed store
  // as the other transactions alone would.
  lemma {:induction false} NothingShowsUntilCommit(s: Store, r: DeleteRequest, steps: seq<Step>)
    requires Exec(Start(s), r, steps).phase != Done(Ok(()))
    ensures Exec(Start(s), r, steps).committed == OthersAlone(s, steps)
    decreases |steps|
  {
    if steps == [] {
    } else {
      NothingShowsUntilCommit(s, r, steps[..|steps| - 1]);
    }
  }

  // ----- the split deletion against the atomic one -----

  // The moment at which the deletion decides its result.
  ghost predicate Decides(st: State, r: DeleteRequest) {
    !st.phase.Done? && Next(st, r).phase.Done?
  }

  // Whatever came before, the split deletion decides as the atomic one would on the store
  // committed at that moment, and leaves what it would leave, with three exceptions: an
  // item filed in after the disposal is reported as a collection that is not empty; a move
  // that found no items to move does not notice that its target has gone; and a missing
  // target is reported even when the source has gone as well since it was read.
  lemma DecidesAtomically(norm: Norm, st: State, r: DeleteRequest)
    requires RefusedRequest(r).None? && Consistent(norm, st, r) && Decides(st, r)
    ensures var after := Next(st, r);
            var (t, result) := DeleteCollection(st.committed, r);
            if after.phase == Done(Err(CollectionNotEmpty)) then
              after.committed == st.committed && st.phase == Disposed && FiledMeanwhile(st, r)
            else if st.phase == RowDeleted && r.action == "move" && !Owns(st.committed, r.user, r.target) then
              && after.phase == Done(Ok(()))
              && ItemsIn(st.committed, r.user, r.collection) == {}
              && after.committed == RemoveCollection(st.committed, r.collection)
            else if st.phase == SourceRead && !Owns(st.committed, r.user, r.collection) then
              after.phase == Done(Err(TargetNotFound)) && after.committed == st.committed
            else
              after.phase == Done(result) && after.committed == t
  {
    if st.phase == RowDeleted {
      CommitsAtomically(norm, st, r);
    }
  }

  lemma MovingNothing(s: Store, r: DeleteRequest)
    requires r.action == "move" && ItemsIn(s, r.user, r.collection) == {}
    ensures Dispose(s, r) == s
  {
    assert MoveItems(s, r.user, r.collection, r.target).items == s.items;
  }

  lemma CommitsAtomically(norm: Norm, st: State, r: DeleteRequest)
    requires RefusedRequest(r).None? && Consistent(norm, st, r) && st.phase == RowDeleted
    ensures Next(st, r).phase == Done(Ok(()))
    ensures if r.action == "move" && !Owns(st.committed, r.user, r.target) then
              && ItemsIn(st.committed, r.user, r.collection) == {}
              && Next(st, r).committed == RemoveCollection(st.committed, r.collection)
            else
              DeleteCollection(st.committed, r) == (Next(st, r).committed, Ok(()))
  {
    TouchedAreAll(norm, st, r);
    assert Next(st, r).committed == RemoveCollection(Dispose(st.committed, r), r.collection);
    if r.action == "move" && !Owns(st.committed, r.user, r.target) {
      MovingNothing(st.committed, r);
    } else {
      RemovalKeepsValid(norm, st.committed, r);
      DeletesInFull(st.committed, r);
    }
  }

  lemma DeletesInFull(s: Store, r: DeleteRequest)
    requires RefusedRequest(r).None? && Owns(s, r.user, r.collection) && !IsUnsorted(s.collections[r.collection])
    requires r.action == "move" ==> Owns(s, r.user, r.target)
    requires !Referenced(Dispose(s, r), r.collection)
    ensures DeleteCollection(s, r) == (RemoveCollection(Dispose(s, r), r.collection), Ok(()))
  {
  }

  // ----- late filings -----

  // The store that the deletion's latest statement read.
  function LastRead(s: Store, r: DeleteRequest, steps: seq<Step>): Store {
    if steps == [] then s
    else
      match steps[|steps| - 1]
      case Advance => Exec(Start(s), r, steps[..|steps| - 1]).committed
      case Others(_) => LastRead(s, r, steps[..|steps| - 1])
  }

  lemma DisposalTouchesAll(norm: Norm, st: State, r: DeleteRequest)
    requires Consistent(norm, st, r) && Next(st, r).phase == Disposed
    ensures forall i :: i in Next(st, r).touched
                        <==> i in st.committed.items && st.committed.items[i].collection == r.collection
  {
    var s := st.committed;
    forall i | i in s.items && s.items[i].collection == r.collection ensures i in ItemsIn(s, r.user, r.collection) {
      assert Owns(s, s.items[i].owner, s.items[i].collection);
    }
  }

  // Between the disposal and the next statement, the deletion has touched just the items that
  // were in the collection when the disposal read the store, whatever others commit.
  lemma {:induction false} TouchedSinceDisposal(norm: Norm, s: Store, r: DeleteRequest, steps: seq<Step>)
    requires Valid(norm, s) && RefusedRequest(r).None? && Schedule(norm, Start(s), r, steps)
    requires Exec(Start(s), r, steps).phase == Disposed
    ensures var then_ := LastRead(s, r, steps);
            forall i :: i in Exec(Start(s), r, steps).touched
                        <==> i in then_.items && then_.items[i].collection == r.collection
    decreases |steps|
  {
    var n := |steps| - 1;
    SchedulePrefix(norm, Start(s), r, steps);
    match steps[n]
    case Advance =>
      AlwaysConsistent(norm, s, r, steps[..n]);
      DisposalTouchesAll(norm, Exec(Start(s), r, steps[..n]), r);
    case Others(_) =>
      TouchedSinceDisposal(norm, s, r, steps[..n]);
  }

  // The item is in the collection now and was not in it then.
  predicate FiledSince(then_: Store, now: Store, r: DeleteRequest, i: ItemId) {
    && i in now.items && now.items[i].collection == r.collection
    && (i !in then_.items || then_.items[i].collection != r.collection)
  }

  lemma DisposedFindsFilings(norm: Norm, st: State, r: DeleteRequest)
    requires Consistent(norm, st, r) && st.phase == Disposed
    ensures Next(st, r).phase == Done(Err(CollectionNotEmpty)) <==> FiledMeanwhile(st, r)
    ensures !Next(st, r).phase.Done? || Next(st, r).committed == st.committed
  {
    if FiledMeanwhile(st, r) {
      var i :| i in st.committed.items && i !in st.touched && st.committed.items[i].collection == r.collection;
      assert Owns(st.committed, st.committed.items[i].owner, r.collection);
    }
  }

  // In every schedule in which the deletion has disposed of the items and its next statement
  // is due: that statement fails with the not-empty conflict if and only if an item has been
  // filed in since the disposal, be it a new one or one that was elsewhere. The committed store
  // is then what the other transactions alone have left.
  lemma LateFilingForcesConflict(norm: Norm, s: Store, r: DeleteRequest, steps: seq<Step>)
    requires Valid(norm, s) && RefusedRequest(r).None? && Schedule(norm, Start(s), r, steps)
    requires Exec(Start(s), r, steps).phase == Disposed
    ensures var now, end := Exec(Start(s), r, steps), Exec(Start(s), r, steps + [Advance]);
            && (end.phase == Done(Err(CollectionNotEmpty))
                <==> exists i :: FiledSince(LastRead(s, r, steps), now.committed, r, i))
            && (end.phase.Done? ==> end.committed == OthersAlone(s, steps))
  {
    var now := Exec(Start(s), r, steps);
    assert (steps + [Advance])[..|steps|] == steps;
    AlwaysConsistent(norm, s, r, steps);
    TouchedSinceDisposal(norm, s, r, steps);
    DisposedFindsFilings(norm, now, r);
    NothingShowsUntilCommit(s, r, steps);
    if FiledMeanwhile(now, r) {
      var i :| i in now.committed.items && i !in now.touched && now.committed.items[i].collection == r.collection;
      assert FiledSince(LastRead(s, r, steps), now.committed, r, i);
    }
  }

  lemma UndisturbedDisposal(s: Store, r: DeleteRequest)
    requires RefusedRequest(r).None?
    ensures var st := Next(Next(Next(Start(s), r), r), r);
            if !Owns(s, r.user, r.collection) then st == Fail(Start(s), CollectionNotFound)
            else if IsUnsorted(s.collections[r.collection]) then st == Fail(Start(s), UnsortedProtected)
            else if r.action == "move" && !Owns(s, r.user, r.target) then st == Fail(Start(s), TargetNotFound)
            else st == State(s, Disposed, ItemsIn(s, r.user, r.collection))
  {
  }

  lemma UndisturbedRemoval(norm: Norm, s: Store, r: DeleteRequest)
    requires Valid(norm, s) && RefusedRequest(r).None?
    requires Owns(s, r.user, r.collection) && !IsUnsorted(s.collections[r.collection])
    requires r.action == "move" ==> Owns(s, r.user, r.target)
    ensures var st := Next(Next(State(s, Disposed, ItemsIn(s, r.user, r.collection)), r), r);
            st.phase == Done(Ok(())) && DeleteCollection(s, r) == (st.committed, Ok(()))
  {
    var disposed := State(s, Disposed, ItemsIn(s, r.user, r.collection));
    forall i | i in s.items && s.items[i].collection == r.collection ensures i in disposed.touched {
      ItemsOfOwned(s, r.user, r.collection, i);
    }
    var last := Next(disposed, r);
    assert last.phase == RowDeleted;
    CommitsAtomically(norm, last, r);
  }

  // With no other transaction in between, the split deletion is the atomic one.
  lemma UndisturbedIsAtomic(norm: Norm, s: Store, r: DeleteRequest)
    requires Valid(norm, s) && RefusedRequest(r).None?
    ensures var disposed := Next(Next(Next(Start(s), r), r), r);
            var st := Next(Next(disposed, r), r);
            st.phase == Done(DeleteCollection(s, r).1) && st.committed == DeleteCollection(s, r).0
  {
    UndisturbedDisposal(s, r);
    if Next(Next(Next(Start(s), r), r), r).phase == Disposed {
      UndisturbedRemoval(norm, s, r);
    }
  }

  // The conflict is reachable: an item filed in between the two statements. The schedule is
  // spelled out statement by statement.
  lemma ConflictHappens(norm: Norm)
    requires norm("Unsorted") != norm("b")
    ensures var before, filed := Two(1), Two(2);
            var r := DeleteRequest(0, 2, "delete", NIL);
            var steps := [Advance, Advance, Advance, Others(filed), Advance];
            && Valid(norm, before) && Schedule(norm, Start(before), r, steps)
            && Exec(Start(before), r, steps) == State(filed, Done(Err(CollectionNotEmpty)), {})
  {
    var r := DeleteRequest(0, 2, "delete", NIL);
    TwoIsValid(norm, 1);
    ThreeStatements(Two(1), r);
    FilingIsPermitted(norm, r);
    OneBetween(norm, Two(1), Two(2), r);
  }

  lemma FilingIsPermitted(norm: Norm, r: DeleteRequest)
    requires norm("Unsorted") != norm("b") && r == DeleteRequest(0, 2, "delete", NIL)
    ensures ItemsIn(Two(1), 0, 2) == {} && Permitted(norm, State(Two(1), Disposed, {}), r, Two(2))
    ensures Next(State(Two(2), Disposed, {}), r) == State(Two(2), Done(Err(CollectionNotEmpty)), {})
  {
    TwoIsValid(norm, 2);
    assert Two(2).items[7].collection == 2;
  }

  lemma OneBetween(norm: Norm, s: Store, t: Store, r: DeleteRequest)
    requires Exec(Start(s), r, [Advance, Advance, Advance]) == State(s, Disposed, {})
    requires Permitted(norm, State(s, Disposed, {}), r, t)
    ensures var steps := [Advance, Advance, Advance, Others(t), Advance];
            && Schedule(norm, Start(s), r, steps)
            && Exec(Start(s), r, steps) == Next(State(t, Disposed, {}), r)
  {
    var steps := [Advance, Advance, Advance, Others(t), Advance];
    assert steps[..4] == [Advance, Advance, Advance, Others(t)];
    assert steps[..4][..3] == [Advance, Advance, Advance] == steps[..3];
  }

  // One user with the collections Unsorted and b, and one item in one of them.
  function Two(at: CollectionId): Store {
    Store({0}, map[1 := Collection(0, "Unsorted", Some(UNSORTED)), 2 := Collection(0, "b", None)],
        map[7 := Item(0, at)])
  }

  lemma TwoIsValid(norm: Norm, at: CollectionId)
    requires norm("Unsorted") != norm("b") && at in {1, 2}
    ensures Valid(norm, Two(at))
  {
    assert Owns(Two(at), 0, 1);
  }

  lemma ThreeStatements(s: Store, r: DeleteRequest)
    requires r.action == "delete" && Owns(s, r.user, r.collection) && !IsUnsorted(s.collections[r.collection])
    ensures Exec(Start(s), r, [Advance, Advance, Advance]) == State(s, Disposed, ItemsIn(s, r.user, r.collection))
  {
    var steps := [Advance, Advance, Advance];
    assert steps[..2] == [Advance, Advance] && [Advance, Advance][..1] == [Advance] && [Advance][..0] == [];
    assert Exec(Start(s), r, [Advance]) == State(s, SourceRead, {});
    assert Exec(Start(s), r, [Advance, Advance]) == State(s, TargetRead, {});
  }

  // ----- the other two exceptions are reachable as well -----

  lemma ThenAdvance(st: State, r: DeleteRequest, steps: seq<Step>)
    ensures Exec(st, r, steps + [Advance]) == Next(Exec(st, r, steps), r)
  {
    assert (steps + [Advance])[..|steps|] == steps;
  }

  lemma ThenOthers(st: State, r: DeleteRequest, steps: seq<Step>, t: Store)
    ensures Exec(st, r, steps + [Others(t)]) == Exec(st, r, steps).(committed := t)
  {
    assert (steps + [Others(t)])[..|steps|] == steps;
  }

  // A schedule of one foreign commit.
  lemma OneOthers(norm: Norm, st: State, r: DeleteRequest, steps: seq<Step>, k: nat)
    requires k < |steps| && steps[k].Others? && forall j :: 0 <= j < |steps| && j != k ==> steps[j] == Advance
    requires Permitted(norm, Exec(st, r, steps[..k]), r, steps[k].store)
    ensures Schedule(norm, st, r, steps)
  {
  }

  // Two statements, a foreign commit, and two statements more.
  lemma CommitAfterLookup(norm: Norm, s: Store, t: Store, r: DeleteRequest)
    requires Next(Next(Start(s), r), r) == State(s, TargetRead, {})
    requires Permitted(norm, State(s, TargetRead, {}), r, t)
    ensures var steps := [Advance] + [Advance] + [Others(t)] + [Advance] + [Advance];
            && Schedule(norm, Start(s), r, steps)
            && Exec(Start(s), r, steps) == Next(Next(State(t, TargetRead, {}), r), r)
  {
    var start, looked := Start(s), [Advance] + [Advance];
    var gone := looked + [Others(t)];
    var steps := gone + [Advance] + [Advance];
    assert [] + [Advance] == [Advance];
    ThenAdvance(start, r, []);
    ThenAdvance(start, r, [Advance]);
    ThenOthers(start, r, looked, t);
    ThenAdvance(start, r, gone);
    ThenAdvance(start, r, gone + [Advance]);
    assert steps[..2] == looked;
    OneOthers(norm, start, r, steps, 2);
  }

  // One statement and a foreign commit.
  lemma CommitAfterRead(norm: Norm, s: Store, t: Store, r: DeleteRequest)
    requires Next(Start(s), r) == State(s, SourceRead, {})
    requires Permitted(norm, State(s, SourceRead, {}), r, t)
    ensures var steps := [Advance] + [Others(t)];
            && Schedule(norm, Start(s), r, steps)
            && Exec(Start(s), r, steps) == State(t, SourceRead, {})
  {
    var steps := [Advance] + [Others(t)];
    assert [] + [Advance] == [Advance];
    ThenAdvance(Start(s), r, []);
    ThenOthers(Start(s), r, [Advance], t);
    assert steps[..1] == [Advance];
    OneOthers(norm, Start(s), r, steps, 1);
  }

  // A request to move from one empty collection to another, neither of them Unsorted.
  predicate MovesNothing(s: Store, r: DeleteRequest) {
    && RefusedRequest(r).None? && r.action == "move"
    && Owns(s, r.user, r.collection) && !IsUnsorted(s.collections[r.collection]) && !Referenced(s, r.collection)
    && Owns(s, r.user, r.target) && !IsUnsorted(s.collections[r.target]) && !Referenced(s, r.target)
  }

  // A commit that removes one collection, while the deletion has touched nothing.
  lemma RemovingIsPermitted(norm: Norm, st: State, r: DeleteRequest, t: Store)
    requires Valid(norm, t) && st.touched == {} && st.phase != RowDeleted
    requires t.items == st.committed.items && t.collections.Keys <= st.committed.collections.Keys
    requires forall c :: c in t.collections ==> t.collections[c] == st.committed.collections[c]
    ensures Permitted(norm, st, r, t)
  {
  }

  // The target goes after it was looked up, and there is nothing to move: the deletion succeeds
  // although the atomic one would not.
  lemma TargetVanishes(norm: Norm, s: Store, r: DeleteRequest)
    requires Valid(norm, s) && MovesNothing(s, r)
    ensures var t := RemoveCollection(s, r.target);
            var steps := [Advance] + [Advance] + [Others(t)] + [Advance] + [Advance];
            && Schedule(norm, Start(s), r, steps)
            && var st := Exec(Start(s), r, steps);
               && Decides(st, r) && Next(st, r).phase == Done(Ok(()))
               && DeleteCollection(st.committed, r).1 == Err(TargetNotFound)
  {
    var t := RemoveCollection(s, r.target);
    EmptyMayGo(norm, s, r.target);
    RemovingIsPermitted(norm, State(s, TargetRead, {}), r, t);
    CommitAfterLookup(norm, s, t, r);
    NothingToMove(t, r);
  }

  lemma NothingToMove(t: Store, r: DeleteRequest)
    requires RefusedRequest(r).None? && r.action == "move" && !Referenced(t, r.collection)
    requires Owns(t, r.user, r.collection) && !IsUnsorted(t.collections[r.collection]) && !Owns(t, r.user, r.target)
    ensures var st := Next(Next(State(t, TargetRead, {}), r), r);
            st == State(t, RowDeleted, {}) && Next(st, r).phase == Done(Ok(()))
    ensures DeleteCollection(t, r).1 == Err(TargetNotFound)
  {
    assert ItemsIn(t, r.user, r.collection) == {};
  }

  function WithoutBoth(s: Store, r: DeleteRequest): Store {
    RemoveCollection(RemoveCollection(s, r.target), r.collection)
  }

  lemma BothMayGo(norm: Norm, s: Store, r: DeleteRequest)
    requires Valid(norm, s) && MovesNothing(s, r)
    ensures Valid(norm, WithoutBoth(s, r))
    ensures !Owns(WithoutBoth(s, r), r.user, r.collection) && !Owns(WithoutBoth(s, r), r.user, r.target)
  {
    EmptyMayGo(norm, s, r.target);
    EmptyMayGo(norm, RemoveCollection(s, r.target), r.collection);
  }

  lemma BothMayGoBetween(norm: Norm, s: Store, r: DeleteRequest)
    requires Valid(norm, s) && MovesNothing(s, r)
    ensures Permitted(norm, State(s, SourceRead, {}), r, WithoutBoth(s, r))
  {
    BothMayGo(norm, s, r);
    RemovingIsPermitted(norm, State(s, SourceRead, {}), r, WithoutBoth(s, r));
  }

  lemma TargetIsMissedFirst(t: Store, r: DeleteRequest)
    requires RefusedRequest(r).None? && r.action == "move"
    requires !Owns(t, r.user, r.collection) && !Owns(t, r.user, r.target)
    ensures Decides(State(t, SourceRead, {}), r)
    ensures Next(State(t, SourceRead, {}), r).phase == Done(Err(TargetNotFound))
    ensures DeleteCollection(t, r).1 == Err(CollectionNotFound)
  {
  }

  // The source and the target both go after the source was read: the missing target is what is
  // reported, although the atomic deletion would report the missing source.
  lemma SourceVanishes(norm: Norm, s: Store, r: DeleteRequest)
    requires Valid(norm, s) && MovesNothing(s, r)
    ensures var steps := [Advance] + [Others(WithoutBoth(s, r))];
            && Schedule(norm, Start(s), r, steps)
            && var st := Exec(Start(s), r, steps);
               && Decides(st, r) && Next(st, r).phase == Done(Err(TargetNotFound))
               && DeleteCollection(st.committed, r).1 == Err(CollectionNotFound)
  {
    BothMayGo(norm, s, r);
    BothMayGoBetween(norm, s, r);
    CommitAfterRead(norm, s, WithoutBoth(s, r), r);
    TargetIsMissedFirst(WithoutBoth(s, r), r);
  }
}
