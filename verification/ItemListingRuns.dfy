/**
  Reading a listing of saved items by following its tokens: all of a user's items, or those
  filed in one collection, while items are saved, deleted and filed elsewhere between pages.
*/
module ItemListingRuns {
  import opened Options
  import opened Keyset
  import opened Cursor
  import opened Listing
  import opened ListingRuns

  // Identifiers are unique, and none is nil.
  ghost predicate KeyedItems(table: seq<ItemRow>) {
    && (forall i, j :: 0 <= i < j < |table| ==> table[i].id != table[j].id)
    && (forall r :: r in table ==> r.id != NIL)
  }

  ghost predicate OrderlyItems(requests: seq<Request<ItemRow>>) {
    forall k :: 0 <= k < |requests| ==> KeyedItems(requests[k].table)
  }

  lemma {:induction false} ScopedIsListable(table: seq<ItemRow>, user: Id, scope: Scope)
    requires KeyedItems(table)
    ensures Listable(Scoped(table, user, scope), ItemPlace)
  {
    if table == [] {
    } else {
      forall r | r in table[1..] ensures r in table {}
      ScopedIsListable(table[1..], user, scope);
      var rest := Scoped(table[1..], user, scope);
      forall j | 0 <= j < |rest| ensures ItemPlace(rest[j]) != ItemPlace(table[0]) {
        assert rest[j] in rest;
        var k :| 0 <= k < |table[1..]| && table[1..][k] == rest[j];
        assert table[k + 1] == rest[j];
      }
    }
  }

  lemma ItemTokenResumesAtTheRow(c: Codec, last: ItemRow)
    requires Faithful(c) && last.id != NIL
    ensures ItemCut(c, EncodeItemCursor(c, last)) == Ok(CutAfter(ItemPlace(last)))
  {
    ItemCursorRoundTrip(c, last);
  }

  // The pages a client gets that asks again with each token it is given, or None when one of
  // its requests is refused.
  function FollowItems(
      c: Codec, user: Id, scope: Scope, requests: seq<Request<ItemRow>>, token: string): Option<seq<Page<ItemRow>>>
    decreases |requests|
  {
    if requests == [] then Some([])
    else
      match ItemPage(c, requests[0].table, user, scope, requests[0].limit, token)
      case Err(_) => None
      case Ok(page) =>
        if page.next.None? then Some([page])
        else
          match FollowItems(c, user, scope, requests[1..], page.next.value)
          case None => None
          case Some(pages) => Some([page] + pages)
  }

  function ItemVisits(user: Id, scope: Scope, requests: seq<Request<ItemRow>>): (visits: seq<Visit<ItemRow>>)
    ensures |visits| == |requests|
  {
    seq(|requests|, k requires 0 <= k < |requests| =>
      Visit(Scoped(requests[k].table, user, scope), ClampLimit(requests[k].limit)))
  }

  lemma PageOfItemVisit(c: Codec, table: seq<ItemRow>, user: Id, scope: Scope, limit: int, token: string, cut: Cut)
    requires Faithful(c) && KeyedItems(table) && ItemCut(c, token) == Ok(cut)
    ensures var own, size := Scoped(table, user, scope), ClampLimit(limit);
            var page := ItemPage(c, table, user, scope, limit, token);
            && page.Ok? && page.value.rows == PageRows(own, ItemPlace, cut, size)
            && (page.value.next.Some? <==> HasMore(own, ItemPlace, cut, size))
            && (HasMore(own, ItemPlace, cut, size) ==>
                  ItemCut(c, page.value.next.value) == Ok(NextCut(own, ItemPlace, cut, size)))
  {
    var own, size := Scoped(table, user, scope), ClampLimit(limit);
    ScopedIsListable(table, user, scope);
    PageByPlaces(own, ItemPlace, cut, size, (last: ItemRow) => EncodeItemCursor(c, last));
    if HasMore(own, ItemPlace, cut, size) {
      var last := Last(PageRows(own, ItemPlace, cut, size));
      assert last in own;
      ItemTokenResumesAtTheRow(c, last);
    }
  }

  lemma FollowsOneMoreItemPage(
      c: Codec, user: Id, scope: Scope, requests: seq<Request<ItemRow>>, token: string, page: Page<ItemRow>,
          rest: seq<Page<ItemRow>>)
    requires requests != [] && page.next.Some?
    requires ItemPage(c, requests[0].table, user, scope, requests[0].limit, token) == Ok(page)
    requires FollowItems(c, user, scope, requests[1..], page.next.value) == Some(rest)
    ensures FollowItems(c, user, scope, requests, token) == Some([page] + rest)
  {
  }

  lemma LaterItemVisits(user: Id, scope: Scope, requests: seq<Request<ItemRow>>)
    requires requests != []
    ensures ItemVisits(user, scope, requests)[0]
         == Visit(Scoped(requests[0].table, user, scope), ClampLimit(requests[0].limit))
    ensures ItemVisits(user, scope, requests)[1..] == ItemVisits(user, scope, requests[1..])
  {
  }

  lemma {:induction false} ItemTokensFollowPlaces(
      c: Codec, user: Id, scope: Scope, requests: seq<Request<ItemRow>>, token: string, cut: Cut)
    requires Faithful(c) && OrderlyItems(requests) && ItemCut(c, token) == Ok(cut)
    ensures Matches(FollowItems(c, user, scope, requests, token), ItemVisits(user, scope, requests), ItemPlace, cut)
    decreases |requests|
  {
    if requests == [] {
    } else {
      var visits := ItemVisits(user, scope, requests);
      LaterItemVisits(user, scope, requests);
      PageOfItemVisit(c, requests[0].table, user, scope, requests[0].limit, token, cut);
      var page := ItemPage(c, requests[0].table, user, scope, requests[0].limit, token).value;
      if page.next.Some? {
        var next := NextCut(visits[0].rows, ItemPlace, cut, visits[0].limit);
        ItemTokensFollowPlaces(c, user, scope, requests[1..], page.next.value, next);
        var rest := FollowItems(c, user, scope, requests[1..], page.next.value).value;
        MatchesOneMore(page, rest, visits, ItemPlace, cut);
        FollowsOneMoreItemPage(c, user, scope, requests, token, page, rest);
      } else {
        MatchesTheLast(page, visits, ItemPlace, cut);
      }
    }
  }

  // ----- what a client gets -----

  // Over all of time an identifier names one item, saved at one instant. Where the item is
  // filed may change.
  ghost predicate InstantsArePermanent(history: set<ItemRow>) {
    forall a, b :: a in history && b in history && a.id == b.id ==> a.created == b.created
  }

  ghost predicate ItemsWithin(requests: seq<Request<ItemRow>>, history: set<ItemRow>) {
    forall k, r :: 0 <= k < |requests| && r in requests[k].table ==> r in history
  }

  function MyItems(history: set<ItemRow>, user: Id, scope: Scope): set<ItemRow> {
    set r | r in history && InScope(r, user, scope)
  }

  lemma ItemVisitsAreListable(user: Id, scope: Scope, requests: seq<Request<ItemRow>>)
    requires OrderlyItems(requests)
    ensures AllListable(ItemVisits(user, scope, requests), ItemPlace)
  {
    forall k | 0 <= k < |requests| ensures Listable(ItemVisits(user, scope, requests)[k].rows, ItemPlace) {
      ScopedIsListable(requests[k].table, user, scope);
    }
  }

  // Whatever is saved, deleted and filed elsewhere between the pages: the client is never
  // refused, gets only items of its own that were in scope, the newest first, and no item
  // twice.
  lemma ItemsListedOnceInOrder(c: Codec, user: Id, scope: Scope, requests: seq<Request<ItemRow>>, history: set<ItemRow>)
    requires Faithful(c) && OrderlyItems(requests) && InstantsArePermanent(history) && ItemsWithin(requests, history)
    ensures FollowItems(c, user, scope, requests, "").Some?
    ensures var rows := Listed(FollowItems(c, user, scope, requests, "").value);
            && Increasing(rows, ItemPlace)
            && (forall i :: 0 <= i < |rows| ==> rows[i] in MyItems(history, user, scope))
            && (forall i, j :: 0 <= i < j < |rows| ==> rows[i].id != rows[j].id)
  {
    var visits := ItemVisits(user, scope, requests);
    ItemTokensFollowPlaces(c, user, scope, requests, "", FromStart);
    ItemVisitsAreListable(user, scope, requests);
    RowsComeInOrder(visits, ItemPlace, FromStart);
    RowsWereThere(visits, ItemPlace, FromStart, MyItems(history, user, scope));
    var rows := Listed(FollowItems(c, user, scope, requests, "").value);
    assert forall i :: 0 <= i < |rows| ==> rows[i] in rows;
    forall i, j | 0 <= i < j < |rows| ensures rows[i].id != rows[j].id {
      assert Before(ItemPlace(rows[i]), ItemPlace(rows[j]));
    }
  }

  // The item `id` is in scope in this table, wherever in scope it is filed.
  predicate IsThere(table: seq<ItemRow>, user: Id, scope: Scope, id: Id) {
    exists r :: r in table && InScope(r, user, scope) && r.id == id
  }

  predicate Names(rows: seq<ItemRow>, id: Id) {
    exists i :: 0 <= i < |rows| && rows[i].id == id
  }

  // And once it is told that there is no more, it has had every item that was in scope at
  // each of its requests.
  lemma ItemPresentThroughoutIsListed(
      c: Codec, user: Id, scope: Scope, requests: seq<Request<ItemRow>>, history: set<ItemRow>, id: Id)
    requires Faithful(c) && OrderlyItems(requests) && InstantsArePermanent(history) && ItemsWithin(requests, history)
    requires var pages := FollowItems(c, user, scope, requests, "");
             pages.Some? && Finished(pages.value)
             && forall k :: 0 <= k < |pages.value| ==> k < |requests| && IsThere(requests[k].table, user, scope, id)
    ensures Names(Listed(FollowItems(c, user, scope, requests, "").value), id)
  {
    var n := |FollowItems(c, user, scope, requests, "").value|;
    NoMorePagesThanRequests(c, user, scope, requests);
    assert IsThere(requests[0].table, user, scope, id);
    var first :| first in requests[0].table && InScope(first, user, scope) && first.id == id;
    ThereIsHeld(user, scope, requests, n, history, first);
    HeldThroughoutIsListed(c, user, scope, requests, ItemPlace(first));
    SamePlaceIsNamed(Listed(FollowItems(c, user, scope, requests, "").value), first);
  }

  lemma NoMorePagesThanRequests(c: Codec, user: Id, scope: Scope, requests: seq<Request<ItemRow>>)
    requires Faithful(c) && OrderlyItems(requests)
    ensures var pages := FollowItems(c, user, scope, requests, ""); pages.Some? && |pages.value| <= |requests|
  {
    ItemTokensFollowPlaces(c, user, scope, requests, "", FromStart);
    assert |RowsOf(FollowItems(c, user, scope, requests, "").value)| <= |requests|;
  }

  lemma SamePlaceIsNamed(rows: seq<ItemRow>, first: ItemRow)
    requires Holds(rows, ItemPlace, ItemPlace(first))
    ensures Names(rows, first.id)
  {
  }

  lemma ThereIsHeld(
      user: Id, scope: Scope, requests: seq<Request<ItemRow>>, n: nat, history: set<ItemRow>, first: ItemRow)
    requires InstantsArePermanent(history) && ItemsWithin(requests, history) && first in history && n <= |requests|
    requires forall k :: 0 <= k < n ==> IsThere(requests[k].table, user, scope, first.id)
    ensures forall k :: 0 <= k < n ==> Holds(Scoped(requests[k].table, user, scope), ItemPlace, ItemPlace(first))
  {
    forall k | 0 <= k < n ensures Holds(Scoped(requests[k].table, user, scope), ItemPlace, ItemPlace(first)) {
      HeldWhereThere(requests[k].table, user, scope, history, first);
    }
  }

  lemma HeldThroughoutIsListed(c: Codec, user: Id, scope: Scope, requests: seq<Request<ItemRow>>, p: Place)
    requires Faithful(c) && OrderlyItems(requests)
    requires var pages := FollowItems(c, user, scope, requests, "");
             && pages.Some? && Finished(pages.value) && |pages.value| <= |requests|
             && forall k :: 0 <= k < |pages.value| ==> Holds(Scoped(requests[k].table, user, scope), ItemPlace, p)
    ensures Holds(Listed(FollowItems(c, user, scope, requests, "").value), ItemPlace, p)
  {
    var visits := ItemVisits(user, scope, requests);
    var pages := FollowItems(c, user, scope, requests, "").value;
    ItemTokensFollowPlaces(c, user, scope, requests, "", FromStart);
    ItemVisitsAreListable(user, scope, requests);
    assert |RowsOf(pages)| == |pages|;
    NothingIsMissed(visits, ItemPlace, FromStart, p);
  }

  lemma HeldWhereThere(table: seq<ItemRow>, user: Id, scope: Scope, history: set<ItemRow>, first: ItemRow)
    requires InstantsArePermanent(history) && first in history && forall r :: r in table ==> r in history
    requires IsThere(table, user, scope, first.id)
    ensures Holds(Scoped(table, user, scope), ItemPlace, ItemPlace(first))
  {
    var r :| r in table && InScope(r, user, scope) && r.id == first.id;
    var own := Scoped(table, user, scope);
    var i :| 0 <= i < |own| && own[i] == r;
  }

  // Items that stay as they are come back whole and in order, in as many pages as their number
  // divided by the page size and rounded up, one at least.
  lemma StillItemsAreListedWhole(
      c: Codec, user: Id, scope: Scope, requests: seq<Request<ItemRow>>, table: seq<ItemRow>, limit: int)
    requires Faithful(c) && OrderlyItems(requests) && KeyedItems(table)
    requires forall k :: 0 <= k < |requests| ==> requests[k] == Request(table, limit)
    requires |requests| >= PageCount(|Rest(Scoped(table, user, scope), ItemPlace, FromStart)|, ClampLimit(limit))
    ensures var pages := FollowItems(c, user, scope, requests, "");
            && pages.Some? && Finished(pages.value)
            && |pages.value| == PageCount(|Listed(pages.value)|, ClampLimit(limit))
            && AllButTheLastFull(RowsOf(pages.value), ClampLimit(limit))
            && Increasing(Listed(pages.value), ItemPlace)
            && forall r :: r in Listed(pages.value) <==> r in table && InScope(r, user, scope)
  {
    var visits, own := ItemVisits(user, scope, requests), Scoped(table, user, scope);
    ItemTokensFollowPlaces(c, user, scope, requests, "", FromStart);
    ScopedIsListable(table, user, scope);
    NumberOfPages(own, visits, ItemPlace, FromStart, ClampLimit(limit));
    PagesMakeTheTable(own, visits, ItemPlace, FromStart);
    RestMeaning(own, ItemPlace, FromStart);
  }
}
