/**
  What a listing request gets, by the text and the numbers in it: which order, how many rows,
  and whose.
*/
module ListingRequests {
  import opened Options
  import opened Keyset
  import opened Cursor
  import opened Listing
  import opened ListingRuns
  import opened ItemListingRuns

  // ----- collections -----

  // The order that the text of a request asks for. The collection whose system key says
  // "unsorted" comes first; then, unless the request says otherwise, the newest.
  predicate AskedBefore(col: Collation, text: string, a: Row, b: Row) {
    if (a.systemKey == Some("unsorted")) != (b.systemKey == Some("unsorted")) then a.systemKey == Some("unsorted")
    else if text == "" || text == "newest" then a.created > b.created || (a.created == b.created && a.id > b.id)
    else if text == "oldest" then a.created < b.created || (a.created == b.created && a.id < b.id)
    else
      var x, y := col.rank(col.reduce(a.name)), col.rank(col.reduce(b.name));
      x < y || (x == y && a.id < b.id)
  }

  predicate IsAskable(text: string) {
    text in {"", "newest", "oldest", "name"}
  }

  lemma SortAsked(text: string)
    ensures ResolveSort(text).Some? <==> IsAskable(text)
    ensures text == "" || text == "newest" ==> ResolveSort(text) == Some(Newest)
    ensures text == "oldest" ==> ResolveSort(text) == Some(Oldest)
    ensures text == "name" ==> ResolveSort(text) == Some(Name)
  {
  }

  lemma AskedIsListed(col: Collation, text: string, sort: Sort, a: Row, b: Row)
    requires ResolveSort(text) == Some(sort)
    ensures Before(PlaceOf(col, sort, a), PlaceOf(col, sort, b)) <==> AskedBefore(col, text, a, b)
  {
    SortAsked(text);
    PlacesAreTheOrder(col, sort, a, b);
  }

  ghost predicate InAskedOrder(col: Collation, text: string, rows: seq<Row>) {
    forall i, j :: 0 <= i < j < |rows| ==> AskedBefore(col, text, rows[i], rows[j])
  }

  lemma IncreasingIsAsked(col: Collation, text: string, sort: Sort, rows: seq<Row>)
    requires ResolveSort(text) == Some(sort) && Increasing(rows, Placing(col, sort))
    ensures InAskedOrder(col, text, rows)
  {
    forall i, j | 0 <= i < j < |rows| ensures AskedBefore(col, text, rows[i], rows[j]) {
      AskedIsListed(col, text, sort, rows[i], rows[j]);
    }
  }

  // How many rows a page may hold: twenty unless the request says how many, and fifty at most.
  function AskedLimit(limit: int): int {
    if limit < 1 then 20 else if limit > 50 then 50 else limit
  }

  lemma LimitAsked(limit: int)
    ensures ClampLimit(limit) == AskedLimit(limit)
  {
  }

  // What any page holds: rows of the user, no more than asked for, in the order asked for. Any
  // other order than the four texts is refused.
  lemma PageIsAsAsked(
      c: Codec, col: Collation, table: seq<Row>, user: Id, text: string, limit: int, token: string)
    requires Keyed(table)
    ensures var page := CollectionPage(c, col, table, user, text, limit, token);
            && (!IsAskable(text) ==> page == Err(InvalidSort))
            && (page.Ok? ==>
                  && page.value.limit == AskedLimit(limit) && |page.value.rows| <= AskedLimit(limit)
                  && InAskedOrder(col, text, page.value.rows)
                  && forall r :: r in page.value.rows ==> r in table && r.owner == user)
  {
    SortAsked(text);
    var page := CollectionPage(c, col, table, user, text, limit, token);
    if page.Ok? {
      var sort := ResolveSort(text).value;
      var cut := CollectionCut(c, col, sort, token).value;
      LimitAsked(limit);
      OwnedIsListable(col, sort, table, user);
      PageByPlaces(Owned(table, user), Placing(col, sort), cut, ClampLimit(limit),
                   (last: Row) => EncodeCollectionCursor(c, sort, last));
      PageInOrder(Owned(table, user), Placing(col, sort), cut, ClampLimit(limit));
      IncreasingIsAsked(col, text, sort, page.value.rows);
    }
  }

  // What the first page holds: the rows of the user that come first in the order asked for, and
  // all of them when it says that there is no more.
  lemma FirstPageIsTheFront(c: Codec, col: Collation, table: seq<Row>, user: Id, text: string, limit: int)
    requires Keyed(table) && IsAskable(text)
    ensures var page := CollectionPage(c, col, table, user, text, limit, "");
            && page.Ok?
            && (page.value.hasMore <==> page.value.next.Some?)
            && (page.value.hasMore ==> |page.value.rows| == AskedLimit(limit))
            && (page.value.hasMore <==> exists r :: r in table && r.owner == user && r !in page.value.rows)
            && forall r, a :: r in table && r.owner == user && r !in page.value.rows && a in page.value.rows ==>
                 AskedBefore(col, text, a, r)
  {
    SortAsked(text);
    LimitAsked(limit);
    var sort := ResolveSort(text).value;
    var own, place, size := Owned(table, user), Placing(col, sort), ClampLimit(limit);
    var all, rows := Rest(own, place, FromStart), CollectionPage(c, col, table, user, text, limit, "").value.rows;
    OwnedIsListable(col, sort, table, user);
    RestMeaning(own, place, FromStart);
    if |all| > size {
      LeftOutComesAfter(all, place, size);
      forall r, a | r in own && r !in rows && a in rows ensures AskedBefore(col, text, a, r) {
        AskedIsListed(col, text, sort, a, r);
      }
      assert all[size] in own && all[size] !in rows;
    }
  }

  // What is left out of the front of an increasing sequence comes after all of the front.
  lemma LeftOutComesAfter<T(!new)>(all: seq<T>, place: T -> Place, n: nat)
    requires Increasing(all, place) && n < |all|
    ensures all[n] in all && all[n] !in all[..n]
    ensures forall r, a :: r in all && r !in all[..n] && a in all[..n] ==> Before(place(a), place(r))
  {
    assert forall i :: 0 <= i < n ==> all[..n][i] == all[i];
    assert forall i :: 0 <= i < n ==> all[i] in all[..n];
    forall a | a in all[..n] ensures Before(place(a), place(all[n])) {
      var i :| 0 <= i < n && all[i] == a;
    }
    forall r, a | r in all && r !in all[..n] && a in all[..n] ensures Before(place(a), place(r)) {
      var k :| 0 <= k < |all| && all[k] == r;
      var i :| 0 <= i < n && all[i] == a;
      assert n <= k;
    }
  }

  // A whole reading, whatever changes between its pages, comes in the order asked for.
  lemma ReadingIsAsAsked(
      c: Codec, col: Collation, user: Id, text: string, requests: seq<Request<Row>>, history: set<Row>)
    requires Faithful(c) && IsAskable(text)
    requires forall sort :: ResolveSort(text) == Some(sort) ==> Orderly(c, col, sort, requests)
    requires RowsArePermanent(history) && Within(requests, history)
    ensures var pages := Follow(c, col, user, text, requests, "");
            && pages.Some? && InAskedOrder(col, text, Listed(pages.value))
            && forall i, j :: 0 <= i < j < |Listed(pages.value)| ==>
                 Listed(pages.value)[i].id != Listed(pages.value)[j].id
  {
    SortAsked(text);
    var sort := ResolveSort(text).value;
    ListedOnceInOrder(c, col, sort, user, text, requests, history);
    IncreasingIsAsked(col, text, sort, Listed(Follow(c, col, user, text, requests, "").value));
  }

  // ----- saved items -----

  // The newest first, and of two saved at one instant the one with the later identifier.
  ghost predicate NewestFirst(rows: seq<ItemRow>) {
    forall i, j :: 0 <= i < j < |rows| ==>
      rows[i].created > rows[j].created || (rows[i].created == rows[j].created && rows[i].id > rows[j].id)
  }

  // What any page of items holds: items of the user, of the one collection if one is asked for,
  // no more than asked for, the newest first.
  lemma ItemPageIsAsAsked(c: Codec, table: seq<ItemRow>, user: Id, scope: Scope, limit: int, token: string)
    requires KeyedItems(table)
    ensures var page := ItemPage(c, table, user, scope, limit, token);
            page.Ok? ==>
              && page.value.limit == AskedLimit(limit) && |page.value.rows| <= AskedLimit(limit)
              && NewestFirst(page.value.rows)
              && forall r :: r in page.value.rows ==>
                   r in table && r.owner == user && (scope == Everything || scope == InCollection(r.collection))
  {
    var page := ItemPage(c, table, user, scope, limit, token);
    if page.Ok? {
      var own, cut, size := Scoped(table, user, scope), ItemCut(c, token).value, ClampLimit(limit);
      LimitAsked(limit);
      ScopedIsListable(table, user, scope);
      PageByPlaces(own, ItemPlace, cut, size, (last: ItemRow) => EncodeItemCursor(c, last));
      PageInOrder(own, ItemPlace, cut, size);
      forall i, j | 0 <= i < j < |page.value.rows|
        ensures var a, b := page.value.rows[i], page.value.rows[j];
                a.created > b.created || (a.created == b.created && a.id > b.id)
      {
        assert Before(ItemPlace(page.value.rows[i]), ItemPlace(page.value.rows[j]));
      }
    }
  }

  predicate Asked(r: ItemRow, user: Id, scope: Scope) {
    r.owner == user && (scope == Everything || scope == InCollection(r.collection))
  }

  // What the first page of items holds: the newest of those asked for, and all of them when it
  // says that there is no more.
  lemma FirstItemsAreTheNewest(c: Codec, table: seq<ItemRow>, user: Id, scope: Scope, limit: int)
    requires KeyedItems(table)
    ensures var page := ItemPage(c, table, user, scope, limit, "");
            && page.Ok?
            && (page.value.hasMore <==> page.value.next.Some?)
            && (page.value.hasMore ==> |page.value.rows| == AskedLimit(limit))
            && (page.value.hasMore <==> exists r :: r in table && Asked(r, user, scope) && r !in page.value.rows)
            && forall r, a :: r in table && Asked(r, user, scope) && r !in page.value.rows && a in page.value.rows ==>
                 a.created > r.created || (a.created == r.created && a.id > r.id)
  {
    LimitAsked(limit);
    var own, size := Scoped(table, user, scope), ClampLimit(limit);
    var all, rows := Rest(own, ItemPlace, FromStart), ItemPage(c, table, user, scope, limit, "").value.rows;
    ScopedIsListable(table, user, scope);
    RestMeaning(own, ItemPlace, FromStart);
    assert forall r :: r in table && Asked(r, user, scope) <==> r in all;
    if |all| > size {
      LeftOutComesAfter(all, ItemPlace, size);
      assert Asked(all[size], user, scope);
    }
  }
}
