/**
  Reading a whole listing by following its tokens, while the tables change between pages.
*/
module ListingRuns {
  import opened Options
  import opened Keyset
  import opened Cursor
  import opened Listing
  import CollectionStore

  // ----- what the store keeps -----

  // Identifiers are unique and a user has at most one Unsorted collection.
  ghost predicate Keyed(table: seq<Row>) {
    && (forall i, j :: 0 <= i < j < |table| ==> table[i].id != table[j].id)
    && (forall a, b :: a in table && b in table && a.owner == b.owner && IsUnsorted(a) && IsUnsorted(b) ==> a == b)
  }

  // The token's form of a name stands where the database's own form of it stands.
  predicate NameAgrees(c: Codec, col: Collation, r: Row) {
    col.rank(CursorName(c, r.name)) == col.rank(col.reduce(r.name))
  }

  // Every row can be the last of a page: its identifier is not nil and, for the sort by
  // name, its name is not blank and both sides agree where it stands.
  ghost predicate Resumable(c: Codec, col: Collation, sort: Sort, table: seq<Row>) {
    forall r :: r in table ==> Recordable(c, sort, r) && (sort == Name ==> NameAgrees(c, col, r))
  }

  // A listing of the collections in a store, in any order.
  ghost predicate Shows(table: seq<Row>, s: CollectionStore.Store) {
    && (forall i, j :: 0 <= i < j < |table| ==> table[i].id != table[j].id)
    && (forall r :: r in table ==>
          r.id in s.collections && s.collections[r.id] == CollectionStore.Collection(r.owner, r.name, r.systemKey))
  }

  // The store's own constraints make its collections listable under the sorts by time, and
  // under the sort by name where names are not blank and both sides agree on them.
  lemma StoreIsKeyed(c: Codec, col: Collation, s: CollectionStore.Store, table: seq<Row>, sort: Sort)
    requires CollectionStore.Valid(col.reduce, s) && Shows(table, s)
    requires sort == Name ==> forall r :: r in table ==> CursorName(c, r.name) != "" && NameAgrees(c, col, r)
    ensures Keyed(table) && Resumable(c, col, sort, table)
  {
    forall a, b | a in table && b in table && a.owner == b.owner && IsUnsorted(a) && IsUnsorted(b) ensures a == b {
      assert CollectionStore.SameSystemKey(s.collections[a.id], s.collections[b.id]);
      var i :| 0 <= i < |table| && table[i] == a;
      var j :| 0 <= j < |table| && table[j] == b;
    }
  }

  lemma {:induction false} OwnedIsListable(col: Collation, sort: Sort, table: seq<Row>, user: Id)
    requires Keyed(table)
    ensures Listable(Owned(table, user), Placing(col, sort))
  {
    if table == [] {
    } else {
      forall r | r in table[1..] ensures r in table {}
      OwnedIsListable(col, sort, table[1..], user);
      var rest := Owned(table[1..], user);
      forall j | 0 <= j < |rest| ensures PlaceOf(col, sort, rest[j]) != PlaceOf(col, sort, table[0]) {
        assert rest[j] in rest;
        var k :| 0 <= k < |table[1..]| && table[1..][k] == rest[j];
        assert table[k + 1] == rest[j];
      }
    }
  }

  // The token of a page resumes exactly after the place of the page's last row.
  lemma TokenResumesAtTheRow(c: Codec, col: Collation, sort: Sort, last: Row)
    requires Faithful(c) && Recordable(c, sort, last) && (sort == Name ==> NameAgrees(c, col, last))
    ensures EncodeCollectionCursor(c, sort, last) != ""
    ensures CollectionCut(c, col, sort, EncodeCollectionCursor(c, sort, last)) == Ok(CutAfter(PlaceOf(col, sort, last)))
  {
    CollectionCursorRoundTrip(c, sort, last, sort);
  }

  // ----- where the two forms of a name differ -----

  // The token of `last` is accepted, and the row is among those it resumes with.
  predicate Resumed(c: Codec, col: Collation, sort: Sort, last: Row, r: Row) {
    var cut := CollectionCut(c, col, sort, EncodeCollectionCursor(c, sort, last));
    cut.Ok? && Beyond(cut.value, PlaceOf(col, sort, r))
  }

  function TokenRank(c: Codec, col: Collation, r: Row): real {
    col.rank(CursorName(c, r.name))
  }

  function TableRank(col: Collation, r: Row): real {
    col.rank(col.reduce(r.name))
  }

  // The row stands after (rank, id) under the sort by name.
  predicate AfterName(col: Collation, r: Row, rank: real, id: Id) {
    TableRank(col, r) > rank || (TableRank(col, r) == rank && r.id > id)
  }

  // The page after `last` skips a row that comes after it if and only if that row does not
  // stand after the token's form of the name; and it repeats a row up to `last` if and only if
  // that row does.
  lemma NamesThatDiffer(c: Codec, col: Collation, last: Row, r: Row)
    requires Faithful(c) && !IsUnsorted(last) && Recordable(c, Name, last) && !IsUnsorted(r)
    ensures ComesBefore(col, Name, last, r) && !Resumed(c, col, Name, last, r)
        <==> AfterName(col, r, TableRank(col, last), last.id) && !AfterName(col, r, TokenRank(c, col, last), last.id)
    ensures !ComesBefore(col, Name, last, r) && Resumed(c, col, Name, last, r)
        <==> !AfterName(col, r, TableRank(col, last), last.id) && AfterName(col, r, TokenRank(c, col, last), last.id)
  {
    CollectionCursorRoundTrip(c, Name, last, Name);
    PlacesAreTheOrder(col, Name, last, r);
  }

  // The row that ended the page itself comes straight back if and only if the token's form of
  // its name stands before the table's.
  lemma RowComesBack(c: Codec, col: Collation, last: Row)
    requires Faithful(c) && !IsUnsorted(last) && Recordable(c, Name, last)
    ensures Resumed(c, col, Name, last, last) <==> TokenRank(c, col, last) < TableRank(col, last)
  {
    CollectionCursorRoundTrip(c, Name, last, Name);
  }

  // No row can be skipped or repeated if and only if both forms of the name stand at the same
  // place.
  lemma TokenIsExactWhereNamesAgree(c: Codec, col: Collation, last: Row)
    requires Faithful(c) && !IsUnsorted(last) && Recordable(c, Name, last)
    ensures (forall r :: !IsUnsorted(r) ==> (Resumed(c, col, Name, last, r) <==> ComesBefore(col, Name, last, r)))
        <==> NameAgrees(c, col, last)
  {
    forall r | !IsUnsorted(r) && NameAgrees(c, col, last)
      ensures Resumed(c, col, Name, last, r) <==> ComesBefore(col, Name, last, r)
    {
      NamesThatDiffer(c, col, last, r);
    }
    if TokenRank(c, col, last) < TableRank(col, last) {
      RowComesBack(c, col, last);
      assert !ComesBefore(col, Name, last, last);
    } else if TokenRank(c, col, last) > TableRank(col, last) {
      // a row of the same name and a later identifier is skipped
      var next := last.(id := last.id + 1);
      NamesThatDiffer(c, col, last, next);
      assert ComesBefore(col, Name, last, next) && !Resumed(c, col, Name, last, next);
    }
  }

  // ----- following the tokens -----

  datatype Request<T> = Request(table: seq<T>, limit: int)

  // The pages a client gets that asks again with each token it is given, or None when one
  // of its requests is refused. Each request meets the table as it then is.
  function Follow(
    c: Codec, col: Collation, user: Id, sortText: string, requests: seq<Request<Row>>, token: string)
    : Option<seq<Page<Row>>>
    decreases |requests|
  {
    if requests == [] then Some([])
    else
      match CollectionPage(c, col, requests[0].table, user, sortText, requests[0].limit, token)
      case Err(_) => None
      case Ok(page) =>
        if page.next.None? then Some([page])
        else
          match Follow(c, col, user, sortText, requests[1..], page.next.value)
          case None => None
          case Some(pages) => Some([page] + pages)
  }

  function RowsOf<T>(pages: seq<Page<T>>): (rows: seq<seq<T>>)
    ensures |rows| == |pages|
  {
    seq(|pages|, k requires 0 <= k < |pages| => pages[k].rows)
  }

  function VisitsOf(user: Id, requests: seq<Request<Row>>): (visits: seq<Visit<Row>>)
    ensures |visits| == |requests|
  {
    seq(|requests|, k requires 0 <= k < |requests| =>
      Visit(Owned(requests[k].table, user), ClampLimit(requests[k].limit)))
  }

  // The client was told that there is no more.
  predicate Finished<T>(pages: seq<Page<T>>) {
    pages != [] && pages[|pages| - 1].next.None?
  }

  // Requests that meet tables kept by the store.
  ghost predicate Orderly(c: Codec, col: Collation, sort: Sort, requests: seq<Request<Row>>) {
    forall k :: 0 <= k < |requests| ==> Keyed(requests[k].table) && Resumable(c, col, sort, requests[k].table)
  }

  // A page is the page by places, with a token for its last row when there is more.
  lemma PageByPlaces<T(!new)>(own: seq<T>, place: T -> Place, cut: Cut, size: Size, token: T -> string)
    requires DistinctPlaces(own, place)
    ensures var page := PageOf(Rest(own, place, cut), size, token);
            && page.rows == PageRows(own, place, cut, size) && page.hasMore == HasMore(own, place, cut, size)
            && page.next == (if page.hasMore then Some(token(Last(page.rows))) else None)
            && forall r :: r in page.rows ==> r in own
  {
    PageIsTheFront(own, place, cut, size);
    RestMeaning(own, place, cut);
    assert forall r :: r in PageRows(own, place, cut, size) ==> r in Rest(own, place, cut);
  }

  lemma PageOfVisit(
      c: Codec, col: Collation, sort: Sort, table: seq<Row>, user: Id, limit: int, token: string, cut: Cut)
    requires Faithful(c) && Keyed(table) && Resumable(c, col, sort, table)
    requires CollectionCut(c, col, sort, token) == Ok(cut)
    ensures var own, size, place := Owned(table, user), ClampLimit(limit), Placing(col, sort);
            var page := SortedPage(c, col, table, user, sort, limit, token);
            && page.Ok? && page.value.rows == PageRows(own, place, cut, size)
            && (page.value.next.Some? <==> HasMore(own, place, cut, size))
            && (HasMore(own, place, cut, size) ==>
                  CollectionCut(c, col, sort, page.value.next.value) == Ok(NextCut(own, place, cut, size)))
  {
    var own, size, place := Owned(table, user), ClampLimit(limit), Placing(col, sort);
    OwnedIsListable(col, sort, table, user);
    PageByPlaces(own, place, cut, size, (last: Row) => EncodeCollectionCursor(c, sort, last));
    if HasMore(own, place, cut, size) {
      var last := Last(PageRows(own, place, cut, size));
      assert last in own;
      TokenResumesAtTheRow(c, col, sort, last);
    }
  }

  // The pages a client got are those of the reading by places.
  ghost predicate Matches<T(!new)>(pages: Option<seq<Page<T>>>, visits: seq<Visit<T>>, place: T -> Place, cut: Cut) {
    && pages.Some? && RowsOf(pages.value) == Crawl(visits, place, cut)
    && (Finished(pages.value) <==> Completes(visits, place, cut))
  }

  lemma MatchesOneMore<T(!new)>(page: Page<T>, rest: seq<Page<T>>, visits: seq<Visit<T>>, place: T -> Place, cut: Cut)
    requires visits != [] && page.next.Some? && HasMore(visits[0].rows, place, cut, visits[0].limit)
    requires page.rows == PageRows(visits[0].rows, place, cut, visits[0].limit)
    requires Matches(Some(rest), visits[1..], place, NextCut(visits[0].rows, place, cut, visits[0].limit))
    ensures Matches(Some([page] + rest), visits, place, cut)
  {
    assert RowsOf([page] + rest) == [page.rows] + RowsOf(rest);
    assert Finished([page] + rest) <==> Finished(rest);
  }

  lemma MatchesTheLast<T(!new)>(page: Page<T>, visits: seq<Visit<T>>, place: T -> Place, cut: Cut)
    requires visits != [] && page.next.None? && !HasMore(visits[0].rows, place, cut, visits[0].limit)
    requires page.rows == PageRows(visits[0].rows, place, cut, visits[0].limit)
    ensures Matches(Some([page]), visits, place, cut)
  {
    assert RowsOf([page]) == [page.rows];
  }

  lemma FollowsOneMore(
      c: Codec, col: Collation, sort: Sort, user: Id, sortText: string, requests: seq<Request<Row>>, token: string,
      page: Page<Row>, rest: seq<Page<Row>>)
    requires requests != [] && ResolveSort(sortText) == Some(sort) && page.next.Some?
    requires SortedPage(c, col, requests[0].table, user, sort, requests[0].limit, token) == Ok(page)
    requires Follow(c, col, user, sortText, requests[1..], page.next.value) == Some(rest)
    ensures Follow(c, col, user, sortText, requests, token) == Some([page] + rest)
  {
  }

  lemma LaterVisits(user: Id, requests: seq<Request<Row>>)
    requires requests != []
    ensures VisitsOf(user, requests)[0] == Visit(Owned(requests[0].table, user), ClampLimit(requests[0].limit))
    ensures VisitsOf(user, requests)[1..] == VisitsOf(user, requests[1..])
  {
  }

  // Following the tokens is following the places: no request is refused, and the rows are
  // those of the reading by places.
  lemma {:induction false} TokensFollowPlaces(
      c: Codec, col: Collation, sort: Sort, user: Id, sortText: string, requests: seq<Request<Row>>, token: string,
          cut: Cut)
    requires Faithful(c) && Orderly(c, col, sort, requests)
    requires ResolveSort(sortText) == Some(sort) && CollectionCut(c, col, sort, token) == Ok(cut)
    ensures Matches(Follow(c, col, user, sortText, requests, token), VisitsOf(user, requests), Placing(col, sort), cut)
    decreases |requests|
  {
    if requests == [] {
    } else {
      var visits, place := VisitsOf(user, requests), Placing(col, sort);
      LaterVisits(user, requests);
      PageOfVisit(c, col, sort, requests[0].table, user, requests[0].limit, token, cut);
      var page := SortedPage(c, col, requests[0].table, user, sort, requests[0].limit, token).value;
      if page.next.Some? {
        var next := NextCut(visits[0].rows, place, cut, visits[0].limit);
        TokensFollowPlaces(c, col, sort, user, sortText, requests[1..], page.next.value, next);
        var rest := Follow(c, col, user, sortText, requests[1..], page.next.value).value;
        MatchesOneMore(page, rest, visits, place, cut);
        FollowsOneMore(c, col, sort, user, sortText, requests, token, page, rest);
      } else {
        MatchesTheLast(page, visits, place, cut);
      }
    }
  }

  // ----- what a client gets -----

  // Over all of time an identifier names one row, whose columns that the listing reads never
  // change, and a user has one Unsorted collection.
  ghost predicate RowsArePermanent(history: set<Row>) {
    && (forall a, b :: a in history && b in history && a.id == b.id ==> a == b)
    && (forall a, b :: a in history && b in history && a.owner == b.owner && IsUnsorted(a) && IsUnsorted(b) ==> a == b)
  }

  ghost predicate Within(requests: seq<Request<Row>>, history: set<Row>) {
    forall k, r :: 0 <= k < |requests| && r in requests[k].table ==> r in history
  }

  // Every row that the client gets, in the order it gets them.
  function Listed<T>(pages: seq<Page<T>>): seq<T> {
    Flatten(RowsOf(pages))
  }

  function Mine(history: set<Row>, user: Id): set<Row> {
    set r | r in history && r.owner == user
  }

  lemma VisitsAreListable(c: Codec, col: Collation, sort: Sort, user: Id, requests: seq<Request<Row>>)
    requires Orderly(c, col, sort, requests)
    ensures AllListable(VisitsOf(user, requests), Placing(col, sort))
  {
    forall k | 0 <= k < |requests| ensures Listable(VisitsOf(user, requests)[k].rows, Placing(col, sort)) {
      OwnedIsListable(col, sort, requests[k].table, user);
    }
  }

  // Whatever is created and deleted between the pages: the client is never refused, gets only
  // its own rows, in the order it asked for, none twice, and the Unsorted collection only as
  // the very first.
  lemma ListedOnceInOrder(
      c: Codec, col: Collation, sort: Sort, user: Id, sortText: string, requests: seq<Request<Row>>, history: set<Row>)
    requires Faithful(c) && Orderly(c, col, sort, requests) && ResolveSort(sortText) == Some(sort)
    requires RowsArePermanent(history) && Within(requests, history)
    ensures Follow(c, col, user, sortText, requests, "").Some?
    ensures var rows := Listed(Follow(c, col, user, sortText, requests, "").value);
            && Increasing(rows, Placing(col, sort))
            && (forall i :: 0 <= i < |rows| ==> rows[i] in Mine(history, user))
            && (forall i, j :: 0 <= i < j < |rows| ==> rows[i].id != rows[j].id)
            && (forall i :: 0 <= i < |rows| && IsUnsorted(rows[i]) ==> i == 0)
  {
    var place, visits := Placing(col, sort), VisitsOf(user, requests);
    TokensFollowPlaces(c, col, sort, user, sortText, requests, "", FromStart);
    VisitsAreListable(c, col, sort, user, requests);
    RowsComeInOrder(visits, place, FromStart);
    RowsWereThere(visits, place, FromStart, Mine(history, user));
    var rows := Listed(Follow(c, col, user, sortText, requests, "").value);
    assert forall i :: 0 <= i < |rows| ==> rows[i] in rows;
    IncreasingMeansDistinct(col, sort, rows, Mine(history, user));
  }

  lemma IncreasingMeansDistinct(col: Collation, sort: Sort, rows: seq<Row>, mine: set<Row>)
    requires RowsArePermanent(mine) && Increasing(rows, Placing(col, sort))
    requires forall i :: 0 <= i < |rows| ==> rows[i] in mine
    requires forall a, b :: a in mine && b in mine ==> a.owner == b.owner
    ensures forall i, j :: 0 <= i < j < |rows| ==> rows[i].id != rows[j].id
    ensures forall i :: 0 <= i < |rows| && IsUnsorted(rows[i]) ==> i == 0
  {
    forall i, j | 0 <= i < j < |rows| ensures rows[i].id != rows[j].id {
      assert Before(PlaceOf(col, sort, rows[i]), PlaceOf(col, sort, rows[j]));
    }
    forall i | 0 < i < |rows| ensures !IsUnsorted(rows[i]) {
      assert Before(PlaceOf(col, sort, rows[0]), PlaceOf(col, sort, rows[i]));
    }
  }

  // And once it is told that there is no more, it has had every row that was there at each of
  // its requests.
  lemma PresentThroughoutIsListed(
      c: Codec, col: Collation, sort: Sort, user: Id, sortText: string, requests: seq<Request<Row>>,
          history: set<Row>, r: Row)
    requires Faithful(c) && Orderly(c, col, sort, requests) && ResolveSort(sortText) == Some(sort)
    requires RowsArePermanent(history) && Within(requests, history) && r.owner == user
    requires var pages := Follow(c, col, user, sortText, requests, "");
             && pages.Some? && Finished(pages.value)
             && forall k :: 0 <= k < |pages.value| ==> k < |requests| && r in requests[k].table
    ensures r in Listed(Follow(c, col, user, sortText, requests, "").value)
  {
    var place, visits := Placing(col, sort), VisitsOf(user, requests);
    var pages := Follow(c, col, user, sortText, requests, "").value;
    TokensFollowPlaces(c, col, sort, user, sortText, requests, "", FromStart);
    VisitsAreListable(c, col, sort, user, requests);
    assert |RowsOf(pages)| == |pages|;
    forall k | 0 <= k < |pages| ensures Holds(visits[k].rows, place, place(r)) {
      var i :| 0 <= i < |Owned(requests[k].table, user)| && Owned(requests[k].table, user)[i] == r;
    }
    NothingIsMissed(visits, place, FromStart, place(r));
    RowsWereThere(visits, place, FromStart, Mine(history, user));
    var i :| 0 <= i < |Listed(pages)| && place(Listed(pages)[i]) == place(r);
    assert Listed(pages)[i] in Listed(pages);
    assert r in requests[0].table;
    SamePlaceIsSameRow(col, sort, r, Listed(pages)[i]);
  }

  lemma SamePlaceIsSameRow(col: Collation, sort: Sort, a: Row, b: Row)
    requires PlaceOf(col, sort, a) == PlaceOf(col, sort, b)
    ensures a.id == b.id
  {
  }

  // A table that stays as it is comes back whole and in order, in as many pages as its length
  // divided by the page size and rounded up, one at least, all full but the last; and a client
  // that may ask that often does finish.
  lemma StillTableIsListedWhole(
      c: Codec, col: Collation, sort: Sort, user: Id, sortText: string, requests: seq<Request<Row>>, table: seq<Row>,
          limit: int)
    requires Faithful(c) && Orderly(c, col, sort, requests) && ResolveSort(sortText) == Some(sort) && Keyed(table)
    requires forall k :: 0 <= k < |requests| ==> requests[k] == Request(table, limit)
    requires |requests| >= PageCount(|Rest(Owned(table, user), Placing(col, sort), FromStart)|, ClampLimit(limit))
    ensures var pages := Follow(c, col, user, sortText, requests, "");
            && pages.Some? && Finished(pages.value)
            && |pages.value| == PageCount(|Listed(pages.value)|, ClampLimit(limit))
            && AllButTheLastFull(RowsOf(pages.value), ClampLimit(limit))
            && Increasing(Listed(pages.value), Placing(col, sort))
            && forall r :: r in Listed(pages.value) <==> r in table && r.owner == user
  {
    var place, visits, own := Placing(col, sort), VisitsOf(user, requests), Owned(table, user);
    TokensFollowPlaces(c, col, sort, user, sortText, requests, "", FromStart);
    OwnedIsListable(col, sort, table, user);
    NumberOfPages(own, visits, place, FromStart, ClampLimit(limit));
    PagesMakeTheTable(own, visits, place, FromStart);
    RestMeaning(own, place, FromStart);
  }
}
