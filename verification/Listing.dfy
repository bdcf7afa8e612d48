/**
  Listing collections and saved items one page at a time: the statements, the paging done by
  the repository, and the limit and cursor rules of the service.

  A table is the rows of every user, as one statement sees it.
*/
module Listing {
  import opened Options
  import opened Keyset
  import opened Cursor

  const DEFAULT_LIMIT := 20
  const MAX_LIMIT := 50

  datatype Failure = InvalidSort | BadCursor

  datatype Page<T> = Page(rows: seq<T>, limit: nat, hasMore: bool, next: Option<string>)

  // How the database sees a name: the reduction the name index is built on, and where the
  // collation puts the reduced name.
  datatype Collation = Collation(reduce: string -> string, rank: string -> real)

  function ClampLimit(limit: int): (n: Size)
    ensures n <= MAX_LIMIT
    ensures 1 <= limit <= MAX_LIMIT ==> n == limit
  {
    if limit <= 0 then DEFAULT_LIMIT else if limit > MAX_LIMIT then MAX_LIMIT else limit
  }

  // The front of what is left, up to the limit, and a token for the rest exactly when there
  // is a rest.
  function PageOf<T>(rest: seq<T>, size: Size, token: T -> string): Page<T> {
    if |rest| <= size then Page(rest, size, false, None)
    else Page(rest[..size], size, true, Some(token(rest[size - 1])))
  }

  method SettleLimit(limit: int) returns (size: Size)
    ensures size == ClampLimit(limit)
  {
    var n := limit;
    if n <= 0 {
      n := DEFAULT_LIMIT;
    }
    if n > MAX_LIMIT {
      n := MAX_LIMIT;
    }
    size := n;
  }

  // ----- collections -----

  // ORDER BY the pinned rank, the sort's own key, and the identifier in the same direction.
  function PlaceOf(col: Collation, sort: Sort, r: Row): Place {
    var rank: nat := if IsUnsorted(r) then 0 else 1;
    match sort
    case Newest => Place(rank, -(r.created as real), -(r.id as int))
    case Oldest => Place(rank, r.created as real, r.id)
    case Name => Place(rank, col.rank(col.reduce(r.name)), r.id)
  }

  function Placing(col: Collation, sort: Sort): Row -> Place {
    (r: Row) => PlaceOf(col, sort, r)
  }

  // The place a cursor's parameters describe to the statement: the time for the sorts by
  // time, and the text as it is for the sort by name.
  function PlaceAt(col: Collation, sort: Sort, value: string, id: Id, time: Option<Instant>): Place {
    var instant := if time.Some? then time.value as real else 0.0;
    match sort
    case Newest => Place(1, -instant, -(id as int))
    case Oldest => Place(1, instant, id)
    case Name => Place(1, col.rank(value), id)
  }

  function CutAt(col: Collation, sort: Sort, position: Position): Cut {
    match position
    case AfterUnsorted => PastPinned
    case AfterRow(value, id, time) => Past(PlaceAt(col, sort, value, id, time))
  }

  // A first page has no position to resume from.
  function CutFor(col: Collation, sort: Sort, position: Option<Position>): Cut {
    if position.None? then FromStart else CutAt(col, sort, position.value)
  }

  function Owned(table: seq<Row>, user: Id): (rows: seq<Row>)
    ensures forall r :: r in rows <==> r in table && r.owner == user
  {
    if table == [] then []
    else
      assert table == [table[0]] + table[1..];
      (if table[0].owner == user then [table[0]] else []) + Owned(table[1..], user)
  }

  // What the resume point asks for: nothing for a first page.
  function CollectionCut(c: Codec, col: Collation, sort: Sort, token: string): Result<Cut, Invalid> {
    if token == "" then Ok(FromStart)
    else
      match DecodeCollectionCursor(c, token, sort)
      case Err(e) => Err(e)
      case Ok(position) => Ok(CutAt(col, sort, position))
  }

  function ResolveSort(text: string): Option<Sort> {
    if text == "" then Some(Newest) else ParseSort(text)
  }

  // The page the listing promises of the rows beyond the token's position.
  function SortedPage(
    c: Codec, col: Collation, table: seq<Row>, user: Id, sort: Sort, limit: int, token: string)
    : Result<Page<Row>, Failure>
  {
    match CollectionCut(c, col, sort, token)
    case Err(_) => Err(BadCursor)
    case Ok(cut) =>
      Ok(PageOf(Rest(Owned(table, user), Placing(col, sort), cut), ClampLimit(limit),
                (last: Row) => EncodeCollectionCursor(c, sort, last)))
  }

  function CollectionPage(
    c: Codec, col: Collation, table: seq<Row>, user: Id, sortText: string, limit: int, token: string)
    : Result<Page<Row>, Failure>
  {
    match ResolveSort(sortText)
    case None => Err(InvalidSort)
    case Some(sort) => SortedPage(c, col, table, user, sort, limit, token)
  }

  // ----- what the statements mean -----

  // The order of the listing: Unsorted first, and then by the sort.
  predicate ComesBefore(col: Collation, sort: Sort, a: Row, b: Row) {
    if IsUnsorted(a) != IsUnsorted(b) then IsUnsorted(a)
    else
      match sort
      case Newest => a.created > b.created || (a.created == b.created && a.id > b.id)
      case Oldest => a.created < b.created || (a.created == b.created && a.id < b.id)
      case Name =>
        var x, y := col.rank(col.reduce(a.name)), col.rank(col.reduce(b.name));
        x < y || (x == y && a.id < b.id)
  }

  // The row is one of those that a page resumed here can hold.
  predicate Wanted(col: Collation, sort: Sort, position: Option<Position>, r: Row) {
    match position
    case None => true
    case Some(AfterUnsorted) => !IsUnsorted(r)
    case Some(AfterRow(value, id, time)) =>
      && !IsUnsorted(r)
      && match sort
         case Newest => time.Some? && (r.created < time.value || (r.created == time.value && r.id < id))
         case Oldest => time.Some? && (r.created > time.value || (r.created == time.value && r.id > id))
         case Name => var x, y := col.rank(col.reduce(r.name)), col.rank(value); x > y || (x == y && r.id > id)
  }

  // The first rows wanted: in order, and each row left out comes after all of them, which are
  // then as many as were asked for.
  ghost predicate FirstWanted(
      col: Collation, sort: Sort, position: Option<Position>, own: seq<Row>, n: nat, rows: seq<Row>) {
    && |rows| <= n
    && (forall i, j :: 0 <= i < j < |rows| ==> ComesBefore(col, sort, rows[i], rows[j]))
    && (forall r :: r in rows ==> r in own && Wanted(col, sort, position, r))
    && (forall r :: r in own && Wanted(col, sort, position, r) && r !in rows ==>
          |rows| == n && forall a :: a in rows ==> ComesBefore(col, sort, a, r))
  }

  predicate HasTime(sort: Sort, position: Option<Position>) {
    position.Some? && position.value.AfterRow? && sort != Name ==> position.value.time.Some?
  }

  // Places are the order of the listing, and cuts are what is wanted after a position.
  lemma PlacesAreTheOrder(col: Collation, sort: Sort, a: Row, b: Row)
    ensures Before(PlaceOf(col, sort, a), PlaceOf(col, sort, b)) <==> ComesBefore(col, sort, a, b)
  {
  }

  lemma CutsAreWanted(col: Collation, sort: Sort, position: Option<Position>, r: Row)
    requires HasTime(sort, position)
    ensures Beyond(CutFor(col, sort, position), PlaceOf(col, sort, r)) <==> Wanted(col, sort, position, r)
  {
  }

  lemma QueryIsFirstWanted(col: Collation, sort: Sort, position: Option<Position>, own: seq<Row>, n: nat)
    requires HasTime(sort, position) && DistinctPlaces(own, Placing(col, sort))
    ensures FirstWanted(col, sort, position, own, n, Query(own, Placing(col, sort), CutFor(col, sort, position), n))
  {
    QueryAnswers(own, Placing(col, sort), CutFor(col, sort, position), n);
    forall a, b ensures Before(PlaceOf(col, sort, a), PlaceOf(col, sort, b)) <==> ComesBefore(col, sort, a, b) {
      PlacesAreTheOrder(col, sort, a, b);
    }
    forall r ensures Beyond(CutFor(col, sort, position), PlaceOf(col, sort, r)) <==> Wanted(col, sort, position, r) {
      CutsAreWanted(col, sort, position, r);
    }
  }

  // ----- the repository and the service -----

  // The three statements that resume after a row compare with the time, or with the text.
  method ListAfterPosition(
      col: Collation, own: seq<Row>, sort: Sort, value: string, id: Id, time: Option<Instant>, pageLimit: nat)
    returns (rows: seq<Row>)
    requires sort != Name ==> time.Some?
    ensures rows == Query(own, Placing(col, sort), Past(PlaceAt(col, sort, value, id, time)), pageLimit)
    ensures DistinctPlaces(own, Placing(col, sort)) ==>
              FirstWanted(col, sort, Some(AfterRow(value, id, time)), own, pageLimit, rows)
  {
    var after: Place;
    match sort {
      case Oldest => after := Place(1, time.value as real, id);
      case Name => after := Place(1, col.rank(value), id);
      case Newest => after := Place(1, -(time.value as real), -(id as int));
    }
    assert after == PlaceAt(col, sort, value, id, time);
    rows := Query(own, Placing(col, sort), Past(after), pageLimit);
    if DistinctPlaces(own, Placing(col, sort)) {
      QueryIsFirstWanted(col, sort, Some(AfterRow(value, id, time)), own, pageLimit);
    }
  }

  // The statement for the resume point: the first page, the page after Unsorted, or the page
  // after a row.
  method ListCollectionsRows(
      col: Collation, own: seq<Row>, sort: Sort, position: Option<Position>, pageLimit: nat)
    returns (rows: seq<Row>)
    requires HasTime(sort, position)
    ensures rows == Query(own, Placing(col, sort), CutFor(col, sort, position), pageLimit)
    ensures DistinctPlaces(own, Placing(col, sort)) ==> FirstWanted(col, sort, position, own, pageLimit, rows)
  {
    if DistinctPlaces(own, Placing(col, sort)) {
      QueryIsFirstWanted(col, sort, position, own, pageLimit);
    }
    if position.None? {
      rows := Query(own, Placing(col, sort), FromStart, pageLimit);
    } else {
      match position.value {
        case AfterUnsorted =>
          rows := Query(own, Placing(col, sort), PastPinned, pageLimit);
        case AfterRow(value, id, time) =>
          rows := ListAfterPosition(col, own, sort, value, id, time, pageLimit);
      }
    }
  }

  // The repository's part: one row more than the limit is read, and dropped again.
  method ReadCollections(col: Collation, table: seq<Row>, user: Id, sort: Sort, position: Option<Position>, limit: Size)
    returns (rows: seq<Row>, hasMore: bool)
    requires HasTime(sort, position)
    ensures var rest := Rest(Owned(table, user), Placing(col, sort), CutFor(col, sort, position));
            rows == FirstOf(rest, limit) && (hasMore <==> |rest| > limit)
  {
    rows := ListCollectionsRows(col, Owned(table, user), sort, position, limit + 1);
    hasMore := |rows| > limit;
    if hasMore {
      rows := rows[..limit];
    }
  }

  method SettleCursor(
      c: Codec, col: Collation, sort: Sort, token: string) returns (position: Result<Option<Position>, Invalid>)
    ensures position.Ok? ==> CollectionCut(c, col, sort, token) == Ok(CutFor(col, sort, position.value))
    ensures position.Err? ==> CollectionCut(c, col, sort, token) == Err(position.error)
    ensures position.Ok? && position.value.Some? && position.value.value.AfterRow? && sort != Name ==>
              position.value.value.time.Some?
  {
    if token == "" {
      return Ok(None);
    }
    var decoded := DecodeCollectionCursor(c, token, sort);
    position := if decoded.Ok? then Ok(Some(decoded.value)) else Err(decoded.error);
  }

  // The service's part: the sort, the limit and the cursor are settled before the read.
  method ListCollections(
      c: Codec, col: Collation, table: seq<Row>, user: Id, sortText: string, limit: int, token: string)
    returns (result: Result<Page<Row>, Failure>)
    ensures result == CollectionPage(c, col, table, user, sortText, limit, token)
  {
    var sort := Newest;
    if sortText != "" {
      var parsed := ParseSort(sortText);
      if parsed.None? {
        return Err(InvalidSort);
      }
      sort := parsed.value;
    }
    result := ListUnder(c, col, table, user, sort, limit, token);
  }

  method ListUnder(c: Codec, col: Collation, table: seq<Row>, user: Id, sort: Sort, limit: int, token: string)
    returns (result: Result<Page<Row>, Failure>)
    ensures result == SortedPage(c, col, table, user, sort, limit, token)
  {
    var size := SettleLimit(limit);
    var position := SettleCursor(c, col, sort, token);
    if position.Err? {
      return Err(BadCursor);
    }
    var rows, hasMore := ReadCollections(col, table, user, sort, position.value, size);
    var next: Option<string> := None;
    if hasMore && |rows| > 0 {
      next := Some(EncodeCollectionCursor(c, sort, rows[|rows| - 1]));
    } else {
      hasMore := false;
    }
    result := Ok(Page(rows, size, hasMore, next));
  }

  // ----- saved items -----

  // Items have one order, the newest first, and none is pinned.
  function ItemPlace(r: ItemRow): Place {
    Place(1, -(r.created as real), -(r.id as int))
  }

  // All of a user's items, or those in one collection.
  datatype Scope = Everything | InCollection(collection: Id)

  predicate InScope(r: ItemRow, user: Id, scope: Scope) {
    r.owner == user && (scope.InCollection? ==> r.collection == scope.collection)
  }

  function Scoped(table: seq<ItemRow>, user: Id, scope: Scope): (rows: seq<ItemRow>)
    ensures forall r :: r in rows <==> r in table && InScope(r, user, scope)
  {
    if table == [] then []
    else
      assert table == [table[0]] + table[1..];
      (if InScope(table[0], user, scope) then [table[0]] else []) + Scoped(table[1..], user, scope)
  }

  function ItemCut(c: Codec, token: string): Result<Cut, Invalid> {
    if token == "" then Ok(FromStart)
    else
      match DecodeItemCursor(c, token)
      case Err(e) => Err(e)
      case Ok(ItemPosition(time, id)) => Ok(Past(Place(1, -(time as real), -(id as int))))
  }

  function ItemPage(
    c: Codec, table: seq<ItemRow>, user: Id, scope: Scope, limit: int, token: string): Result<Page<ItemRow>, Failure>
  {
    match ItemCut(c, token)
    case Err(_) => Err(BadCursor)
    case Ok(cut) =>
      Ok(PageOf(Rest(Scoped(table, user, scope), ItemPlace, cut), ClampLimit(limit),
                (last: ItemRow) => EncodeItemCursor(c, last)))
  }

  method ReadSavedItems(table: seq<ItemRow>, user: Id, scope: Scope, cut: Cut, limit: Size)
    returns (rows: seq<ItemRow>, hasMore: bool)
    ensures var rest := Rest(Scoped(table, user, scope), ItemPlace, cut);
            rows == FirstOf(rest, limit) && (hasMore <==> |rest| > limit)
  {
    rows := Query(Scoped(table, user, scope), ItemPlace, cut, limit + 1);
    hasMore := |rows| > limit;
    if hasMore {
      rows := rows[..limit];
    }
  }

  method ListSavedItems(c: Codec, table: seq<ItemRow>, user: Id, scope: Scope, limit: int, token: string)
    returns (result: Result<Page<ItemRow>, Failure>)
    ensures result == ItemPage(c, table, user, scope, limit, token)
  {
    var size := SettleLimit(limit);
    var cut := ItemCut(c, token);
    if cut.Err? {
      return Err(BadCursor);
    }
    var rows, hasMore := ReadSavedItems(table, user, scope, cut.value, size);
    var next: Option<string> := None;
    if hasMore && |rows| > 0 {
      next := Some(EncodeItemCursor(c, rows[|rows| - 1]));
    } else {
      hasMore := false;
    }
    result := Ok(Page(rows, size, hasMore, next));
  }
}
