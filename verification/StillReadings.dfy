/**
  When a table that stays as it is can be read whole: exactly when the token of every row that
  has another after it resumes with just the rows after it.
*/
module StillReadings {
  import opened Options
  import opened Keyset
  import opened Cursor
  import opened Listing
  import opened ListingRuns
  import opened TokenReading

  // The rows of one user, in the order of the listing.
  function Ordered(col: Collation, sort: Sort, table: seq<Row>, user: Id): seq<Row> {
    Rest(Owned(table, user), Placing(col, sort), FromStart)
  }

  predicate HasSuccessor(col: Collation, sort: Sort, own: seq<Row>, r: Row) {
    exists x :: x in own && ComesBefore(col, sort, r, x)
  }

  ghost predicate ResumesExactly(c: Codec, col: Collation, sort: Sort, own: seq<Row>, last: Row) {
    forall x :: x in own ==> (Resumed(c, col, sort, last, x) <==> ComesBefore(col, sort, last, x))
  }

  ghost predicate TokensAreExact(c: Codec, col: Collation, sort: Sort, own: seq<Row>) {
    forall r :: r in own && HasSuccessor(col, sort, own, r) ==> ResumesExactly(c, col, sort, own, r)
  }

  function Again(table: seq<Row>, limit: int, n: nat): (requests: seq<Request<Row>>)
    ensures |requests| == n
  {
    seq(n, _ => Request(table, limit))
  }

  // A client that asks page by page, for as long as there are rows to come, is never refused, is
  // told that there is no more, and has had every row once and in order.
  ghost predicate ReadsWhole(c: Codec, col: Collation, sort: Sort, table: seq<Row>, user: Id, limit: int) {
    var all := Ordered(col, sort, table, user);
    Got(c, col, sort, table, user, limit, |all| + 1, "") == Some(all)
  }

  // The rows that the client gets from this token on, if it is never refused and is told that
  // there is no more.
  function Got(c: Codec, col: Collation, sort: Sort, table: seq<Row>, user: Id, limit: int, n: nat, token: string)
    : Option<seq<Row>>
  {
    var pages := Follow(c, col, user, SortText(sort), Again(table, limit, n), token);
    if pages.Some? && Finished(pages.value) then Some(Listed(pages.value)) else None
  }

  lemma OrderedMeaning(col: Collation, sort: Sort, table: seq<Row>, user: Id)
    requires Keyed(table)
    ensures var all, place := Ordered(col, sort, table, user), Placing(col, sort);
            Increasing(all, place) && forall r :: r in all <==> r in Owned(table, user)
  {
    OwnedIsListable(col, sort, table, user);
    RestMeaning(Owned(table, user), Placing(col, sort), FromStart);
  }

  // Of two rows of the ordered table, the one that is listed first comes before the other.
  lemma ComesBeforeByIndex(col: Collation, sort: Sort, all: seq<Row>, i: nat, j: nat)
    requires Increasing(all, Placing(col, sort)) && i < |all| && j < |all|
    ensures ComesBefore(col, sort, all[i], all[j]) <==> i < j
  {
    var place := Placing(col, sort);
    PlacesAreTheOrder(col, sort, all[i], all[j]);
    if i < j {
      assert Before(place(all[i]), place(all[j]));
    } else if j < i {
      assert Before(place(all[j]), place(all[i]));
    }
  }

  // ----- what a cut leaves of an ordered table -----

  lemma CutsAreUpward(cut: Cut, p: Place, q: Place)
    requires Beyond(cut, p) && Before(p, q)
    ensures Beyond(cut, q)
  {
  }

  // If the cut admits row k and not the one before it, it leaves exactly the rows from k on.
  lemma RestFrom(rows: seq<Row>, place: Row -> Place, cut: Cut, all: seq<Row>, k: nat)
    requires DistinctPlaces(rows, place) && Increasing(all, place) && (forall r :: r in all <==> r in rows)
    requires k <= |all|
    requires forall j :: 0 <= j < |all| ==> (Beyond(cut, place(all[j])) <==> k <= j)
    ensures Rest(rows, place, cut) == all[k..]
  {
    RestMeaning(rows, place, cut);
    forall r ensures r in all[k..] <==> r in rows && Beyond(cut, place(r)) {
      if r in all[k..] {
        var j :| 0 <= j < |all[k..]| && all[k..][j] == r;
        assert all[k + j] == r;
      }
      if r in rows && Beyond(cut, place(r)) {
        var j :| 0 <= j < |all| && all[j] == r;
        assert all[k..][j - k] == r;
      }
    }
    IncreasingIsUnique(Rest(rows, place, cut), all[k..], place);
  }

  lemma FirstIsLeast(left: seq<Row>, place: Row -> Place, r: Row)
    requires r in left && Increasing(left, place)
    ensures left[0] == r || Before(place(left[0]), place(r))
  {
  }

  // A cut whose first row is row k leaves the rows from k on.
  lemma FirstDecides(rows: seq<Row>, place: Row -> Place, cut: Cut, all: seq<Row>, k: nat)
    requires DistinctPlaces(rows, place) && Increasing(all, place) && (forall r :: r in all <==> r in rows)
    requires k < |all| && Rest(rows, place, cut) != [] && Rest(rows, place, cut)[0] == all[k]
    ensures Rest(rows, place, cut) == all[k..]
    ensures forall j :: 0 <= j < |all| ==> (Beyond(cut, place(all[j])) <==> k <= j)
  {
    var left := Rest(rows, place, cut);
    RestMeaning(rows, place, cut);
    assert left[0] in left;
    forall j | 0 <= j < |all| ensures Beyond(cut, place(all[j])) <==> k <= j {
      if j > k {
        CutsAreUpward(cut, place(all[k]), place(all[j]));
      } else if j < k && Beyond(cut, place(all[j])) {
        FirstIsLeast(left, place, all[j]);
      }
    }
    RestFrom(rows, place, cut, all, k);
  }

  // ----- following tokens is reading by them -----

  // The rows that the token leaves to be read, if it is accepted.
  function Left(c: Codec, col: Collation, sort: Sort, table: seq<Row>, user: Id, token: string): Option<seq<Row>> {
    match CollectionCut(c, col, sort, token)
    case Err(_) => None
    case Ok(cut) => Some(Rest(Owned(table, user), Placing(col, sort), cut))
  }

  function Reading(c: Codec, col: Collation, sort: Sort, table: seq<Row>, user: Id, limit: int): Source<Row> {
    Source((token: string) => Left(c, col, sort, table, user, token),
           (last: Row) => EncodeCollectionCursor(c, sort, last), ClampLimit(limit))
  }

  lemma SortResolves(sort: Sort)
    ensures ResolveSort(SortText(sort)) == Some(sort)
  {
  }

  // The page that is read where these rows are left.
  function PageOfLeft(c: Codec, sort: Sort, limit: int, left: seq<Row>): Page<Row> {
    var size := ClampLimit(limit);
    if |left| <= size then Page(left, size, false, None)
    else Page(left[..size], size, true, Some(EncodeCollectionCursor(c, sort, left[size - 1])))
  }

  lemma PageFrom(
      c: Codec, col: Collation, sort: Sort, table: seq<Row>, user: Id, limit: int, token: string, left: seq<Row>)
    requires var cut := CollectionCut(c, col, sort, token);
             cut.Ok? && Rest(Owned(table, user), Placing(col, sort), cut.value) == left
    ensures SortedPage(c, col, table, user, sort, limit, token) == Ok(PageOfLeft(c, sort, limit, left))
    ensures CollectionPage(c, col, table, user, SortText(sort), limit, token) == Ok(PageOfLeft(c, sort, limit, left))
  {
    SortResolves(sort);
  }

  lemma AgainOnce(table: seq<Row>, limit: int, n: nat)
    requires n > 0
    ensures Again(table, limit, n)[0] == Request(table, limit)
    ensures Again(table, limit, n)[1..] == Again(table, limit, n - 1)
  {
  }

  lemma ListedOneMore(page: Page<Row>, rest: seq<Page<Row>>)
    ensures Listed([page] + rest) == page.rows + Listed(rest)
    ensures page.next.Some? ==> (Finished([page] + rest) <==> Finished(rest))
  {
    assert RowsOf([page] + rest) == [page.rows] + RowsOf(rest);
    assert ([page.rows] + RowsOf(rest))[1..] == RowsOf(rest);
  }

  lemma ListedTheLast(page: Page<Row>)
    ensures Listed([page]) == page.rows
  {
    ListedOneMore(page, []);
    assert [page] + [] == [page] && RowsOf<Row>([]) == [] && Flatten<Row>([]) == [];
  }

  lemma RefusedWhereNothingIsLeft(
      c: Codec, col: Collation, sort: Sort, table: seq<Row>, user: Id, limit: int, n: nat, token: string)
    requires n > 0 && Left(c, col, sort, table, user, token).None?
    ensures Got(c, col, sort, table, user, limit, n, token) == None
  {
    AgainOnce(table, limit, n);
    SortResolves(sort);
  }

  lemma GotTheLast(
      c: Codec, col: Collation, sort: Sort, table: seq<Row>, user: Id, limit: int, n: nat, token: string,
          left: seq<Row>)
    requires n > 0 && |left| <= ClampLimit(limit) && Left(c, col, sort, table, user, token) == Some(left)
    ensures Got(c, col, sort, table, user, limit, n, token) == Some(left)
  {
    PageFrom(c, col, sort, table, user, limit, token, left);
    AgainOnce(table, limit, n);
    ListedTheLast(PageOfLeft(c, sort, limit, left));
  }

  lemma GotOneMore(
      c: Codec, col: Collation, sort: Sort, table: seq<Row>, user: Id, limit: int, n: nat, token: string,
          left: seq<Row>)
    requires n > 0 && |left| > ClampLimit(limit) && Left(c, col, sort, table, user, token) == Some(left)
    ensures var size := ClampLimit(limit);
            var more := Got(c, col, sort, table, user, limit, n - 1, EncodeCollectionCursor(c, sort, left[size - 1]));
            Got(c, col, sort, table, user, limit, n, token)
            == if more.None? then None else Some(left[..size] + more.value)
  {
    var page := PageOfLeft(c, sort, limit, left);
    PageFrom(c, col, sort, table, user, limit, token, left);
    AgainOnce(table, limit, n);
    var rest := Follow(c, col, user, SortText(sort), Again(table, limit, n - 1), page.next.value);
    if rest.Some? {
      ListedOneMore(page, rest.value);
    }
  }

  lemma GotMoreByReading(
      c: Codec, col: Collation, sort: Sort, table: seq<Row>, user: Id, limit: int, n: nat, token: string,
          left: seq<Row>,
      next: string)
    requires n > 0 && |left| > ClampLimit(limit) && Left(c, col, sort, table, user, token) == Some(left)
    requires next == EncodeCollectionCursor(c, sort, left[ClampLimit(limit) - 1])
    requires var s := Reading(c, col, sort, table, user, limit);
             Got(c, col, sort, table, user, limit, n - 1, next) == Get(s, n - 1, next)
    ensures Got(c, col, sort, table, user, limit, n, token) == Get(Reading(c, col, sort, table, user, limit), n, token)
  {
    GotOneMore(c, col, sort, table, user, limit, n, token, left);
    var s := Reading(c, col, sort, table, user, limit);
    assert s.left(token) == Some(left) && s.token(left[s.size - 1]) == next;
  }

  lemma {:induction false} GotByReading(
      c: Codec, col: Collation, sort: Sort, table: seq<Row>, user: Id, limit: int, n: nat, token: string)
    ensures Got(c, col, sort, table, user, limit, n, token) == Get(Reading(c, col, sort, table, user, limit), n, token)
    decreases n
  {
    var left := Left(c, col, sort, table, user, token);
    if n == 0 {
    } else if left.None? {
      RefusedWhereNothingIsLeft(c, col, sort, table, user, limit, n, token);
    } else if |left.value| <= ClampLimit(limit) {
      GotTheLast(c, col, sort, table, user, limit, n, token, left.value);
    } else {
      var next := EncodeCollectionCursor(c, sort, left.value[ClampLimit(limit) - 1]);
      GotByReading(c, col, sort, table, user, limit, n - 1, next);
      GotMoreByReading(c, col, sort, table, user, limit, n, token, left.value, next);
    }
  }

  // ----- what the tokens leave -----

  // A token that leaves anything leaves a row of the ordered table and all that follow it.
  lemma TokensLeaveSuffixes(c: Codec, col: Collation, sort: Sort, table: seq<Row>, user: Id, limit: int)
    requires Keyed(table)
    ensures LeavesSuffixes(Reading(c, col, sort, table, user, limit), Ordered(col, sort, table, user))
  {
    var s, all := Reading(c, col, sort, table, user, limit), Ordered(col, sort, table, user);
    OwnedIsListable(col, sort, table, user);
    OrderedMeaning(col, sort, table, user);
    forall token: string, k: nat | k < |all| && LeavesFirst(s, token, all[k]) ensures s.left(token) == Some(all[k..]) {
      var cut := CollectionCut(c, col, sort, token).value;
      FirstDecides(Owned(table, user), Placing(col, sort), cut, all, k);
    }
  }

  // The token of a row leaves just the rows after it if and only if it resumes with just them.
  lemma LeavingIsResuming(c: Codec, col: Collation, sort: Sort, table: seq<Row>, user: Id, limit: int, k: nat)
    requires Keyed(table) && k + 1 < |Ordered(col, sort, table, user)|
    ensures LeavesTheRest(Reading(c, col, sort, table, user, limit), Ordered(col, sort, table, user), k)
        <==> ResumesExactly(c, col, sort, Owned(table, user), Ordered(col, sort, table, user)[k])
  {
    var own, place, all := Owned(table, user), Placing(col, sort), Ordered(col, sort, table, user);
    var cut := CollectionCut(c, col, sort, EncodeCollectionCursor(c, sort, all[k]));
    OwnedIsListable(col, sort, table, user);
    OrderedMeaning(col, sort, table, user);
    ResumingByIndex(c, col, sort, table, user, k);
    if cut.Ok? {
      if Rest(own, place, cut.value) == all[k + 1..] {
        FirstDecides(own, place, cut.value, all, k + 1);
      }
      if forall j :: 0 <= j < |all| ==> (Beyond(cut.value, place(all[j])) <==> k + 1 <= j) {
        RestFrom(own, place, cut.value, all, k + 1);
      }
    }
  }

  lemma ResumingByIndex(c: Codec, col: Collation, sort: Sort, table: seq<Row>, user: Id, k: nat)
    requires Keyed(table) && k + 1 < |Ordered(col, sort, table, user)|
    ensures var all := Ordered(col, sort, table, user);
            var cut := CollectionCut(c, col, sort, EncodeCollectionCursor(c, sort, all[k]));
            ResumesExactly(c, col, sort, Owned(table, user), all[k])
            <==> cut.Ok? && forall j :: 0 <= j < |all| ==>
                (Beyond(cut.value, PlaceOf(col, sort, all[j])) <==> k + 1 <= j)
  {
    var own, all := Owned(table, user), Ordered(col, sort, table, user);
    OrderedMeaning(col, sort, table, user);
    forall j | 0 <= j < |all| ensures all[j] in own && (ComesBefore(col, sort, all[k], all[j]) <==> k + 1 <= j) {
      assert all[j] in all;
      ComesBeforeByIndex(col, sort, all, k, j);
    }
    if ResumesExactly(c, col, sort, own, all[k]) {
      assert Resumed(c, col, sort, all[k], all[k + 1]);
      forall j | 0 <= j < |all| ensures Resumed(c, col, sort, all[k], all[j]) <==> k + 1 <= j {
      }
    }
    forall x | x in own ensures x in all {
    }
  }

  lemma ExactAtIndex(c: Codec, col: Collation, sort: Sort, table: seq<Row>, user: Id, k: nat)
    requires Keyed(table) && TokensAreExact(c, col, sort, Owned(table, user))
    requires k + 1 < |Ordered(col, sort, table, user)|
    ensures ResumesExactly(c, col, sort, Owned(table, user), Ordered(col, sort, table, user)[k])
  {
    LastHasSuccessor(col, sort, table, user, k + 1);
  }

  ghost predicate ExactAtAll(c: Codec, col: Collation, sort: Sort, own: seq<Row>, all: seq<Row>) {
    forall k: nat :: k + 1 < |all| ==> ResumesExactly(c, col, sort, own, all[k])
  }

  lemma ExactFromIndex(c: Codec, col: Collation, sort: Sort, table: seq<Row>, user: Id, r: Row)
    requires Keyed(table) && ExactAtAll(c, col, sort, Owned(table, user), Ordered(col, sort, table, user))
    requires r in Owned(table, user) && HasSuccessor(col, sort, Owned(table, user), r)
    ensures ResumesExactly(c, col, sort, Owned(table, user), r)
  {
    var k := IndexWithNext(col, sort, table, user, r);
  }

  lemma ExactByIndex(c: Codec, col: Collation, sort: Sort, table: seq<Row>, user: Id)
    requires Keyed(table)
    ensures TokensAreExact(c, col, sort, Owned(table, user))
        <==> ExactAtAll(c, col, sort, Owned(table, user), Ordered(col, sort, table, user))
  {
    var own, all := Owned(table, user), Ordered(col, sort, table, user);
    if TokensAreExact(c, col, sort, own) {
      forall k: nat | k + 1 < |all| ensures ResumesExactly(c, col, sort, own, all[k]) {
        ExactAtIndex(c, col, sort, table, user, k);
      }
    }
    if ExactAtAll(c, col, sort, own, all) {
      forall r | r in own && HasSuccessor(col, sort, own, r) ensures ResumesExactly(c, col, sort, own, r) {
        ExactFromIndex(c, col, sort, table, user, r);
      }
    }
  }

  lemma LastHasSuccessor(col: Collation, sort: Sort, table: seq<Row>, user: Id, k: nat)
    requires Keyed(table) && 0 < k < |Ordered(col, sort, table, user)|
    ensures var all := Ordered(col, sort, table, user);
            all[k - 1] in Owned(table, user) && HasSuccessor(col, sort, Owned(table, user), all[k - 1])
  {
    var all := Ordered(col, sort, table, user);
    OrderedMeaning(col, sort, table, user);
    assert all[k - 1] in all && all[k] in all;
    ComesBeforeByIndex(col, sort, all, k - 1, k);
  }

  lemma IndexWithNext(col: Collation, sort: Sort, table: seq<Row>, user: Id, r: Row) returns (i: nat)
    requires Keyed(table) && r in Owned(table, user) && HasSuccessor(col, sort, Owned(table, user), r)
    ensures i + 1 < |Ordered(col, sort, table, user)| && Ordered(col, sort, table, user)[i] == r
  {
    var all := Ordered(col, sort, table, user);
    OrderedMeaning(col, sort, table, user);
    var x :| x in Owned(table, user) && ComesBefore(col, sort, r, x);
    assert r in all && x in all;
    i :| 0 <= i < |all| && all[i] == r;
    var j :| 0 <= j < |all| && all[j] == x;
    ComesBeforeByIndex(col, sort, all, i, j);
  }

  lemma ExactIsExact(c: Codec, col: Collation, sort: Sort, table: seq<Row>, user: Id, limit: int)
    requires Keyed(table)
    ensures Exact(Reading(c, col, sort, table, user, limit), Ordered(col, sort, table, user))
        <==> TokensAreExact(c, col, sort, Owned(table, user))
  {
    ExactByIndex(c, col, sort, table, user);
    forall k: nat | k + 1 < |Ordered(col, sort, table, user)|
      ensures LeavesTheRest(Reading(c, col, sort, table, user, limit), Ordered(col, sort, table, user), k)
          <==> ResumesExactly(c, col, sort, Owned(table, user), Ordered(col, sort, table, user)[k])
    {
      LeavingIsResuming(c, col, sort, table, user, limit, k);
    }
  }

  // ----- exactly -----

  // A still table is read whole, at every page size, if and only if the token of each row that
  // has another after it is accepted and resumes with just the rows after it.
  lemma ReadsWholeExactly(c: Codec, col: Collation, sort: Sort, table: seq<Row>, user: Id)
    requires Keyed(table)
    ensures (forall limit :: ReadsWhole(c, col, sort, table, user, limit))
        <==> TokensAreExact(c, col, sort, Owned(table, user))
  {
    if TokensAreExact(c, col, sort, Owned(table, user)) {
      forall limit ensures ReadsWhole(c, col, sort, table, user, limit) {
        ExactReadsWhole(c, col, sort, table, user, limit);
      }
    }
    if ReadsWhole(c, col, sort, table, user, 1) {
      ReadsWholeByOne(c, col, sort, table, user);
    }
  }

  lemma ExactReadsWhole(c: Codec, col: Collation, sort: Sort, table: seq<Row>, user: Id, limit: int)
    requires Keyed(table) && TokensAreExact(c, col, sort, Owned(table, user))
    ensures ReadsWhole(c, col, sort, table, user, limit)
  {
    var all := Ordered(col, sort, table, user);
    ExactIsExact(c, col, sort, table, user, limit);
    ExactGetsAll(Reading(c, col, sort, table, user, limit), all, "");
    GotByReading(c, col, sort, table, user, limit, |all| + 1, "");
  }

  lemma ReadsWholeByOne(c: Codec, col: Collation, sort: Sort, table: seq<Row>, user: Id)
    requires Keyed(table) && ReadsWhole(c, col, sort, table, user, 1)
    ensures TokensAreExact(c, col, sort, Owned(table, user))
  {
    var all := Ordered(col, sort, table, user);
    GotByReading(c, col, sort, table, user, 1, |all| + 1, "");
    TokensLeaveSuffixes(c, col, sort, table, user, 1);
    GettingAllIsExact(Reading(c, col, sort, table, user, 1), all, "");
    ExactIsExact(c, col, sort, table, user, 1);
  }

  // Under the sorts by time every table of the store is read whole.
  lemma TimeSortsReadWhole(c: Codec, col: Collation, sort: Sort, table: seq<Row>, user: Id, limit: int)
    requires Faithful(c) && Keyed(table) && sort != Name && forall r :: r in table ==> Recordable(c, sort, r)
    ensures ReadsWhole(c, col, sort, table, user, limit)
  {
    var own := Owned(table, user);
    forall r | r in own ensures ResumesExactly(c, col, sort, own, r) {
      TokenResumesAtTheRow(c, col, sort, r);
      forall x | x in own ensures Resumed(c, col, sort, r, x) <==> ComesBefore(col, sort, r, x) {
        PlacesAreTheOrder(col, sort, r, x);
        OneUnsorted(table, user, r, x);
      }
    }
    ReadsWholeExactly(c, col, sort, table, user);
  }

  lemma OneUnsorted(table: seq<Row>, user: Id, a: Row, b: Row)
    requires Keyed(table) && a in Owned(table, user) && b in Owned(table, user)
    ensures IsUnsorted(a) && IsUnsorted(b) ==> a == b
  {
  }
}
