/**
  Keyset paging: reading an ordered table page by page, each page resuming after the place
  at which the one before it ended. Nothing here depends on what the rows are; `place` says
  where a row stands.
*/
module Keyset {
  import opened SetFacts

  // A pinned row has rank 0 and stands before all others; the rest are ordered by key, and
  // rows with the same key by the tie-break.
  datatype Place = Place(rank: nat, key: real, tie: int)

  predicate Before(p: Place, q: Place) {
    p.rank < q.rank || (p.rank == q.rank && (p.key < q.key || (p.key == q.key && p.tie < q.tie)))
  }

  // What a page resumes from.
  datatype Cut = FromStart | PastPinned | Past(place: Place)

  predicate Beyond(cut: Cut, p: Place) {
    match cut
    case FromStart => true
    case PastPinned => p.rank > 0
    case Past(q) => p.rank > 0 && Before(q, p)
  }

  // The resume point recorded by a page whose last row stands at `p`.
  function CutAfter(p: Place): Cut {
    if p.rank == 0 then PastPinned else Past(p)
  }

  // ----- one statement -----

  function Where<T>(rows: seq<T>, place: T -> Place, cut: Cut): (s: seq<T>)
    ensures forall r :: r in s ==> r in rows && Beyond(cut, place(r))
    ensures forall r :: r in rows && Beyond(cut, place(r)) ==> r in s
  {
    if rows == [] then []
    else
      assert rows == [rows[0]] + rows[1..];
      (if Beyond(cut, place(rows[0])) then [rows[0]] else []) + Where(rows[1..], place, cut)
  }

  function Insert<T>(r: T, s: seq<T>, place: T -> Place): seq<T> {
    if s == [] || Before(place(r), place(s[0])) then [r] + s
    else [s[0]] + Insert(r, s[1..], place)
  }

  function Ordered<T>(rows: seq<T>, place: T -> Place): seq<T> {
    if rows == [] then [] else Insert(rows[0], Ordered(rows[1..], place), place)
  }

  function FirstOf<T>(s: seq<T>, n: nat): seq<T> {
    if |s| <= n then s else s[..n]
  }

  // SELECT … WHERE … ORDER BY … LIMIT n
  function Query<T>(rows: seq<T>, place: T -> Place, cut: Cut, n: nat): seq<T> {
    FirstOf(Ordered(Where(rows, place, cut), place), n)
  }

  // ----- order -----

  ghost predicate Increasing<T(!new)>(s: seq<T>, place: T -> Place) {
    forall i, j :: 0 <= i < j < |s| ==> Before(place(s[i]), place(s[j]))
  }

  ghost predicate DistinctPlaces<T(!new)>(rows: seq<T>, place: T -> Place) {
    forall i, j :: 0 <= i < j < |rows| ==> place(rows[i]) != place(rows[j])
  }

  ghost predicate AtMostOnePinned<T(!new)>(rows: seq<T>, place: T -> Place) {
    forall a, b :: a in rows && b in rows && place(a).rank == 0 && place(b).rank == 0 ==> a == b
  }

  // A table on which the listing's order is total.
  ghost predicate Listable<T(!new)>(rows: seq<T>, place: T -> Place) {
    DistinctPlaces(rows, place) && AtMostOnePinned(rows, place)
  }

  lemma {:induction false} InsertKeepsRows<T(!new)>(r: T, s: seq<T>, place: T -> Place)
    ensures forall x :: x in Insert(r, s, place) <==> x == r || x in s
    ensures |Insert(r, s, place)| == |s| + 1
  {
    if s != [] && !Before(place(r), place(s[0])) {
      InsertKeepsRows(r, s[1..], place);
      assert s == [s[0]] + s[1..];
    }
  }

  lemma {:induction false} InsertKeepsOrder<T(!new)>(r: T, s: seq<T>, place: T -> Place)
    requires Increasing(s, place) && forall x :: x in s ==> place(x) != place(r)
    ensures Increasing(Insert(r, s, place), place)
  {
    if s != [] && !Before(place(r), place(s[0])) {
      assert s[0] in s && Before(place(s[0]), place(r));
      InsertKeepsOrder(r, s[1..], place);
      InsertKeepsRows(r, s[1..], place);
      var rest := Insert(r, s[1..], place);
      forall j | 0 <= j < |rest| ensures Before(place(s[0]), place(rest[j])) {
        assert rest[j] in rest;
      }
    }
  }

  lemma {:induction false} OrderedKeepsRows<T(!new)>(rows: seq<T>, place: T -> Place)
    ensures forall x :: x in Ordered(rows, place) <==> x in rows
    ensures |Ordered(rows, place)| == |rows|
  {
    if rows == [] {
    } else {
      OrderedKeepsRows(rows[1..], place);
      InsertKeepsRows(rows[0], Ordered(rows[1..], place), place);
      assert rows == [rows[0]] + rows[1..];
    }
  }

  lemma {:induction false} OrderedIsIncreasing<T(!new)>(rows: seq<T>, place: T -> Place)
    requires DistinctPlaces(rows, place)
    ensures Increasing(Ordered(rows, place), place)
  {
    if rows == [] {
    } else {
      OrderedIsIncreasing(rows[1..], place);
      OrderedKeepsRows(rows[1..], place);
      InsertKeepsOrder(rows[0], Ordered(rows[1..], place), place);
    }
  }

  lemma {:induction false} WhereKeepsDistinct<T(!new)>(rows: seq<T>, place: T -> Place, cut: Cut)
    requires DistinctPlaces(rows, place)
    ensures DistinctPlaces(Where(rows, place, cut), place)
  {
    if rows == [] {
    } else {
      WhereKeepsDistinct(rows[1..], place, cut);
      var rest := Where(rows[1..], place, cut);
      forall j | 0 <= j < |rest| ensures place(rest[j]) != place(rows[0]) {
        assert rest[j] in rest;
      }
    }
  }

  // The rows beyond the cut, in order.
  function Rest<T>(rows: seq<T>, place: T -> Place, cut: Cut): seq<T> {
    Ordered(Where(rows, place, cut), place)
  }

  lemma RestMeaning<T(!new)>(rows: seq<T>, place: T -> Place, cut: Cut)
    requires DistinctPlaces(rows, place)
    ensures Increasing(Rest(rows, place, cut), place)
    ensures forall r :: r in Rest(rows, place, cut) <==> r in rows && Beyond(cut, place(r))
  {
    WhereKeepsDistinct(rows, place, cut);
    OrderedIsIncreasing(Where(rows, place, cut), place);
    OrderedKeepsRows(Where(rows, place, cut), place);
  }

  // An increasing listing is determined by which rows it holds.
  lemma {:induction false} IncreasingIsUnique<T(!new)>(s: seq<T>, t: seq<T>, place: T -> Place)
    requires Increasing(s, place) && Increasing(t, place)
    requires forall r :: r in s <==> r in t
    ensures s == t
  {
    assert t == [] || t[0] in t;
    if s != [] {
      assert s[0] in s && s[0] in t;
      assert t[0] in t && t[0] in s;
      assert s[0] == t[0];
      forall r ensures r in s[1..] <==> r in t[1..] {
        TailRows(s, r, place);
        TailRows(t, r, place);
      }
      IncreasingIsUnique(s[1..], t[1..], place);
      assert s == [s[0]] + s[1..] && t == [t[0]] + t[1..];
    }
  }

  lemma TailRows<T(!new)>(s: seq<T>, r: T, place: T -> Place)
    requires s != [] && Increasing(s, place)
    ensures r in s[1..] <==> r in s && r != s[0]
  {
    assert s == [s[0]] + s[1..];
    if r in s[1..] {
      var j :| 0 <= j < |s[1..]| && s[1..][j] == r;
      assert s[j + 1] == r;
    }
  }

  // What a query answers: rows of the table beyond the cut, as many as were asked for or else
  // all there are, each left out standing after each answered, and in order.
  ghost predicate Answers<T(!new)>(answer: seq<T>, rows: seq<T>, place: T -> Place, cut: Cut, n: nat) {
    && Increasing(answer, place)
    && |answer| <= n
    && (forall r :: r in answer ==> r in rows && Beyond(cut, place(r)))
    && (forall r :: r in rows && Beyond(cut, place(r)) && r !in answer ==>
          |answer| == n && forall a :: a in answer ==> Before(place(a), place(r)))
  }

  lemma QueryAnswers<T(!new)>(rows: seq<T>, place: T -> Place, cut: Cut, n: nat)
    requires DistinctPlaces(rows, place)
    ensures Answers(Query(rows, place, cut, n), rows, place, cut, n)
  {
    var all, answer := Rest(rows, place, cut), Query(rows, place, cut, n);
    RestMeaning(rows, place, cut);
    forall r | r in answer ensures r in all {}
    assert forall k :: 0 <= k < |answer| ==> all[k] in answer by {
      assert forall k :: 0 <= k < |answer| ==> answer[k] == all[k];
    }
    forall r | r in all && r !in answer
      ensures |answer| == n && forall a :: a in answer ==> Before(place(a), place(r))
    {
      var k :| 0 <= k < |all| && all[k] == r;
    }
  }

  lemma {:induction false} IncreasingSize<T(!new)>(s: seq<T>, place: T -> Place)
    requires Increasing(s, place)
    ensures |set r | r in s| == |s|
    decreases |s|
  {
    if s == [] {
    } else {
      var n := |s| - 1;
      IncreasingSize(s[..n], place);
      assert s == s[..n] + [s[n]];
      assert (set r | r in s) == (set r | r in s[..n]) + {s[n]};
    }
  }

  // An answer that leaves out a row of another answer is too short.
  lemma LeavesOutNone<T(!new)>(a: seq<T>, b: seq<T>, r: T, rows: seq<T>, place: T -> Place, cut: Cut, n: nat)
    requires Answers(a, rows, place, cut, n) && Answers(b, rows, place, cut, n)
    requires r in a
    ensures r in b
  {
    if r !in b {
      var others := (set x | x in a) - {r};
      forall x | x in b ensures x in others {
        assert Before(place(x), place(r));
        assert x !in a ==> Before(place(r), place(x));
      }
      IncreasingSize(a, place);
      IncreasingSize(b, place);
      SubsetSize((set x | x in b), others);
    }
  }

  // No other sequence of rows answers the same query.
  lemma AnswerIsUnique<T(!new)>(a: seq<T>, b: seq<T>, rows: seq<T>, place: T -> Place, cut: Cut, n: nat)
    requires Answers(a, rows, place, cut, n) && Answers(b, rows, place, cut, n)
    ensures a == b
  {
    forall r ensures r in a <==> r in b {
      if r in a {
        LeavesOutNone(a, b, r, rows, place, cut, n);
      }
      if r in b {
        LeavesOutNone(b, a, r, rows, place, cut, n);
      }
    }
    IncreasingIsUnique(a, b, place);
  }

  // ----- one page -----

  type Size = n: int | n > 0 witness 1

  // One row more than the page holds is asked for, and only says whether there is more.
  function PageRows<T>(rows: seq<T>, place: T -> Place, cut: Cut, limit: nat): seq<T> {
    FirstOf(Query(rows, place, cut, limit + 1), limit)
  }

  predicate HasMore<T>(rows: seq<T>, place: T -> Place, cut: Cut, limit: nat) {
    |Query(rows, place, cut, limit + 1)| > limit
  }

  // A page is the front of what is left, and `HasMore` is exact.
  lemma PageIsTheFront<T(!new)>(rows: seq<T>, place: T -> Place, cut: Cut, limit: nat)
    ensures PageRows(rows, place, cut, limit) == FirstOf(Rest(rows, place, cut), limit)
    ensures HasMore(rows, place, cut, limit) <==> |Rest(rows, place, cut)| > limit
  {
  }

  function Last<T>(page: seq<T>): T
    requires page != []
  {
    page[|page| - 1]
  }

  // What the next page resumes from.
  function NextCut<T>(rows: seq<T>, place: T -> Place, cut: Cut, limit: nat): Cut
    requires limit > 0 && HasMore(rows, place, cut, limit)
  {
    CutAfter(place(Last(PageRows(rows, place, cut, limit))))
  }

  lemma CutAfterIsLater(cut: Cut, p: Place, q: Place)
    requires Beyond(cut, p) && Beyond(CutAfter(p), q)
    ensures Before(p, q) && Beyond(cut, q)
  {
  }

  // A row of this very table that is still to come is on the page or beyond the next cut,
  // and never both.
  lemma PageSplits<T(!new)>(rows: seq<T>, place: T -> Place, cut: Cut, limit: nat, r: T)
    requires Listable(rows, place) && limit > 0
    requires r in rows && Beyond(cut, place(r))
    ensures r in PageRows(rows, place, cut, limit)
         || (HasMore(rows, place, cut, limit) && Beyond(NextCut(rows, place, cut, limit), place(r)))
  {
    var all := Rest(rows, place, cut);
    RestMeaning(rows, place, cut);
    PageIsTheFront(rows, place, cut, limit);
    var k :| 0 <= k < |all| && all[k] == r;
    if k >= limit {
      assert all[limit - 1] in all;
      assert Before(place(all[limit - 1]), place(r));
    } else if |all| > limit {
      assert all[..limit][k] == r;
    }
  }

  // What is left after a page of an unchanged table is what was left before, less the page.
  lemma RestAfterPage<T(!new)>(rows: seq<T>, place: T -> Place, cut: Cut, limit: nat)
    requires Listable(rows, place) && limit > 0 && HasMore(rows, place, cut, limit)
    ensures Rest(rows, place, NextCut(rows, place, cut, limit)) == Rest(rows, place, cut)[limit..]
  {
    PageIsTheFront(rows, place, cut, limit);
    var all := Rest(rows, place, cut);
    var next := NextCut(rows, place, cut, limit);
    RestMeaning(rows, place, cut);
    RestMeaning(rows, place, next);
    var last := all[limit - 1];
    assert Last(PageRows(rows, place, cut, limit)) == last && last in all;
    forall r ensures r in all[limit..] <==> r in rows && Beyond(next, place(r)) {
      if r in all[limit..] {
        var k :| 0 <= k < |all[limit..]| && all[limit..][k] == r;
        assert all[limit + k] == r && r in all;
        assert Before(place(last), place(r));
      }
      if r in rows && Beyond(next, place(r)) {
        CutAfterIsLater(cut, place(last), place(r));
        var k :| 0 <= k < |all| && all[k] == r;
        assert k >= limit;
        assert all[limit..][k - limit] == r;
      }
    }
    IncreasingIsUnique(Rest(rows, place, next), all[limit..], place);
  }

  // ----- a whole reading -----

  // One page read: the table as it is then, and the page size asked for.
  datatype Visit<T> = Visit(rows: seq<T>, limit: Size)

  // The pages of a reading that follows each page to the next, as far as `visits` goes.
  function Crawl<T>(visits: seq<Visit<T>>, place: T -> Place, cut: Cut): (pages: seq<seq<T>>)
    ensures |pages| <= |visits|
  {
    if visits == [] then []
    else
      var Visit(rows, limit) := visits[0];
      [PageRows(rows, place, cut, limit)]
      + if HasMore(rows, place, cut, limit) then Crawl(visits[1..], place, NextCut(rows, place, cut, limit)) else []
  }

  // Whether the reading comes to a page after which there is no more.
  predicate Completes<T>(visits: seq<Visit<T>>, place: T -> Place, cut: Cut) {
    && visits != []
    && var Visit(rows, limit) := visits[0];
       HasMore(rows, place, cut, limit) ==> Completes(visits[1..], place, NextCut(rows, place, cut, limit))
  }

  function Flatten<T>(pages: seq<seq<T>>): seq<T> {
    if pages == [] then [] else pages[0] + Flatten(pages[1..])
  }

  // The rows of a reading are those of its first page, and then those of the rest of it.
  lemma FirstThenRest<T(!new)>(visits: seq<Visit<T>>, place: T -> Place, cut: Cut)
    requires visits != []
    ensures var Visit(rows, limit) := visits[0];
            Flatten(Crawl(visits, place, cut))
            == PageRows(rows, place, cut, limit)
               + (if HasMore(rows, place, cut, limit)
                  then Flatten(Crawl(visits[1..], place, NextCut(rows, place, cut, limit))) else [])
  {
    var Visit(rows, limit) := visits[0];
    var pages := Crawl(visits, place, cut);
    assert Flatten(pages) == pages[0] + Flatten(pages[1..]);
    if HasMore(rows, place, cut, limit) {
      assert pages[1..] == Crawl(visits[1..], place, NextCut(rows, place, cut, limit));
    }
  }

  ghost predicate AllListable<T(!new)>(visits: seq<Visit<T>>, place: T -> Place) {
    forall k :: 0 <= k < |visits| ==> Listable(visits[k].rows, place)
  }

  // However the table changes between the pages, the rows come in the listing's order and so
  // none comes twice, and none comes from before the cut.
  lemma {:induction false} RowsComeInOrder<T(!new)>(visits: seq<Visit<T>>, place: T -> Place, cut: Cut)
    requires AllListable(visits, place)
    ensures Increasing(Flatten(Crawl(visits, place, cut)), place)
    ensures forall r :: r in Flatten(Crawl(visits, place, cut)) ==> Beyond(cut, place(r))
  {
    if visits == [] {
    } else {
      var Visit(rows, limit) := visits[0];
      var page := PageRows(rows, place, cut, limit);
      FirstThenRest(visits, place, cut);
      PageInOrder(rows, place, cut, limit);
      if HasMore(rows, place, cut, limit) {
        var next := NextCut(rows, place, cut, limit);
        var rest := Flatten(Crawl(visits[1..], place, next));
        RowsComeInOrder(visits[1..], place, next);
        forall r | r in rest ensures Before(place(Last(page)), place(r)) && Beyond(cut, place(r)) {
          CutAfterIsLater(cut, place(Last(page)), place(r));
        }
        InOrderTogether(page, rest, place);
      }
    }
  }

  lemma PageInOrder<T(!new)>(rows: seq<T>, place: T -> Place, cut: Cut, limit: Size)
    requires Listable(rows, place)
    ensures var page := PageRows(rows, place, cut, limit);
            && Increasing(page, place) && (forall r :: r in page ==> r in rows && Beyond(cut, place(r)))
            && (HasMore(rows, place, cut, limit) ==> page != [] && Last(page) in page)
  {
    PageIsTheFront(rows, place, cut, limit);
    RestMeaning(rows, place, cut);
    assert forall r :: r in PageRows(rows, place, cut, limit) ==> r in Rest(rows, place, cut);
  }

  lemma InOrderTogether<T(!new)>(s: seq<T>, t: seq<T>, place: T -> Place)
    requires s != [] && Increasing(s, place) && Increasing(t, place)
    requires forall r :: r in t ==> Before(place(Last(s)), place(r))
    ensures Increasing(s + t, place)
  {
    var u := s + t;
    forall i, j | 0 <= i < j < |u| ensures Before(place(u[i]), place(u[j])) {
      if i < |s| <= j {
        assert u[j] in t;
        assert i == |s| - 1 || Before(place(s[i]), place(Last(s)));
      }
    }
  }

  predicate Holds<T(!new)>(rows: seq<T>, place: T -> Place, p: Place) {
    exists k :: 0 <= k < |rows| && place(rows[k]) == p
  }

  lemma HeldByEither<T(!new)>(s: seq<T>, t: seq<T>, place: T -> Place, p: Place)
    requires Holds(s, place, p) || Holds(t, place, p)
    ensures Holds(s + t, place, p)
  {
    if Holds(s, place, p) {
      var k :| 0 <= k < |s| && place(s[k]) == p;
      assert (s + t)[k] == s[k];
    } else {
      var k :| 0 <= k < |t| && place(t[k]) == p;
      assert (s + t)[|s| + k] == t[k];
    }
  }

  lemma PageHolds<T(!new)>(rows: seq<T>, place: T -> Place, cut: Cut, limit: Size, p: Place)
    requires Listable(rows, place) && Holds(rows, place, p) && Beyond(cut, p)
    ensures Holds(PageRows(rows, place, cut, limit), place, p)
         || (HasMore(rows, place, cut, limit) && Beyond(NextCut(rows, place, cut, limit), p))
  {
    var k :| 0 <= k < |rows| && place(rows[k]) == p;
    PageSplits(rows, place, cut, limit, rows[k]);
  }

  // A place that is held at every page read, whatever else comes and goes, is among those
  // returned by a reading that completes.
  lemma {:induction false} NothingIsMissed<T(!new)>(visits: seq<Visit<T>>, place: T -> Place, cut: Cut, p: Place)
    requires AllListable(visits, place) && Completes(visits, place, cut) && Beyond(cut, p)
    requires forall k :: 0 <= k < |Crawl(visits, place, cut)| ==> Holds(visits[k].rows, place, p)
    ensures Holds(Flatten(Crawl(visits, place, cut)), place, p)
  {
    var Visit(rows, limit) := visits[0];
    var page := PageRows(rows, place, cut, limit);
    assert Holds(visits[0].rows, place, p);
    FirstThenRest(visits, place, cut);
    PageHolds(rows, place, cut, limit, p);
    if HasMore(rows, place, cut, limit) {
      var next := NextCut(rows, place, cut, limit);
      var rest := Crawl(visits[1..], place, next);
      if !Holds(page, place, p) {
        assert Crawl(visits, place, cut)[1..] == rest;
        NothingIsMissed(visits[1..], place, next, p);
      }
      HeldByEither(page, Flatten(rest), place, p);
    } else {
      HeldByEither(page, [], place, p);
    }
  }

  // Every row of a reading was in the table that its page was read from.
  lemma {:induction false} RowsWereThere<T(!new)>(visits: seq<Visit<T>>, place: T -> Place, cut: Cut, history: set<T>)
    requires AllListable(visits, place)
    requires forall k, r :: 0 <= k < |visits| && r in visits[k].rows ==> r in history
    ensures forall r :: r in Flatten(Crawl(visits, place, cut)) ==> r in history
  {
    if visits == [] {
    } else {
      var Visit(rows, limit) := visits[0];
      FirstThenRest(visits, place, cut);
      PageInOrder(rows, place, cut, limit);
      if HasMore(rows, place, cut, limit) {
        RowsWereThere(visits[1..], place, NextCut(rows, place, cut, limit), history);
      }
    }
  }

  // ----- an unchanging table -----

  // The number of pages is the length divided by the page size and rounded up, one at least.
  function PageCount(n: nat, limit: Size): (pages: nat)
    ensures pages >= 1 && n <= pages * limit
    ensures pages > 1 ==> (pages - 1) * limit < n
  {
    if n <= limit then 1 else 1 + PageCount(n - limit, limit)
  }

  // A completed reading of a table that does not change returns it whole and in order,
  // whatever the page sizes.
  lemma {:induction false} PagesMakeTheTable<T(!new)>(rows: seq<T>, visits: seq<Visit<T>>, place: T -> Place, cut: Cut)
    requires Listable(rows, place) && Completes(visits, place, cut)
    requires forall k :: 0 <= k < |visits| ==> visits[k].rows == rows
    ensures Flatten(Crawl(visits, place, cut)) == Rest(rows, place, cut)
  {
    var limit := visits[0].limit;
    FirstThenRest(visits, place, cut);
    PageIsTheFront(rows, place, cut, limit);
    if HasMore(rows, place, cut, limit) {
      PagesMakeTheTable(rows, visits[1..], place, NextCut(rows, place, cut, limit));
      RestAfterPage(rows, place, cut, limit);
      FrontAndRest(Rest(rows, place, cut), limit);
    }
  }

  lemma FrontAndRest<T>(s: seq<T>, n: nat)
    requires n <= |s|
    ensures s[..n] + s[n..] == s
  {
  }

  ghost predicate AllButTheLastFull<T(!new)>(pages: seq<seq<T>>, limit: Size) {
    forall k :: 0 <= k < |pages| - 1 ==> |pages[k]| == limit
  }

  lemma FullPageFirst<T(!new)>(page: seq<T>, rest: seq<seq<T>>, limit: Size)
    requires |page| == limit && AllButTheLastFull(rest, limit)
    ensures AllButTheLastFull([page] + rest, limit)
  {
  }

  // With one page size as well, a reading allowed that many pages completes in exactly that
  // many, and every page but the last is full.
  lemma {:induction false} NumberOfPages<T(!new)>(
      rows: seq<T>, visits: seq<Visit<T>>, place: T -> Place, cut: Cut, limit: Size)
    requires Listable(rows, place)
    requires forall k :: 0 <= k < |visits| ==> visits[k] == Visit(rows, limit)
    requires |visits| >= PageCount(|Rest(rows, place, cut)|, limit)
    ensures Completes(visits, place, cut)
    ensures |Crawl(visits, place, cut)| == PageCount(|Rest(rows, place, cut)|, limit)
    ensures AllButTheLastFull(Crawl(visits, place, cut), limit)
    decreases |visits|
  {
    PageIsTheFront(rows, place, cut, limit);
    if HasMore(rows, place, cut, limit) {
      var next := NextCut(rows, place, cut, limit);
      RestAfterPage(rows, place, cut, limit);
      NumberOfPages(rows, visits[1..], place, next, limit);
      FullPageFirst(PageRows(rows, place, cut, limit), Crawl(visits[1..], place, next), limit);
    }
  }
}
