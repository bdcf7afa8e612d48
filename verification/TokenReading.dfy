/**
  Reading rows page by page where nothing changes between the pages: each token leaves some
  rows to be read, and each page but the last ends with a row whose token is followed next.
*/
module TokenReading {
  import opened Options
  import opened Keyset

  // What a token leaves, if it is accepted, and the token that a page ending with a row carries.
  datatype Source<!T> = Source(left: string -> Option<seq<T>>, token: T -> string, size: Size)

  // The rows got by at most `n` requests, from the token on, if none is refused and the last
  // says that there is no more.
  function Get<T>(s: Source<T>, n: nat, token: string): Option<seq<T>> {
    if n == 0 then None
    else
      match s.left(token)
      case None => None
      case Some(rows) =>
        if |rows| <= s.size then Some(rows)
        else
          match Get(s, n - 1, s.token(rows[s.size - 1]))
          case None => None
          case Some(more) => Some(rows[..s.size] + more)
  }

  // The token of a row leaves just the rows after it.
  ghost predicate LeavesTheRest<T(!new)>(s: Source<T>, all: seq<T>, k: nat)
    requires k < |all|
  {
    s.left(s.token(all[k])) == Some(all[k + 1..])
  }

  // The tokens of all rows that have another after them do.
  ghost predicate Exact<T(!new)>(s: Source<T>, all: seq<T>) {
    forall k: nat :: k + 1 < |all| ==> LeavesTheRest(s, all, k)
  }

  lemma {:induction false} ExactGets<T(!new)>(s: Source<T>, all: seq<T>, n: nat, token: string, k: nat)
    requires Exact(s, all) && k <= |all| < n + k && s.left(token) == Some(all[k..])
    ensures Get(s, n, token) == Some(all[k..])
    decreases n
  {
    if |all| <= k + s.size {
    } else {
      var last := k + s.size - 1;
      assert LeavesTheRest(s, all, last);
      assert all[k..][s.size - 1] == all[last];
      ExactGets(s, all, n - 1, s.token(all[last]), last + 1);
      assert all[k..][..s.size] + all[last + 1..] == all[k..];
    }
  }

  // A token that leaves anything leaves a row of the table and all that follow it.
  ghost predicate LeavesSuffixes<T(!new)>(s: Source<T>, all: seq<T>) {
    forall token: string, k: nat :: k < |all| && LeavesFirst(s, token, all[k]) ==> s.left(token) == Some(all[k..])
  }

  ghost predicate LeavesFirst<T(!new)>(s: Source<T>, token: string, r: T) {
    var rows := s.left(token);
    rows.Some? && rows.value != [] && rows.value[0] == r
  }

  // What is got begins with what is left.
  lemma GetBegins<T(!new)>(s: Source<T>, n: nat, token: string)
    requires Get(s, n, token).Some? && Get(s, n, token).value != []
    ensures LeavesFirst(s, token, Get(s, n, token).value[0])
  {
  }

  lemma OneRowOn<T(!new)>(s: Source<T>, all: seq<T>, n: nat, token: string, k: nat)
    requires s.size == 1 && LeavesSuffixes(s, all) && k + 1 < |all|
    requires s.left(token) == Some(all[k..]) && Get(s, n, token) == Some(all[k..])
    ensures n > 0 && LeavesTheRest(s, all, k) && Get(s, n - 1, s.token(all[k])) == Some(all[k + 1..])
  {
    var next := s.token(all[k]);
    var more := Get(s, n - 1, next);
    assert all[k..][0] == all[k] && all[k..][..1] == [all[k]];
    assert all[k..] == [all[k]] + all[k + 1..];
    assert more == Some(all[k + 1..]);
    GetBegins(s, n - 1, next);
    assert more.value[0] == all[k + 1];
  }

  lemma {:induction false} GettingIsExact<T(!new)>(s: Source<T>, all: seq<T>, n: nat, token: string, k: nat, i: nat)
    requires s.size == 1 && LeavesSuffixes(s, all) && k <= i && i + 1 < |all|
    requires s.left(token) == Some(all[k..]) && Get(s, n, token) == Some(all[k..])
    ensures LeavesTheRest(s, all, i)
    decreases n
  {
    OneRowOn(s, all, n, token, k);
    if i == k {
    } else {
      GettingIsExact(s, all, n - 1, s.token(all[k]), k + 1, i);
    }
  }

  lemma ExactGetsAll<T(!new)>(s: Source<T>, all: seq<T>, start: string)
    requires Exact(s, all) && s.left(start) == Some(all)
    ensures Get(s, |all| + 1, start) == Some(all)
  {
    assert all[0..] == all;
    ExactGets(s, all, |all| + 1, start, 0);
  }

  // With pages of one row, all rows are got in order only if all tokens are exact.
  lemma GettingAllIsExact<T(!new)>(s: Source<T>, all: seq<T>, start: string)
    requires s.size == 1 && LeavesSuffixes(s, all) && s.left(start) == Some(all)
    requires Get(s, |all| + 1, start) == Some(all)
    ensures Exact(s, all)
  {
    assert all[0..] == all;
    forall k: nat | k + 1 < |all| ensures LeavesTheRest(s, all, k) {
      GettingIsExact(s, all, |all| + 1, start, 0, k);
    }
  }
}
