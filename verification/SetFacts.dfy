/** Counting facts about finite sets. */
module SetFacts {

  lemma Pick<T>(s: set<T>) returns (x: T)
    requires s != {}
    ensures x in s
  {
    x :| x in s;
  }

  lemma AtMostOne<T(!new)>(s: set<T>)
    ensures |s| <= 1 <==> forall x, y :: x in s && y in s ==> x == y
  {
    if s != {} {
      var x := Pick(s);
      if s - {x} == {} {
        assert s == {x};
      } else {
        var y := Pick(s - {x});
        SubsetSize({x, y}, s);
      }
    }
  }

  lemma SubsetSize<T>(a: set<T>, b: set<T>)
    requires a <= b
    ensures |a| <= |b|
    ensures |a| == |b| ==> a == b
  {
    assert b == a + (b - a);
  }

  // {0, ..., n - 1}
  function Upto(n: nat): (s: set<int>)
    ensures |s| == n
    ensures forall i :: i in s <==> 0 <= i < n
  {
    if n == 0 then {} else Upto(n - 1) + {n - 1}
  }

  lemma {:induction false} Greatest(ids: set<int>) returns (k: int)
    requires ids != {}
    ensures k in ids && forall i :: i in ids ==> i <= k
    decreases |ids|
  {
    k := Pick(ids);
    if ids != {k} {
      var r := Greatest(ids - {k});
      assert forall i :: i in ids ==> i == k || i in ids - {k};
      if r > k {
        k := r;
      }
    }
  }

  // An injective naming of `ids` into `names` bounds their number.
  lemma {:induction false} DistinctImages<T>(ids: set<int>, name: map<int, T>, names: set<T>)
    requires ids <= name.Keys
    requires forall i :: i in ids ==> name[i] in names
    requires forall i, j :: i in ids && j in ids && i != j ==> name[i] != name[j]
    ensures |ids| <= |names|
    decreases |ids|
  {
    if ids == {} {
    } else {
      var i := Pick(ids);
      DistinctImages(ids - {i}, name, names - {name[i]});
    }
  }

  // As many names as `ids`, where no two share one.
  lemma {:induction false} ImageSize<T(!new)>(ids: set<int>, name: map<int, T>, names: set<T>)
    requires ids <= name.Keys
    requires forall x :: x in names <==> exists i :: i in ids && name[i] == x
    requires forall i, j :: i in ids && j in ids && i != j ==> name[i] != name[j]
    ensures |ids| == |names|
    decreases |ids|
  {
    if ids == {} {
      assert names == {};
    } else {
      var i := Pick(ids);
      ImageSize(ids - {i}, name, names - {name[i]});
    }
  }
}
