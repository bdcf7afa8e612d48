/** When two listings are of the same decoded value, and what reads the same in both. */
module JsonLdOrder {
  import opened Options
  import opened Text
  import opened JsonValues
  import opened JsonLd

  // ----- the same value, listed in another order -----

  ghost predicate DistinctKeys(fields: seq<Field>) {
    forall i, j :: 0 <= i < j < |fields| ==> fields[i].key != fields[j].key
  }

  // A decoded value: every object in it lists each key once.
  ghost predicate Decoded(v: Json) {
    match v
    case List(items) => forall i :: 0 <= i < |items| ==> Decoded(items[i])
    case Object(fields) => DistinctKeys(fields) && forall i :: 0 <= i < |fields| ==> Decoded(fields[i].value)
    case _ => true
  }

  // Two listings of one decoded value: they differ at most in the order of the fields of
  // the objects in them.
  ghost predicate SameValue(v: Json, w: Json) {
    match v
    case List(items) =>
      && w.List? && |items| == |w.items|
      && forall i :: 0 <= i < |items| ==> SameValue(items[i], w.items[i])
    case Object(fields) =>
      && w.Object? && Keys(fields) == Keys(w.fields)
      && forall k :: k in Keys(fields) ==> SameValue(Get(fields, k).value, Get(w.fields, k).value)
    case _ => v == w
  }

  ghost predicate SameLookup(a: Option<Json>, b: Option<Json>) {
    if a.None? then b.None? else b.Some? && SameValue(a.value, b.value) && Decoded(a.value) && Decoded(b.value)
  }

  lemma GetAt(fields: seq<Field>, i: nat)
    requires DistinctKeys(fields) && i < |fields|
    ensures Get(fields, fields[i].key) == Some(fields[i].value)
  {
    assert fields[i] in fields;
    var v := Get(fields, fields[i].key);
    var j :| 0 <= j < |fields| && fields[j] == Field(fields[i].key, v.value);
    assert i == j;
  }

  // A lookup does not see the order.
  lemma Lookup(v: Json, w: Json, key: string)
    requires v.Object? && w.Object? && SameValue(v, w) && Decoded(v) && Decoded(w)
    ensures SameLookup(Get(v.fields, key), Get(w.fields, key))
  {
    var a, b := Get(v.fields, key), Get(w.fields, key);
    if a.Some? {
      var i :| 0 <= i < |v.fields| && v.fields[i] == Field(key, a.value);
      var j :| 0 <= j < |w.fields| && w.fields[j] == Field(key, b.value);
    }
  }

  // ----- the accessors -----

  lemma SameString(v: Json, w: Json, key: string)
    requires v.Object? && w.Object? && SameValue(v, w) && Decoded(v) && Decoded(w)
    ensures StringOf(v.fields, key) == StringOf(w.fields, key)
  {
    Lookup(v, w, key);
    var a, b := Get(v.fields, key), Get(w.fields, key);
    if a.Some? && a.value.Object? {
      Lookup(a.value, b.value, "@value");
    }
  }

  ghost predicate SameItems(a: seq<Json>, b: seq<Json>) {
    |a| == |b| && forall i :: 0 <= i < |a| ==> SameValue(a[i], b[i]) && Decoded(a[i]) && Decoded(b[i])
  }

  lemma {:induction false} SameFirsts(a: seq<Json>, b: seq<Json>, lower: Lower)
    requires SameItems(a, b)
    ensures FirstTypeName(a, lower) == FirstTypeName(b, lower)
    ensures FirstName(a) == FirstName(b)
    ensures FirstImage(a) == FirstImage(b)
    decreases |a|
  {
    if a == [] {
    } else {
      assert SameItems(a[1..], b[1..]);
      SameFirsts(a[1..], b[1..], lower);
      if a[0].Object? {
        SameString(a[0], b[0], "name");
        SameString(a[0], b[0], "url");
        SameString(a[0], b[0], "contentUrl");
      }
    }
  }

  lemma SameType(v: Json, w: Json, lower: Lower)
    requires v.Object? && w.Object? && SameValue(v, w) && Decoded(v) && Decoded(w)
    ensures TypeOf(v.fields, lower) == TypeOf(w.fields, lower)
  {
    Lookup(v, w, "@type");
    var a, b := Get(v.fields, "@type"), Get(w.fields, "@type");
    if a.Some? && a.value.List? {
      SameFirsts(a.value.items, b.value.items, lower);
    }
  }

  lemma SameNestedName(v: Json, w: Json, key: string, lower: Lower)
    requires v.Object? && w.Object? && SameValue(v, w) && Decoded(v) && Decoded(w)
    ensures NestedName(v.fields, key) == NestedName(w.fields, key)
  {
    Lookup(v, w, key);
    var a, b := Get(v.fields, key), Get(w.fields, key);
    if a.Some? && a.value.List? {
      SameFirsts(a.value.items, b.value.items, lower);
    } else if a.Some? && a.value.Object? {
      SameString(a.value, b.value, "name");
    }
  }

  lemma SameImage(v: Json, w: Json, lower: Lower)
    requires v.Object? && w.Object? && SameValue(v, w) && Decoded(v) && Decoded(w)
    ensures ImageOf(v.fields) == ImageOf(w.fields)
  {
    Lookup(v, w, "image");
    var a, b := Get(v.fields, "image"), Get(w.fields, "image");
    if a.Some? && a.value.List? {
      SameFirsts(a.value.items, b.value.items, lower);
    } else if a.Some? && a.value.Object? {
      SameString(a.value, b.value, "url");
      SameString(a.value, b.value, "contentUrl");
    }
  }

  // ----- other listings of a value -----

  // Some listing of the decoded value `v`, as a run may iterate it.
  ghost predicate ListingOf(v: Json, w: Json) {
    SameValue(v, w) && Decoded(w)
  }

  lemma {:induction false} SameToItself(v: Json)
    ensures SameValue(v, v)
    decreases v
  {
    match v
    case Object(fields) =>
      forall k | k in Keys(fields) ensures SameValue(Get(fields, k).value, Get(fields, k).value) {
        SameToItself(Get(fields, k).value);
      }
    case List(items) =>
      forall i | 0 <= i < |items| ensures SameValue(items[i], items[i]) {
        SameToItself(items[i]);
      }
    case _ =>
  }

  // The fields with field `i` put first and its value listed as `w`.
  function Front(fields: seq<Field>, i: nat, w: Json): seq<Field>
    requires i < |fields|
  {
    [Field(fields[i].key, w)] + (fields[..i] + fields[i + 1..])
  }

  // Where field `j` goes when field `i` is put first.
  function Moved(i: nat, j: nat): nat {
    if j == i then 0 else if j < i then j + 1 else j
  }

  lemma FrontAt(fields: seq<Field>, i: nat, w: Json, j: nat)
    requires i < |fields| && j < |fields|
    ensures Moved(i, j) < |fields|
    ensures Front(fields, i, w)[Moved(i, j)] == if j == i then Field(fields[i].key, w) else fields[j]
  {
  }

  lemma FrontIsDistinct(fields: seq<Field>, i: nat, w: Json)
    requires i < |fields| && DistinctKeys(fields)
    ensures DistinctKeys(Front(fields, i, w))
  {
  }

  lemma FrontKeys(fields: seq<Field>, i: nat, w: Json)
    requires i < |fields| && DistinctKeys(fields)
    ensures DistinctKeys(Front(fields, i, w)) && Keys(Front(fields, i, w)) == Keys(fields)
    ensures Get(Front(fields, i, w), fields[i].key) == Some(w)
    ensures forall k :: k in Keys(fields) && k != fields[i].key ==> Get(Front(fields, i, w), k) == Get(fields, k)
  {
    var front := Front(fields, i, w);
    FrontIsDistinct(fields, i, w);
    FrontHasNoOther(fields, i, w);
    forall k | k in Keys(fields) ensures k in Keys(front) && (k != fields[i].key ==> Get(front, k) == Get(fields, k)) {
      var j :| 0 <= j < |fields| && fields[j].key == k;
      FrontAt(fields, i, w, j);
      assert front[Moved(i, j)] in front;
      GetAt(front, Moved(i, j));
      GetAt(fields, j);
    }
    GetAt(front, 0);
  }

  lemma FrontHasNoOther(fields: seq<Field>, i: nat, w: Json)
    requires i < |fields|
    ensures Keys(Front(fields, i, w)) <= Keys(fields)
  {
    forall f | f in Front(fields, i, w) ensures f.key in Keys(fields) {
      if f == Field(fields[i].key, w) {
        assert fields[i] in fields;
      } else {
        assert f in fields;
      }
    }
  }

  lemma FrontIsListing(v: Json, i: nat, w: Json)
    requires v.Object? && Decoded(v) && i < |v.fields| && ListingOf(v.fields[i].value, w)
    ensures ListingOf(v, Object(Front(v.fields, i, w)))
  {
    var fields, front := v.fields, Front(v.fields, i, w);
    FrontKeys(fields, i, w);
    GetAt(fields, i);
    forall k | k in Keys(fields) ensures SameValue(Get(fields, k).value, Get(front, k).value) {
      SameToItself(Get(fields, k).value);
    }
    forall j | 0 <= j < |front| ensures Decoded(front[j].value) {
      assert j == 0 || front[j] in fields;
    }
  }
}
