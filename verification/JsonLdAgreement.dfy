/** What the order in which decoded objects are iterated cannot change, and that it can change the rest. */
module JsonLdAgreement {
  import opened Options
  import opened Text
  import opened JsonValues
  import opened JsonLd
  import opened JsonLdOrder
  import opened SiteNames

  // ----- what survives any order -----

  // The two maps hold the same keys, and the same values but for the two site names.
  ghost predicate Agree(d: Candidates, e: Candidates) {
    d.Keys == e.Keys && forall k :: k in d && k !in SITE_KEYS ==> d[k] == e[k]
  }

  lemma RecordKeepsAgreement(d: Candidates, e: Candidates, key: string, value: string)
    requires Agree(d, e)
    ensures Agree(Record(d, key, value), Record(e, key, value))
  {
  }

  lemma ValuesKeepAgreement(
      d: Candidates, e: Candidates, headline: string, description: string, name: string, url: string,
                            image: string, publisher: string, author: string)
    requires Agree(d, e)
    ensures Agree(RecordValues(d, headline, description, name, url, image, publisher, author),
                  RecordValues(e, headline, description, name, url, image, publisher, author))
  {
    var d1, e1 := Record(d, "jsonld:headline", headline), Record(e, "jsonld:headline", headline);
    var d2, e2 := Record(d1, "jsonld:description", description), Record(e1, "jsonld:description", description);
    var d3, e3 := Record(d2, "jsonld:name", name), Record(e2, "jsonld:name", name);
    var d4, e4 := Record(d3, "jsonld:url", url), Record(e3, "jsonld:url", url);
    var d5, e5 := Record(d4, "jsonld:image", image), Record(e4, "jsonld:image", image);
    RecordKeepsAgreement(d, e, "jsonld:headline", headline);
    RecordKeepsAgreement(d1, e1, "jsonld:description", description);
    RecordKeepsAgreement(d2, e2, "jsonld:name", name);
    RecordKeepsAgreement(d3, e3, "jsonld:url", url);
    RecordKeepsAgreement(d4, e4, "jsonld:image", image);
    RecordKeepsAgreement(d5, e5, "jsonld:publisher.name", publisher);
    RecordKeepsAgreement(Record(d5, "jsonld:publisher.name", publisher), Record(e5, "jsonld:publisher.name", publisher),
                         "jsonld:author.name", author);
  }

  lemma PageKeepsAgreement(d: Candidates, e: Candidates, v: Json, w: Json, lower: Lower)
    requires Agree(d, e) && v.Object? && w.Object? && SameValue(v, w) && Decoded(v) && Decoded(w)
    ensures Agree(RecordPage(d, v.fields), RecordPage(e, w.fields))
  {
    SameString(v, w, "headline");
    SameString(v, w, "description");
    SameString(v, w, "name");
    SameString(v, w, "url");
    SameImage(v, w, lower);
    SameNestedName(v, w, "publisher", lower);
    SameNestedName(v, w, "author", lower);
    ValuesKeepAgreement(d, e, StringOf(v.fields, "headline"), StringOf(v.fields, "description"),
        StringOf(v.fields, "name"),
                        StringOf(v.fields, "url"), ImageOf(v.fields), NestedName(v.fields, "publisher"),
                        NestedName(v.fields, "author"));
  }

  // ----- inside references, nothing but site names -----

  // Away from the site names, the map has not changed.
  ghost predicate OnlySites(d: Candidates, e: Candidates) {
    forall k :: k !in SITE_KEYS ==> (k in e <==> k in d) && (k in d ==> e[k] == d[k])
  }

  lemma {:induction false} ReferencesNameOnlySites(d: Candidates, node: Json, lower: Lower)
    ensures OnlySites(d, Walk(d, node, true, lower))
    decreases node
  {
    match node
    case Object(fields) =>
      var g := Get(fields, "@graph");
      var graph := if g.None? then d else Walk(d, g.value, true, lower);
      if g.Some? {
        ReferencesNameOnlySites(d, g.value, lower);
      }
      assert WalkGraph(d, node, true, lower) == graph;
      RestNamesOnlySites(graph, fields, lower);
    case List(items) => ItemsNameOnlySites(d, items, lower);
    case _ =>
  }

  lemma {:induction false} ItemsNameOnlySites(d: Candidates, items: seq<Json>, lower: Lower)
    ensures OnlySites(d, WalkItems(d, items, true, lower))
    decreases items, 0
  {
    if items == [] {
    } else {
      var n := |items| - 1;
      ItemsNameOnlySites(d, items[..n], lower);
      ReferencesNameOnlySites(WalkItems(d, items[..n], true, lower), items[n], lower);
    }
  }

  lemma {:induction false} RestNamesOnlySites(d: Candidates, fields: seq<Field>, lower: Lower)
    ensures OnlySites(d, WalkRest(d, fields, lower))
    decreases fields, 0
  {
    if fields == [] {
    } else {
      var n := |fields| - 1;
      RestNamesOnlySites(d, fields[..n], lower);
      if Walked(fields[n]) {
        ReferencesNameOnlySites(WalkRest(d, fields[..n], lower), fields[n].value, lower);
      }
    }
  }

  // ----- order independence -----

  // Agreement survives two walks that change nothing but site names and name the same ones.
  lemma SitesKeepAgreement(d: Candidates, e: Candidates, d': Candidates, e': Candidates)
    requires Agree(d, e) && OnlySites(d, d') && OnlySites(e, e')
    requires forall key :: key in SITE_KEYS ==> (key in d' <==> key in e')
    ensures Agree(d', e')
  {
    assert forall k :: k in d' <==> k in e';
  }

  lemma RestKeepsAgreement(d: Candidates, e: Candidates, v: Json, w: Json, lower: Lower)
    requires Agree(d, e) && v.Object? && w.Object? && SameValue(v, w) && Decoded(v) && Decoded(w)
    ensures Agree(WalkRest(d, v.fields, lower), WalkRest(e, w.fields, lower))
  {
    var d', e' := WalkRest(d, v.fields, lower), WalkRest(e, w.fields, lower);
    RestNamesOnlySites(d, v.fields, lower);
    RestNamesOnlySites(e, w.fields, lower);
    forall key | key in SITE_KEYS ensures key in d' <==> key in e' {
      SameRestNamings(v, w, key, lower);
      RestGives(v.fields, key, lower);
      RestGives(w.fields, key, lower);
      RestFrom(d, v.fields, lower);
      RestFrom(e, w.fields, lower);
    }
    SitesKeepAgreement(d, e, d', e');
  }

  // Whatever order the runtime iterates each object in, the walk leaves the same candidates
  // under the same keys, and all but the two site names hold the same values.
  lemma {:induction false} OrderIndependent(
      d: Candidates, e: Candidates, v: Json, w: Json, reference: bool, lower: Lower)
    requires Agree(d, e) && SameValue(v, w) && Decoded(v) && Decoded(w)
    ensures Agree(Walk(d, v, reference, lower), Walk(e, w, reference, lower))
    decreases v, 2
  {
    match v
    case Object(fields) => ObjectIsOrderIndependent(d, e, v, w, reference, lower);
    case List(items) => ItemsAreOrderIndependent(d, e, items, w.items, reference, lower);
    case _ =>
  }

  lemma {:induction false} GraphIsOrderIndependent(
      d: Candidates, e: Candidates, v: Json, w: Json, reference: bool, lower: Lower)
    requires Agree(d, e) && v.Object? && w.Object? && SameValue(v, w) && Decoded(v) && Decoded(w)
    ensures Agree(WalkGraph(d, v, reference, lower), WalkGraph(e, w, reference, lower))
    decreases v, 0
  {
    Lookup(v, w, "@graph");
    match Get(v.fields, "@graph")
    case None =>
    case Some(g) => OrderIndependent(d, e, g, Get(w.fields, "@graph").value, reference, lower);
  }

  lemma {:induction false} ObjectIsOrderIndependent(
      d: Candidates, e: Candidates, v: Json, w: Json, reference: bool, lower: Lower)
    requires Agree(d, e) && v.Object? && w.Object? && SameValue(v, w) && Decoded(v) && Decoded(w)
    ensures Agree(WalkObject(d, v, reference, lower), WalkObject(e, w, reference, lower))
    decreases v, 1
  {
    SameType(v, w, lower);
    var kind := TypeOf(v.fields, lower);
    if kind == "organization" || kind == "website" {
      SameString(v, w, "name");
    } else {
      PageKeepsAgreement(d, e, v, w, lower);
      var page := if reference then d else RecordPage(d, v.fields);
      var page' := if reference then e else RecordPage(e, w.fields);
      GraphIsOrderIndependent(page, page', v, w, reference, lower);
      RestKeepsAgreement(WalkGraph(page, v, reference, lower), WalkGraph(page', w, reference, lower), v, w, lower);
    }
  }

  lemma {:induction false} ItemsAreOrderIndependent(
      d: Candidates, e: Candidates, a: seq<Json>, b: seq<Json>, reference: bool, lower: Lower)
    requires Agree(d, e) && SameItems(a, b)
    ensures Agree(WalkItems(d, a, reference, lower), WalkItems(e, b, reference, lower))
    decreases a, 0
  {
    if a == [] {
    } else {
      var n := |a| - 1;
      ItemsAreOrderIndependent(d, e, a[..n], b[..n], reference, lower);
      OrderIndependent(WalkItems(d, a[..n], reference, lower), WalkItems(e, b[..n], reference, lower), a[n], b[n],
          reference, lower);
    }
  }

  // ----- the site names are a real exception -----

  // An organisation or a web site with a name, and the key it names.
  function Entity(kind: string, name: string): Json {
    Object([Field("@type", Str(kind)), Field("name", Str(name))])
  }

  predicate Names(kind: string, key: string, lower: Lower) {
    || (TypeName(kind, lower) == "organization" && key == ORGANIZATION_NAME)
    || (TypeName(kind, lower) == "website" && key == WEBSITE_NAME)
  }

  lemma EntityFields(kind: string, name: string)
    ensures Get(Entity(kind, name).fields, "@type") == Some(Str(kind))
    ensures Get(Entity(kind, name).fields, "name") == Some(Str(name))
    ensures Decoded(Entity(kind, name))
  {
    var fields := Entity(kind, name).fields;
    GetAt(fields, 0);
    GetAt(fields, 1);
  }

  lemma EntityNames(d: Candidates, kind: string, name: string, key: string, lower: Lower)
    requires Names(kind, key, lower)
    ensures WalkObject(d, Entity(kind, name), true, lower) == Record(d, key, name)
  {
    EntityFields(kind, name);
  }

  // An object none of whose properties the walk reads says nothing itself.
  lemma SaysNothing(fields: seq<Field>, lower: Lower)
    requires forall key :: key in Keys(fields) ==> |key| == 1
    ensures RecordPage(map[], fields) == map[]
    ensures TypeOf(fields, lower) == "" && Get(fields, "@graph") == None
  {
    assert Get(fields, "headline") == Get(fields, "description") == Get(fields, "name") == Get(fields, "url") == None;
    assert Get(fields, "image") == Get(fields, "publisher") == Get(fields, "author") == Get(fields, "@type") == None;
    BlankValues();
  }

  lemma BlankValues()
    ensures RecordValues(map[], "", "", "", "", "", "", "") == map[]
  {
  }

  lemma RestOfTwo(x: Field, y: Field, lower: Lower)
    requires Walked(x) && Walked(y)
    ensures WalkRest(map[], [x, y], lower) == Walk(Walk(map[], x.value, true, lower), y.value, true, lower)
  {
    assert [x, y][..1] == [x] && [x][..0] == [];
    assert WalkRest(map[], [x], lower) == Walk(map[], x.value, true, lower);
  }

  lemma OnlyItsRest(v: Json, lower: Lower)
    requires v.Object? && TypeOf(v.fields, lower) == "" && Get(v.fields, "@graph") == None
    requires RecordPage(map[], v.fields) == map[]
    ensures WalkObject(map[], v, false, lower) == WalkRest(map[], v.fields, lower)
  {
  }

  lemma TwoEntities(x: Field, y: Field, kind: string, first: string, second: string, key: string, lower: Lower)
    requires Names(kind, key, lower) && |x.key| == |y.key| == 1
    requires x.value == Entity(kind, first) && y.value == Entity(kind, second)
    ensures WalkObject(map[], Object([x, y]), false, lower) == Record(Record(map[], key, first), key, second)
  {
    PairWalk(x, y, lower);
    EntityNames(map[], kind, first, key, lower);
    EntityNames(Record(map[], key, first), kind, second, key, lower);
  }

  lemma PairWalk(x: Field, y: Field, lower: Lower)
    requires |x.key| == |y.key| == 1 && x.value.Object? && y.value.Object?
    ensures WalkObject(map[], Object([x, y]), false, lower)
        == Walk(Walk(map[], x.value, true, lower), y.value, true, lower)
  {
    SaysNothing([x, y], lower);
    OnlyItsRest(Object([x, y]), lower);
    ShortKeyIsWalked(x);
    ShortKeyIsWalked(y);
    RestOfTwo(x, y, lower);
  }

  lemma ShortKeyIsWalked(x: Field)
    requires |x.key| == 1 && x.value.Object?
    ensures Walked(x)
  {
  }

  lemma FirstNameStays(key: string, first: string, second: string)
    requires key != "" && first != "" && Trim(first) == first
    ensures Record(Record(map[], key, first), key, second) == map[key := first]
  {
  }

  lemma TwoOrders(x: Field, y: Field)
    requires x.key != y.key && Decoded(x.value) && Decoded(y.value)
    ensures SameValue(Object([x, y]), Object([y, x])) && Decoded(Object([x, y])) && Decoded(Object([y, x]))
  {
    GetAt([x, y], 0);
    GetAt([x, y], 1);
    GetAt([y, x], 0);
    GetAt([y, x], 1);
    SameToItself(x.value);
    SameToItself(y.value);
    assert Keys([x, y]) == {x.key, y.key} == Keys([y, x]);
  }

  lemma NamesInOrder(x: Field, y: Field, kind: string, first: string, second: string, key: string, lower: Lower)
    requires Names(kind, key, lower) && |x.key| == |y.key| == 1
    requires x.value == Entity(kind, first) && y.value == Entity(kind, second)
    requires first != "" && Trim(first) == first
    ensures WalkObject(map[], Object([x, y]), false, lower) == map[key := first]
  {
    TwoEntities(x, y, kind, first, second, key, lower);
    FirstNameStays(key, first, second);
  }

  lemma OneLetter(c: char)
    requires !IsSpace(c)
    ensures Trim([c]) == [c]
  {
  }

  // One object with two entities, listed in two orders.
  function AThenB(kind: string): Json {
    Object([Field("x", Entity(kind, "A")), Field("y", Entity(kind, "B"))])
  }

  function BThenA(kind: string): Json {
    Object([Field("y", Entity(kind, "B")), Field("x", Entity(kind, "A"))])
  }

  lemma BothAreListings(kind: string)
    ensures ListingOf(AThenB(kind), BThenA(kind)) && Decoded(AThenB(kind))
  {
    EntityFields(kind, "A");
    EntityFields(kind, "B");
    TwoOrders(Field("x", Entity(kind, "A")), Field("y", Entity(kind, "B")));
  }

  // Two listings of one value that the walk leaves with two names under the key.
  lemma SiteNameDependsOnOrder(kind: string, key: string, lower: Lower)
    requires Names(kind, key, lower)
    ensures Walk(map[], AThenB(kind), false, lower) == map[key := "A"]
    ensures Walk(map[], BThenA(kind), false, lower) == map[key := "B"]
  {
    var x, y := Field("x", Entity(kind, "A")), Field("y", Entity(kind, "B"));
    OneLetter('A');
    OneLetter('B');
    NamesInOrder(x, y, kind, "A", "B", key, lower);
    NamesInOrder(y, x, kind, "B", "A", key, lower);
  }
}
