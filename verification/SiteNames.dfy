/**
  The names a block can give to its organisation and to its web site, over every order in
  which the objects in it may be iterated: the walk's value for such a key is always one of
  them, every one of them is reached by some order, and so the value is settled exactly when
  there is at most one.
*/
module SiteNames {
  import opened Options
  import opened SetFacts
  import opened Text
  import opened JsonValues
  import opened JsonLd
  import opened JsonLdOrder

  // ----- first come, first recorded -----

  // What is already recorded stays, and what the walk records does not depend on it.
  lemma RecordOver(a: Candidates, d: Candidates, key: string, value: string)
    ensures Record(a + d, key, value) == Record(a, key, value) + d
  {
  }

  lemma ValuesOver(a: Candidates, d: Candidates, headline: string, description: string, name: string, url: string,
                   image: string, publisher: string, author: string)
    ensures RecordValues(a + d, headline, description, name, url, image, publisher, author)
         == RecordValues(a, headline, description, name, url, image, publisher, author) + d
  {
    RecordOver(a, d, "jsonld:headline", headline);
    var a1 := Record(a, "jsonld:headline", headline);
    RecordOver(a1, d, "jsonld:description", description);
    var a2 := Record(a1, "jsonld:description", description);
    RecordOver(a2, d, "jsonld:name", name);
    var a3 := Record(a2, "jsonld:name", name);
    RecordOver(a3, d, "jsonld:url", url);
    var a4 := Record(a3, "jsonld:url", url);
    RecordOver(a4, d, "jsonld:image", image);
    var a5 := Record(a4, "jsonld:image", image);
    RecordOver(a5, d, "jsonld:publisher.name", publisher);
    RecordOver(Record(a5, "jsonld:publisher.name", publisher), d, "jsonld:author.name", author);
  }

  lemma PageOver(a: Candidates, d: Candidates, fields: seq<Field>)
    ensures RecordPage(a + d, fields) == RecordPage(a, fields) + d
  {
    ValuesOver(a, d, StringOf(fields, "headline"), StringOf(fields, "description"), StringOf(fields, "name"),
               StringOf(fields, "url"), ImageOf(fields), NestedName(fields, "publisher"), NestedName(fields, "author"));
  }

  lemma {:induction false} WalkOver(a: Candidates, d: Candidates, node: Json, reference: bool, lower: Lower)
    ensures Walk(a + d, node, reference, lower) == Walk(a, node, reference, lower) + d
    decreases node, 2
  {
    match node
    case Object(fields) => ObjectOver(a, d, node, reference, lower);
    case List(items) => ItemsOver(a, d, items, reference, lower);
    case _ =>
  }

  lemma {:induction false} ItemsOver(a: Candidates, d: Candidates, items: seq<Json>, reference: bool, lower: Lower)
    ensures WalkItems(a + d, items, reference, lower) == WalkItems(a, items, reference, lower) + d
    decreases items, 0
  {
    if items == [] {
    } else {
      var n := |items| - 1;
      ItemsOver(a, d, items[..n], reference, lower);
      WalkOver(WalkItems(a, items[..n], reference, lower), d, items[n], reference, lower);
    }
  }

  lemma {:induction false} GraphOver(a: Candidates, d: Candidates, node: Json, reference: bool, lower: Lower)
    requires node.Object?
    ensures WalkGraph(a + d, node, reference, lower) == WalkGraph(a, node, reference, lower) + d
    decreases node, 0
  {
    match Get(node.fields, "@graph")
    case None =>
    case Some(g) => WalkOver(a, d, g, reference, lower);
  }

  lemma {:induction false} RestOver(a: Candidates, d: Candidates, fields: seq<Field>, lower: Lower)
    ensures WalkRest(a + d, fields, lower) == WalkRest(a, fields, lower) + d
    decreases fields, 0
  {
    if fields == [] {
    } else {
      var n := |fields| - 1;
      RestOver(a, d, fields[..n], lower);
      if Walked(fields[n]) {
        WalkOver(WalkRest(a, fields[..n], lower), d, fields[n].value, true, lower);
      }
    }
  }

  lemma {:induction false} ObjectOver(a: Candidates, d: Candidates, node: Json, reference: bool, lower: Lower)
    requires node.Object?
    ensures WalkObject(a + d, node, reference, lower) == WalkObject(a, node, reference, lower) + d
    decreases node, 1
  {
    var fields := node.fields;
    var kind := TypeOf(fields, lower);
    if kind == "organization" || kind == "website" {
      RecordOver(a, d, if kind == "organization" then ORGANIZATION_NAME else WEBSITE_NAME, StringOf(fields, "name"));
    } else {
      PageOver(a, d, fields);
      var page := if reference then a else RecordPage(a, fields);
      GraphOver(page, d, node, reference, lower);
      RestOver(WalkGraph(page, node, reference, lower), d, fields, lower);
    }
  }

  // ----- what an object says about its page never names the site -----

  // Away from `key`, recording changes nothing.
  ghost predicate Untouched(d: Candidates, e: Candidates, key: string) {
    (key in e <==> key in d) && (key in d ==> e[key] == d[key])
  }

  lemma ValuesNameNoSite(d: Candidates, headline: string, description: string, name: string, url: string, image: string,
                         publisher: string, author: string, key: string)
    requires key !in ["jsonld:headline", "jsonld:description", "jsonld:name", "jsonld:url", "jsonld:image",
                      "jsonld:publisher.name", "jsonld:author.name"]
    ensures Untouched(d, RecordValues(d, headline, description, name, url, image, publisher, author), key)
  {
    var d1 := Record(d, "jsonld:headline", headline);
    assert Untouched(d, d1, key);
    var d2 := Record(d1, "jsonld:description", description);
    assert Untouched(d, d2, key);
    var d3 := Record(d2, "jsonld:name", name);
    assert Untouched(d, d3, key);
    var d4 := Record(d3, "jsonld:url", url);
    assert Untouched(d, d4, key);
    var d5 := Record(d4, "jsonld:image", image);
    assert Untouched(d, d5, key);
    var d6 := Record(d5, "jsonld:publisher.name", publisher);
    assert Untouched(d, d6, key);
  }

  lemma PageNamesNoSite(d: Candidates, fields: seq<Field>, key: string)
    requires key in SITE_KEYS
    ensures Untouched(d, RecordPage(d, fields), key)
  {
    assert |ORGANIZATION_NAME| == 24 && |WEBSITE_NAME| == 19;
    assert "jsonld:publisher.name"[7] == 'p' && ORGANIZATION_NAME[7] == 'o' && WEBSITE_NAME[7] == 'w';
    assert "jsonld:author.name"[7] == 'a' && "jsonld:description"[7] == 'd' && |"jsonld:description"| == 18;
    ValuesNameNoSite(d, StringOf(fields, "headline"), StringOf(fields, "description"), StringOf(fields, "name"),
                     StringOf(fields, "url"), ImageOf(fields), NestedName(fields, "publisher"),
                     NestedName(fields, "author"), key);
  }

  // A property that the walk of the remaining properties enters.
  predicate Walked(field: Field) {
    !Skipped(field.key) && field.value.Object?
  }

  // ----- the names a value can give -----

  // Under `key`, the names that some order of the objects in the value records first.
  function Namings(node: Json, key: string, lower: Lower): set<string>
    decreases node, 2
  {
    match node
    case Object(fields) => ObjectNamings(node, key, lower)
    case List(items) => ItemNamings(items, key, lower)
    case _ => {}
  }

  // The first item that gives a name decides.
  function ItemNamings(items: seq<Json>, key: string, lower: Lower): set<string>
    decreases items, 0
  {
    if items == [] then {}
    else
      var n := |items| - 1;
      FirstOf(ItemNamings(items[..n], key, lower), Namings(items[n], key, lower))
  }

  // An organisation or a web site gives its own name; in any other object the graph comes
  // first, and the remaining properties come in any order.
  function ObjectNamings(node: Json, key: string, lower: Lower): set<string>
    requires node.Object?
    decreases node, 1
  {
    var fields := node.fields;
    var kind := TypeOf(fields, lower);
    if kind == "organization" then OwnName(fields, key, ORGANIZATION_NAME)
    else if kind == "website" then OwnName(fields, key, WEBSITE_NAME)
    else FirstOf(GraphNamings(node, key, lower), RestNamings(fields, key, lower))
  }

  function GraphNamings(node: Json, key: string, lower: Lower): set<string>
    requires node.Object?
    decreases node, 0
  {
    match Get(node.fields, "@graph")
    case None => {}
    case Some(g) => Namings(g, key, lower)
  }

  function RestNamings(fields: seq<Field>, key: string, lower: Lower): set<string>
    decreases fields, 0
  {
    if fields == [] then {}
    else
      var n := |fields| - 1;
      RestNamings(fields[..n], key, lower) + if Walked(fields[n]) then Namings(fields[n].value, key, lower) else {}
  }

  function OwnName(fields: seq<Field>, key: string, owner: string): set<string> {
    var name := Trim(StringOf(fields, "name"));
    if key == owner && name != "" then {name} else {}
  }

  function FirstOf(names: set<string>, others: set<string>): set<string> {
    if names != {} then names else others
  }

  // ----- the walk gives one of them -----

  // The map has a value for the key exactly when there are names, and then it is one of them.
  ghost predicate Gives(d: Candidates, key: string, names: set<string>) {
    (key in d <==> names != {}) && (key in d ==> d[key] in names)
  }

  lemma {:induction false} WalkGives(node: Json, reference: bool, key: string, lower: Lower)
    requires key in SITE_KEYS
    ensures Gives(Walk(map[], node, reference, lower), key, Namings(node, key, lower))
    decreases node, 2
  {
    match node
    case Object(fields) => ObjectGives(node, reference, key, lower);
    case List(items) => ItemsGive(items, reference, key, lower);
    case _ =>
  }

  lemma {:induction false} ItemsGive(items: seq<Json>, reference: bool, key: string, lower: Lower)
    requires key in SITE_KEYS
    ensures Gives(WalkItems(map[], items, reference, lower), key, ItemNamings(items, key, lower))
    decreases items, 0
  {
    if items == [] {
    } else {
      var n := |items| - 1;
      ItemsGive(items[..n], reference, key, lower);
      WalkGives(items[n], reference, key, lower);
      WalkFrom(WalkItems(map[], items[..n], reference, lower), items[n], reference, lower);
    }
  }

  // The walk from any map, by the walk from the empty one.
  lemma WalkFrom(d: Candidates, node: Json, reference: bool, lower: Lower)
    ensures Walk(d, node, reference, lower) == Walk(map[], node, reference, lower) + d
  {
    WalkOver(map[], d, node, reference, lower);
    assert map[] + d == d;
  }

  lemma RestFrom(d: Candidates, fields: seq<Field>, lower: Lower)
    ensures WalkRest(d, fields, lower) == WalkRest(map[], fields, lower) + d
  {
    RestOver(map[], d, fields, lower);
    assert map[] + d == d;
  }

  lemma GraphFrom(d: Candidates, node: Json, reference: bool, lower: Lower)
    requires node.Object?
    ensures WalkGraph(d, node, reference, lower) == WalkGraph(map[], node, reference, lower) + d
  {
    GraphOver(map[], d, node, reference, lower);
    assert map[] + d == d;
  }

  lemma {:induction false} GraphGives(node: Json, reference: bool, key: string, lower: Lower)
    requires node.Object? && key in SITE_KEYS
    ensures Gives(WalkGraph(map[], node, reference, lower), key, GraphNamings(node, key, lower))
    decreases node, 0
  {
    match Get(node.fields, "@graph")
    case None =>
    case Some(g) => WalkGives(g, reference, key, lower);
  }

  lemma {:induction false} RestGives(fields: seq<Field>, key: string, lower: Lower)
    requires key in SITE_KEYS
    ensures Gives(WalkRest(map[], fields, lower), key, RestNamings(fields, key, lower))
    decreases fields, 0
  {
    if fields == [] {
    } else {
      var n := |fields| - 1;
      RestGives(fields[..n], key, lower);
      if Walked(fields[n]) {
        WalkGives(fields[n].value, true, key, lower);
        WalkFrom(WalkRest(map[], fields[..n], lower), fields[n].value, true, lower);
      }
    }
  }

  // Away from an organisation and a web site, an object's walk is its graph's and then that
  // of its remaining properties, as far as the two site names go.
  lemma ObjectBySteps(node: Json, reference: bool, key: string, lower: Lower)
    requires node.Object? && key in SITE_KEYS && TypeOf(node.fields, lower) !in {"organization", "website"}
    ensures var d := WalkObject(map[], node, reference, lower);
            var steps := WalkRest(map[], node.fields, lower) + WalkGraph(map[], node, reference, lower);
            (key in d <==> key in steps) && (key in d ==> d[key] == steps[key])
  {
    var fields := node.fields;
    var page := if reference then map[] else RecordPage(map[], fields);
    PageNamesNoSite(map[], fields, key);
    GraphFrom(page, node, reference, lower);
    RestFrom(WalkGraph(page, node, reference, lower), fields, lower);
  }

  lemma {:induction false} ObjectGives(node: Json, reference: bool, key: string, lower: Lower)
    requires node.Object? && key in SITE_KEYS
    ensures Gives(WalkObject(map[], node, reference, lower), key, ObjectNamings(node, key, lower))
    decreases node, 1
  {
    var kind := TypeOf(node.fields, lower);
    if kind == "organization" || kind == "website" {
    } else {
      ObjectBySteps(node, reference, key, lower);
      GraphGives(node, reference, key, lower);
      RestGives(node.fields, key, lower);
    }
  }

  // ----- the names do not depend on the order -----

  ghost predicate NamedUnder(fields: seq<Field>, k: string, key: string, lower: Lower, name: string) {
    && k in Keys(fields) && Walked(Field(k, Get(fields, k).value))
    && name in Namings(Get(fields, k).value, key, lower)
  }

  ghost predicate NamedAt(fields: seq<Field>, i: int, key: string, lower: Lower, name: string) {
    0 <= i < |fields| && Walked(fields[i]) && name in Namings(fields[i].value, key, lower)
  }

  lemma {:induction false} RestNamingsAt(fields: seq<Field>, key: string, lower: Lower, name: string)
    ensures name in RestNamings(fields, key, lower) <==> exists i :: NamedAt(fields, i, key, lower, name)
    decreases |fields|
  {
    if fields == [] {
    } else {
      var n := |fields| - 1;
      RestNamingsAt(fields[..n], key, lower, name);
      if i :| NamedAt(fields[..n], i, key, lower, name) {
        assert NamedAt(fields, i, key, lower, name);
      }
      if i :| NamedAt(fields, i, key, lower, name) {
        assert i < n ==> NamedAt(fields[..n], i, key, lower, name);
      }
      if Walked(fields[n]) && name in Namings(fields[n].value, key, lower) {
        assert NamedAt(fields, n, key, lower, name);
      }
    }
  }

  lemma NamedByKey(fields: seq<Field>, key: string, lower: Lower, name: string)
    requires DistinctKeys(fields)
    ensures name in RestNamings(fields, key, lower) <==> exists k :: NamedUnder(fields, k, key, lower, name)
  {
    RestNamingsAt(fields, key, lower, name);
    if i :| NamedAt(fields, i, key, lower, name) {
      assert fields[i] in fields;
      GetAt(fields, i);
      assert NamedUnder(fields, fields[i].key, key, lower, name);
    }
    if k :| NamedUnder(fields, k, key, lower, name) {
      var i :| 0 <= i < |fields| && fields[i] == Field(k, Get(fields, k).value);
      assert NamedAt(fields, i, key, lower, name);
    }
  }

  lemma {:induction false} SameNamings(v: Json, w: Json, key: string, lower: Lower)
    requires SameValue(v, w) && Decoded(v) && Decoded(w)
    ensures Namings(v, key, lower) == Namings(w, key, lower)
    decreases v, 2
  {
    match v
    case Object(fields) => SameObjectNamings(v, w, key, lower);
    case List(items) => SameItemNamings(items, w.items, key, lower);
    case _ =>
  }

  lemma {:induction false} SameObjectNamings(v: Json, w: Json, key: string, lower: Lower)
    requires v.Object? && w.Object? && SameValue(v, w) && Decoded(v) && Decoded(w)
    ensures ObjectNamings(v, key, lower) == ObjectNamings(w, key, lower)
    decreases v, 1
  {
    SameType(v, w, lower);
    var kind := TypeOf(v.fields, lower);
    if kind == "organization" || kind == "website" {
      SameString(v, w, "name");
    } else {
      SameGraphNamings(v, w, key, lower);
      SameRestNamings(v, w, key, lower);
    }
  }

  lemma {:induction false} SameItemNamings(a: seq<Json>, b: seq<Json>, key: string, lower: Lower)
    requires SameItems(a, b)
    ensures ItemNamings(a, key, lower) == ItemNamings(b, key, lower)
    decreases a, 0
  {
    if a == [] {
    } else {
      var n := |a| - 1;
      SameItemNamings(a[..n], b[..n], key, lower);
      SameNamings(a[n], b[n], key, lower);
    }
  }

  lemma {:induction false} SameGraphNamings(v: Json, w: Json, key: string, lower: Lower)
    requires v.Object? && w.Object? && SameValue(v, w) && Decoded(v) && Decoded(w)
    ensures GraphNamings(v, key, lower) == GraphNamings(w, key, lower)
    decreases v, 0
  {
    Lookup(v, w, "@graph");
    match Get(v.fields, "@graph")
    case None =>
    case Some(g) => SameNamings(g, Get(w.fields, "@graph").value, key, lower);
  }

  lemma {:induction false} SameRestNamings(v: Json, w: Json, key: string, lower: Lower)
    requires v.Object? && w.Object? && SameValue(v, w) && Decoded(v) && Decoded(w)
    ensures RestNamings(v.fields, key, lower) == RestNamings(w.fields, key, lower)
    decreases v, 0
  {
    var a, b := v.fields, w.fields;
    forall k | k in Keys(a)
      ensures Namings(Get(a, k).value, key, lower) == Namings(Get(b, k).value, key, lower)
      ensures Get(a, k).value.Object? <==> Get(b, k).value.Object?
    {
      Lookup(v, w, k);
      SameNamings(Get(a, k).value, Get(b, k).value, key, lower);
    }
    forall name ensures name in RestNamings(a, key, lower) <==> name in RestNamings(b, key, lower) {
      NamedByKey(a, key, lower, name);
      NamedByKey(b, key, lower, name);
      assert forall k :: NamedUnder(a, k, key, lower, name) <==> NamedUnder(b, k, key, lower, name);
    }
  }

  // ----- and every one of them is given by some order -----

  ghost predicate Says(d: Candidates, key: string, name: string) {
    key in d && d[key] == name
  }

  lemma {:induction false} Attain(v: Json, reference: bool, key: string, lower: Lower, name: string) returns (w: Json)
    requires key in SITE_KEYS && Decoded(v) && name in Namings(v, key, lower)
    ensures ListingOf(v, w) && Says(Walk(map[], w, reference, lower), key, name)
    decreases v, 2
  {
    match v
    case Object(fields) => w := AttainInObject(v, reference, key, lower, name);
    case List(items) =>
      var u := AttainInItems(items, reference, key, lower, name);
      w := List(u);
  }

  lemma {:induction false} AttainInItems(items: seq<Json>, reference: bool, key: string, lower: Lower, name: string)
    returns (u: seq<Json>)
    requires key in SITE_KEYS && (forall i :: 0 <= i < |items| ==> Decoded(items[i]))
        && name in ItemNamings(items, key, lower)
    ensures SameItems(items, u) && Says(WalkItems(map[], u, reference, lower), key, name)
    decreases items, 0
  {
    var n := |items| - 1;
    var before, last := items[..n], items[n];
    assert items == before + [last];
    if ItemNamings(before, key, lower) != {} {
      var front := AttainInItems(before, reference, key, lower, name);
      u := front + [last];
      SameToItself(last);
      OneItemMore(front, last, reference, key, lower);
    } else {
      var w := Attain(last, reference, key, lower, name);
      u := before + [w];
      ItemsToThemselves(before);
      ItemsGive(before, reference, key, lower);
      OneItemMore(before, w, reference, key, lower);
    }
  }

  // The item says what it says if the items before it say nothing.
  lemma OneItemMore(before: seq<Json>, last: Json, reference: bool, key: string, lower: Lower)
    ensures var d, e := WalkItems(map[], before, reference, lower), Walk(map[], last, reference, lower);
            WalkItems(map[], before + [last], reference, lower) == e + d
  {
    assert (before + [last])[..|before|] == before;
    WalkFrom(WalkItems(map[], before, reference, lower), last, reference, lower);
  }

  lemma ItemsToThemselves(items: seq<Json>)
    requires forall i :: 0 <= i < |items| ==> Decoded(items[i])
    ensures SameItems(items, items)
  {
    forall i | 0 <= i < |items| ensures SameValue(items[i], items[i]) {
      SameToItself(items[i]);
    }
  }

  lemma {:induction false} AttainInObject(
      v: Json, reference: bool, key: string, lower: Lower, name: string) returns (w: Json)
    requires v.Object? && key in SITE_KEYS && Decoded(v) && name in ObjectNamings(v, key, lower)
    ensures ListingOf(v, w) && Says(WalkObject(map[], w, reference, lower), key, name)
    decreases v, 1
  {
    var kind := TypeOf(v.fields, lower);
    if kind == "organization" || kind == "website" {
      w := v;
      SameToItself(v);
      ObjectGives(v, reference, key, lower);
    } else if GraphNamings(v, key, lower) != {} {
      w := AttainInGraph(v, reference, key, lower, name);
    } else {
      w := AttainInRest(v, reference, key, lower, name);
    }
  }

  // The graph is listed so that it gives the name.
  lemma {:induction false} AttainInGraph(
      v: Json, reference: bool, key: string, lower: Lower, name: string) returns (w: Json)
    requires v.Object? && key in SITE_KEYS && Decoded(v) && TypeOf(v.fields, lower) !in {"organization", "website"}
    requires name in GraphNamings(v, key, lower)
    ensures ListingOf(v, w) && Says(WalkObject(map[], w, reference, lower), key, name)
    decreases v, 0
  {
    var g := Get(v.fields, "@graph").value;
    var i :| 0 <= i < |v.fields| && v.fields[i] == Field("@graph", g);
    var u := Attain(g, reference, key, lower, name);
    w := Object(Front(v.fields, i, u));
    FrontKeys(v.fields, i, u);
    FrontIsListing(v, i, u);
    SameType(v, w, lower);
    ObjectBySteps(w, reference, key, lower);
  }

  // The property that gives the name comes first, listed so that it does.
  lemma {:induction false} AttainInRest(
      v: Json, reference: bool, key: string, lower: Lower, name: string) returns (w: Json)
    requires v.Object? && key in SITE_KEYS && Decoded(v) && TypeOf(v.fields, lower) !in {"organization", "website"}
    requires GraphNamings(v, key, lower) == {} && name in RestNamings(v.fields, key, lower)
    ensures ListingOf(v, w) && Says(WalkObject(map[], w, reference, lower), key, name)
    decreases v, 0
  {
    RestNamingsAt(v.fields, key, lower, name);
    var i :| NamedAt(v.fields, i, key, lower, name);
    var u := Attain(v.fields[i].value, true, key, lower, name);
    w := Object(Front(v.fields, i, u));
    FrontIsListing(v, i, u);
    SameType(v, w, lower);
    SameGraphNamings(v, w, key, lower);
    GraphGives(w, reference, key, lower);
    FirstFieldSays(Field(v.fields[i].key, u), v.fields[..i] + v.fields[i + 1..], key, lower, name);
    ObjectBySteps(w, reference, key, lower);
  }

  lemma FirstFieldSays(f: Field, others: seq<Field>, key: string, lower: Lower, name: string)
    requires Walked(f) && Says(Walk(map[], f.value, true, lower), key, name)
    ensures Says(WalkRest(map[], [f] + others, lower), key, name)
  {
    RestSplits([f], others, lower);
    assert [f][..0] == [];
    RestFrom(WalkRest(map[], [f], lower), others, lower);
  }

  lemma {:induction false} RestSplits(a: seq<Field>, b: seq<Field>, lower: Lower)
    ensures WalkRest(map[], a + b, lower) == WalkRest(WalkRest(map[], a, lower), b, lower)
    decreases |b|
  {
    if b == [] {
      assert a + b == a;
    } else {
      var n := |b| - 1;
      RestSplits(a, b[..n], lower);
      assert (a + b)[..|a| + n] == a + b[..n];
    }
  }

  // ----- exactly when a site name is settled -----

  // Whatever was recorded before, the names of `Namings` are exactly those that some order of
  // the objects in the value leaves under a key that was free.
  lemma PossibleNames(d: Candidates, v: Json, reference: bool, key: string, lower: Lower, name: string)
    requires key in SITE_KEYS && key !in d && Decoded(v)
    ensures name in Namings(v, key, lower)
        <==> exists w :: ListingOf(v, w) && Says(Walk(d, w, reference, lower), key, name)
  {
    if name in Namings(v, key, lower) {
      var w := Attain(v, reference, key, lower, name);
      WalkFrom(d, w, reference, lower);
      assert Says(Walk(d, w, reference, lower), key, name);
    }
    if w :| ListingOf(v, w) && Says(Walk(d, w, reference, lower), key, name) {
      ListingGives(d, v, w, reference, key, lower);
    }
  }

  lemma ListingGives(d: Candidates, v: Json, w: Json, reference: bool, key: string, lower: Lower)
    requires key in SITE_KEYS && key !in d && Decoded(v) && ListingOf(v, w)
    ensures Gives(Walk(d, w, reference, lower), key, Namings(v, key, lower))
  {
    WalkFrom(d, w, reference, lower);
    WalkGives(w, reference, key, lower);
    SameNamings(v, w, key, lower);
  }

  function Under(d: Candidates, key: string): Option<string> {
    if key in d then Some(d[key]) else None
  }

  // All orders leave the same under the key.
  ghost predicate Settled(d: Candidates, v: Json, reference: bool, key: string, lower: Lower) {
    forall w, u :: ListingOf(v, w) && ListingOf(v, u) ==>
      Under(Walk(d, w, reference, lower), key) == Under(Walk(d, u, reference, lower), key)
  }

  lemma SettledByOneName(d: Candidates, v: Json, reference: bool, key: string, lower: Lower)
    requires key in SITE_KEYS && key !in d && Decoded(v)
    ensures Settled(d, v, reference, key, lower) <==> |Namings(v, key, lower)| <= 1
  {
    var names := Namings(v, key, lower);
    AtMostOne(names);
    if |names| <= 1 {
      forall w, u | ListingOf(v, w) && ListingOf(v, u)
        ensures Under(Walk(d, w, reference, lower), key) == Under(Walk(d, u, reference, lower), key)
      {
        ListingGives(d, v, w, reference, key, lower);
        ListingGives(d, v, u, reference, key, lower);
      }
    } else {
      var x, y :| x in names && y in names && x != y;
      PossibleNames(d, v, reference, key, lower, x);
      PossibleNames(d, v, reference, key, lower, y);
      var w :| ListingOf(v, w) && Says(Walk(d, w, reference, lower), key, x);
      var u :| ListingOf(v, u) && Says(Walk(d, u, reference, lower), key, y);
      assert Under(Walk(d, w, reference, lower), key) != Under(Walk(d, u, reference, lower), key);
    }
  }
}
