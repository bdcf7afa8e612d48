/** What one JSON-LD object says of the page, property by property and in its own words. */
module JsonLdSources {
  import opened Options
  import opened Text
  import opened JsonValues
  import opened JsonLd
  import opened SiteNames
  import opened JsonLdAgreement

  // `key` has `value` afterwards if it is free and there is anything to say; all else stays.
  ghost predicate Fills(d: Candidates, key: string, value: string, e: Candidates) {
    e == if key in d || AllSpace(value) then d else d[key := Trim(value)]
  }

  lemma RecordFills(d: Candidates, key: string, value: string)
    requires key != ""
    ensures Fills(d, key, value, Record(d, key, value))
  {
    BlankMeansAllSpace(value);
  }

  // ----- the properties of an object -----

  // The property is the text, or the typed form of it.
  ghost predicate TextIs(fields: seq<Field>, name: string, text: string) {
    || Get(fields, name) == Some(Str(text))
    || exists typed :: Get(fields, name) == Some(Object(typed)) && Get(typed, "@value") == Some(Str(text))
  }

  lemma TextIsRead(fields: seq<Field>, name: string, text: string)
    requires TextIs(fields, name, text)
    ensures StringOf(fields, name) == text
  {
  }

  // The property is the name of something, or is the thing and it has the name, or a list of
  // such of which this is the first.
  ghost predicate NameIs(fields: seq<Field>, property: string, name: string) {
    || Get(fields, property) == Some(Str(name))
    || (exists thing :: Get(fields, property) == Some(Object(thing)) && TextIs(thing, "name", name))
    || (exists things, k :: Get(fields, property) == Some(List(things)) && FirstNamed(things, k, name))
  }

  ghost predicate FirstNamed(things: seq<Json>, k: int, name: string) {
    && 0 <= k < |things| && things[k].Object? && TextIs(things[k].fields, "name", name) && name != ""
    && forall j :: 0 <= j < k ==> !HasName(things[j])
  }

  ghost predicate HasName(thing: Json) {
    thing.Object? && exists name :: name != "" && TextIs(thing.fields, "name", name)
  }

  lemma UnnamedReadsEmpty(thing: Json)
    requires thing.Object? && !HasName(thing)
    ensures StringOf(thing.fields, "name") == ""
  {
    var text := StringOf(thing.fields, "name");
    assert text != "" ==> TextIs(thing.fields, "name", text);
  }

  lemma {:induction false} FirstNamedIsRead(things: seq<Json>, k: int, name: string)
    requires FirstNamed(things, k, name)
    ensures FirstName(things) == name
    decreases |things|
  {
    if k == 0 {
      TextIsRead(things[0].fields, "name", name);
    } else {
      assert !HasName(things[0]);
      if things[0].Object? {
        UnnamedReadsEmpty(things[0]);
      }
      assert forall j :: 0 <= j < k - 1 ==> things[1..][j] == things[j + 1];
      FirstNamedIsRead(things[1..], k - 1, name);
    }
  }

  lemma NameIsRead(fields: seq<Field>, property: string, name: string)
    requires NameIs(fields, property, name)
    ensures NestedName(fields, property) == name
  {
    if thing :| Get(fields, property) == Some(Object(thing)) && TextIs(thing, "name", name) {
      TextIsRead(thing, "name", name);
    }
    if things, k :| Get(fields, property) == Some(List(things)) && FirstNamed(things, k, name) {
      FirstNamedIsRead(things, k, name);
    }
  }

  // An image: an address, or a thing that has one, by its url or failing that its contentUrl, or
  // a list of such of which this is the first that is not blank.
  ghost predicate AddressIs(thing: Json, url: string) {
    match thing
    case Str(s) => s == url
    case Object(fields) =>
      || TextIs(fields, "url", url)
      || (TextIs(fields, "contentUrl", url) && forall s :: TextIs(fields, "url", s) ==> Blank(s))
    case _ => false
  }

  ghost predicate FirstAddress(things: seq<Json>, k: int, url: string) {
    && 0 <= k < |things| && AddressIs(things[k], url)
    && forall j :: 0 <= j < k ==> !HasAddress(things[j])
  }

  ghost predicate HasAddress(thing: Json) {
    exists url :: !Blank(url) && AddressIs(thing, url)
  }

  ghost predicate ImageIs(fields: seq<Field>, url: string) {
    || (Get(fields, "image").Some? && AddressIs(Get(fields, "image").value, url))
    || (exists things, k :: Get(fields, "image") == Some(List(things)) && FirstAddress(things, k, url))
  }

  lemma AddressIsRead(fields: seq<Field>, url: string)
    requires AddressIs(Object(fields), url) && !Blank(url)
    ensures ObjectImage(fields) == url
  {
    var own := StringOf(fields, "url");
    if TextIs(fields, "url", url) {
      TextIsRead(fields, "url", url);
    } else {
      TextIsRead(fields, "contentUrl", url);
      if own != "" {
        assert TextIs(fields, "url", own);
      }
    }
  }

  lemma ReadIsAddress(fields: seq<Field>)
    requires ObjectImage(fields) != ""
    ensures AddressIs(Object(fields), ObjectImage(fields)) && !Blank(ObjectImage(fields))
  {
    var url, content := StringOf(fields, "url"), StringOf(fields, "contentUrl");
    if !Blank(url) {
      assert TextIs(fields, "url", url);
    } else {
      assert TextIs(fields, "contentUrl", content);
      forall s | TextIs(fields, "url", s) ensures Blank(s) {
        TextIsRead(fields, "url", s);
      }
    }
  }

  lemma NoAddressIsRead(thing: Json)
    requires !HasAddress(thing)
    ensures thing.Str? ==> Blank(thing.s)
    ensures thing.Object? ==> ObjectImage(thing.fields) == ""
  {
    assert thing.Str? ==> AddressIs(thing, thing.s);
    if thing.Object? && ObjectImage(thing.fields) != "" {
      ReadIsAddress(thing.fields);
      assert false;
    }
  }

  lemma {:induction false} FirstAddressIsRead(things: seq<Json>, k: int, url: string)
    requires FirstAddress(things, k, url) && !Blank(url)
    ensures FirstImage(things) == url
    decreases |things|
  {
    if k == 0 {
      if things[0].Object? {
        AddressIsRead(things[0].fields, url);
      }
    } else {
      assert !HasAddress(things[0]);
      NoAddressIsRead(things[0]);
      assert forall j :: 0 <= j < k - 1 ==> things[1..][j] == things[j + 1];
      FirstAddressIsRead(things[1..], k - 1, url);
    }
  }

  lemma ImageIsRead(fields: seq<Field>, url: string)
    requires ImageIs(fields, url) && !Blank(url)
    ensures ImageOf(fields) == url
  {
    if things, k :| Get(fields, "image") == Some(List(things)) && FirstAddress(things, k, url) {
      FirstAddressIsRead(things, k, url);
    } else {
      match Get(fields, "image").value
      case Object(inner) => AddressIsRead(inner, url);
      case _ =>
    }
  }

  // ----- and what is read where there is none -----

  lemma ReadIsText(fields: seq<Field>, name: string)
    requires StringOf(fields, name) != ""
    ensures TextIs(fields, name, StringOf(fields, name))
  {
  }

  lemma {:induction false} ReadIsFirstNamed(things: seq<Json>) returns (k: int)
    requires FirstName(things) != ""
    ensures FirstNamed(things, k, FirstName(things))
    decreases |things|
  {
    if things[0].Object? && StringOf(things[0].fields, "name") != "" {
      ReadIsText(things[0].fields, "name");
      k := 0;
    } else {
      k := ReadIsFirstNamed(things[1..]);
      k := k + 1;
      forall j | 0 <= j < k ensures !HasName(things[j]) {
        if j == 0 {
          ReadsNoName(things[0]);
        } else {
          assert things[1..][j - 1] == things[j];
        }
      }
    }
  }

  lemma ReadsNoName(thing: Json)
    requires thing.Object? ==> StringOf(thing.fields, "name") == ""
    ensures !HasName(thing)
  {
    if thing.Object? {
      forall name | TextIs(thing.fields, "name", name) ensures name == "" {
        TextIsRead(thing.fields, "name", name);
      }
    }
  }

  lemma ReadIsName(fields: seq<Field>, property: string)
    requires NestedName(fields, property) != ""
    ensures NameIs(fields, property, NestedName(fields, property))
  {
    match Get(fields, property).value
    case Object(thing) => ReadIsText(thing, "name");
    case List(things) => var k := ReadIsFirstNamed(things);
    case _ =>
  }

  lemma {:induction false} ReadIsFirstAddress(things: seq<Json>) returns (k: int)
    requires FirstImage(things) != ""
    ensures FirstAddress(things, k, FirstImage(things)) && !Blank(FirstImage(things))
    decreases |things|
  {
    if things[0].Str? && !Blank(things[0].s) {
      k := 0;
    } else if things[0].Object? && ObjectImage(things[0].fields) != "" {
      ReadIsAddress(things[0].fields);
      k := 0;
    } else {
      k := ReadIsFirstAddress(things[1..]);
      k := k + 1;
      forall j | 0 <= j < k ensures !HasAddress(things[j]) {
        if j == 0 {
          ReadsNoAddress(things[0]);
        } else {
          assert things[1..][j - 1] == things[j];
        }
      }
    }
  }

  lemma ReadsNoAddress(thing: Json)
    requires thing.Str? ==> Blank(thing.s)
    requires thing.Object? ==> ObjectImage(thing.fields) == ""
    ensures !HasAddress(thing)
  {
    forall url | AddressIs(thing, url) ensures Blank(url) {
      if thing.Object? && !Blank(url) {
        AddressIsRead(thing.fields, url);
      }
    }
  }

  lemma ReadIsImage(fields: seq<Field>)
    requires !Blank(ImageOf(fields))
    ensures ImageIs(fields, ImageOf(fields))
  {
    match Get(fields, "image").value
    case Object(thing) => ReadIsAddress(thing);
    case List(things) => var k := ReadIsFirstAddress(things);
    case _ =>
  }

  // ----- what an object says of the page -----

  // The property says the text, or there is none and the text is empty.
  ghost predicate TextOrNone(fields: seq<Field>, name: string, text: string) {
    TextIs(fields, name, text) || (text == "" && forall t :: !TextIs(fields, name, t))
  }

  ghost predicate NameOrNone(fields: seq<Field>, property: string, name: string) {
    NameIs(fields, property, name) || (name == "" && forall n :: !NameIs(fields, property, n))
  }

  ghost predicate ImageOrNone(fields: seq<Field>, url: string) {
    (ImageIs(fields, url) && !AllSpace(url)) || (url == "" && forall u :: ImageIs(fields, u) ==> AllSpace(u))
  }

  lemma TextOrNoneIsRead(fields: seq<Field>, name: string, text: string)
    requires TextOrNone(fields, name, text)
    ensures StringOf(fields, name) == text
  {
    if TextIs(fields, name, text) {
      TextIsRead(fields, name, text);
    } else if StringOf(fields, name) != "" {
      ReadIsText(fields, name);
    }
  }

  lemma NameOrNoneIsRead(fields: seq<Field>, property: string, name: string)
    requires NameOrNone(fields, property, name)
    ensures NestedName(fields, property) == name
  {
    if NameIs(fields, property, name) {
      NameIsRead(fields, property, name);
    } else if NestedName(fields, property) != "" {
      ReadIsName(fields, property);
    }
  }

  lemma ImageOrNoneIsRead(fields: seq<Field>, url: string)
    requires ImageOrNone(fields, url)
    ensures if url == "" then AllSpace(ImageOf(fields)) else ImageOf(fields) == url
  {
    BlankMeansAllSpace(ImageOf(fields));
    BlankMeansAllSpace(url);
    if url != "" {
      ImageIsRead(fields, url);
    } else if !AllSpace(ImageOf(fields)) {
      ReadIsImage(fields);
    }
  }

  // The candidate has what the text says, and is not there if it says nothing.
  ghost predicate Told(d: Candidates, key: string, text: string) {
    if AllSpace(text) then key !in d else key in d && d[key] == Trim(text)
  }

  ghost predicate TouchesOnly(d: Candidates, e: Candidates, key: string) {
    forall k :: k != key ==> Untouched(d, e, k)
  }

  lemma RecordTells(d: Candidates, key: string, text: string)
    requires key != "" && key !in d
    ensures Told(Record(d, key, text), key, text) && TouchesOnly(d, Record(d, key, text), key)
  {
    BlankMeansAllSpace(text);
  }

  lemma StaysTold(d: Candidates, e: Candidates, key: string, text: string, other: string)
    requires Told(d, key, text) && TouchesOnly(d, e, other) && key != other
    ensures Told(e, key, text)
  {
    assert Untouched(d, e, key);
  }

  ghost predicate FourTold(d: Candidates, headline: string, description: string, name: string, url: string) {
    && Told(d, "jsonld:headline", headline) && Told(d, "jsonld:description", description)
    && Told(d, "jsonld:name", name) && Told(d, "jsonld:url", url)
  }

  lemma KeysDiffer()
    ensures |"jsonld:headline"| == 15 && |"jsonld:name"| == 11 && |"jsonld:url"| == 10 && |"jsonld:image"| == 12
    ensures |"jsonld:publisher.name"| == 21 && "jsonld:description" != "jsonld:author.name"
    ensures |"jsonld:description"| == |"jsonld:author.name"| == 18
  {
    assert "jsonld:description"[7] == 'd' && "jsonld:author.name"[7] == 'a';
  }

  lemma FourAreTold(headline: string, description: string, name: string, url: string) returns (d: Candidates)
    ensures d == Record(Record(Record(Record(map[], "jsonld:headline", headline), "jsonld:description", description),
                               "jsonld:name", name), "jsonld:url", url)
    ensures FourTold(d, headline, description, name, url)
    ensures forall key :: key in d ==> |key| <= 11 || key == "jsonld:headline" || key == "jsonld:description"
  {
    KeysDiffer();
    var d1 := Record(map[], "jsonld:headline", headline);
    RecordTells(map[], "jsonld:headline", headline);
    var d2 := Record(d1, "jsonld:description", description);
    RecordTells(d1, "jsonld:description", description);
    StaysTold(d1, d2, "jsonld:headline", headline, "jsonld:description");
    var d3 := Record(d2, "jsonld:name", name);
    RecordTells(d2, "jsonld:name", name);
    StaysTold(d2, d3, "jsonld:headline", headline, "jsonld:name");
    StaysTold(d2, d3, "jsonld:description", description, "jsonld:name");
    d := Record(d3, "jsonld:url", url);
    RecordTells(d3, "jsonld:url", url);
    StaysTold(d3, d, "jsonld:headline", headline, "jsonld:url");
    StaysTold(d3, d, "jsonld:description", description, "jsonld:url");
    StaysTold(d3, d, "jsonld:name", name, "jsonld:url");
  }

  lemma FourStayTold(d: Candidates, e: Candidates, headline: string, description: string, name: string, url: string,
                     other: string)
    requires FourTold(d, headline, description, name, url) && TouchesOnly(d, e, other)
    requires other in ["jsonld:image", "jsonld:publisher.name", "jsonld:author.name"]
    ensures FourTold(e, headline, description, name, url)
  {
    KeysDiffer();
    StaysTold(d, e, "jsonld:headline", headline, other);
    StaysTold(d, e, "jsonld:description", description, other);
    StaysTold(d, e, "jsonld:name", name, other);
    StaysTold(d, e, "jsonld:url", url, other);
  }

  lemma ValuesAreTold(headline: string, description: string, name: string, url: string, image: string,
                      publisher: string, author: string)
    ensures var d := RecordValues(map[], headline, description, name, url, image, publisher, author);
            && FourTold(d, headline, description, name, url) && Told(d, "jsonld:image", image)
            && Told(d, "jsonld:publisher.name", publisher) && Told(d, "jsonld:author.name", author)
  {
    KeysDiffer();
    var d4 := FourAreTold(headline, description, name, url);
    var d5 := Record(d4, "jsonld:image", image);
    RecordTells(d4, "jsonld:image", image);
    FourStayTold(d4, d5, headline, description, name, url, "jsonld:image");
    assert Untouched(d4, d5, "jsonld:publisher.name") && Untouched(d4, d5, "jsonld:author.name");
    var d6 := Record(d5, "jsonld:publisher.name", publisher);
    RecordTells(d5, "jsonld:publisher.name", publisher);
    FourStayTold(d5, d6, headline, description, name, url, "jsonld:publisher.name");
    StaysTold(d5, d6, "jsonld:image", image, "jsonld:publisher.name");
    assert Untouched(d5, d6, "jsonld:author.name");
    var d7 := Record(d6, "jsonld:author.name", author);
    RecordTells(d6, "jsonld:author.name", author);
    FourStayTold(d6, d7, headline, description, name, url, "jsonld:author.name");
    StaysTold(d6, d7, "jsonld:image", image, "jsonld:author.name");
    StaysTold(d6, d7, "jsonld:publisher.name", publisher, "jsonld:author.name");
  }

  // All that an object says of the page, whatever else is in it.
  datatype Statement = Statement(headline: string, description: string, name: string, url: string, image: string,
                                 publisher: string, author: string)

  ghost predicate SaysOfPage(fields: seq<Field>, s: Statement) {
    && TextOrNone(fields, "headline", s.headline) && TextOrNone(fields, "description", s.description)
    && TextOrNone(fields, "name", s.name) && TextOrNone(fields, "url", s.url) && ImageOrNone(fields, s.image)
    && NameOrNone(fields, "publisher", s.publisher) && NameOrNone(fields, "author", s.author)
  }

  ghost predicate AllTold(d: Candidates, s: Statement) {
    && Told(d, "jsonld:headline", s.headline) && Told(d, "jsonld:description", s.description)
    && Told(d, "jsonld:name", s.name) && Told(d, "jsonld:url", s.url) && Told(d, "jsonld:image", s.image)
    && Told(d, "jsonld:publisher.name", s.publisher) && Told(d, "jsonld:author.name", s.author)
  }

  lemma PageIsTold(fields: seq<Field>, s: Statement)
    requires SaysOfPage(fields, s)
    ensures AllTold(RecordPage(map[], fields), s)
  {
    TextOrNoneIsRead(fields, "headline", s.headline);
    TextOrNoneIsRead(fields, "description", s.description);
    TextOrNoneIsRead(fields, "name", s.name);
    TextOrNoneIsRead(fields, "url", s.url);
    ImageOrNoneIsRead(fields, s.image);
    NameOrNoneIsRead(fields, "publisher", s.publisher);
    NameOrNoneIsRead(fields, "author", s.author);
    ValuesAreTold(s.headline, s.description, s.name, s.url, ImageOf(fields), s.publisher, s.author);
  }

  // The rest of the object, when it lists no graph, leaves what it said of the page alone.
  lemma StaysAllTold(d: Candidates, e: Candidates, s: Statement)
    requires AllTold(d, s) && OnlySites(d, e)
    ensures AllTold(e, s)
  {
    PageKeysNameNoSite();
    SaidApartFromSites(d, e, "jsonld:headline", s.headline);
    SaidApartFromSites(d, e, "jsonld:description", s.description);
    SaidApartFromSites(d, e, "jsonld:name", s.name);
    SaidApartFromSites(d, e, "jsonld:url", s.url);
    SaidApartFromSites(d, e, "jsonld:image", s.image);
    SaidApartFromSites(d, e, "jsonld:publisher.name", s.publisher);
    SaidApartFromSites(d, e, "jsonld:author.name", s.author);
  }

  lemma SaidApartFromSites(d: Candidates, e: Candidates, key: string, text: string)
    requires Told(d, key, text) && OnlySites(d, e) && key !in SITE_KEYS
    ensures Told(e, key, text)
  {
  }

  lemma PageKeysNameNoSite()
    ensures "jsonld:headline" !in SITE_KEYS && "jsonld:description" !in SITE_KEYS && "jsonld:name" !in SITE_KEYS
    ensures "jsonld:url" !in SITE_KEYS && "jsonld:image" !in SITE_KEYS
    ensures "jsonld:publisher.name" !in SITE_KEYS && "jsonld:author.name" !in SITE_KEYS
  {
    KeysDiffer();
    assert |ORGANIZATION_NAME| == 24 && |WEBSITE_NAME| == 19;
  }

  // A candidate that is told stays so, with whatever is found after it.
  lemma StaysSaid(d: Candidates, e: Candidates, key: string, text: string)
    requires Told(d, key, text) && !AllSpace(text)
    ensures Says(e + d, key, Trim(text))
  {
  }

  lemma PageThenRest(fields: seq<Field>, lower: Lower)
    requires TypeOf(fields, lower) != "organization" && TypeOf(fields, lower) != "website"
    ensures var page := WalkGraph(RecordPage(map[], fields), Object(fields), false, lower);
            Walk(map[], Object(fields), false, lower) == WalkRest(page, fields, lower)
  {
  }

  lemma NothingListed(page: Candidates, fields: seq<Field>, lower: Lower)
    requires Get(fields, "@graph") == None
    ensures WalkGraph(page, Object(fields), false, lower) == page
  {
  }

  // An object that is neither an organization nor a web site, and lists no graph, tells of the
  // page each of the seven things that it says, and no other.
  lemma PageObjectTells(fields: seq<Field>, s: Statement, lower: Lower)
    requires TypeOf(fields, lower) != "organization" && TypeOf(fields, lower) != "website"
    requires SaysOfPage(fields, s) && Get(fields, "@graph") == None
    ensures AllTold(Walk(map[], Object(fields), false, lower), s)
  {
    var page := RecordPage(map[], fields);
    PageIsTold(fields, s);
    PageThenRest(fields, lower);
    NothingListed(page, fields, lower);
    RestNamesOnlySites(page, fields, lower);
    StaysAllTold(page, WalkRest(page, fields, lower), s);
  }

  lemma AfterPage(fields: seq<Field>, page: Candidates, lower: Lower) returns (later: Candidates)
    ensures WalkRest(WalkGraph(page, Object(fields), false, lower), fields, lower) == later + page
  {
    var graph := WalkGraph(map[], Object(fields), false, lower);
    GraphFrom(page, Object(fields), false, lower);
    RestFrom(graph + page, fields, lower);
    later := WalkRest(map[], fields, lower) + graph;
  }

  // One that lists a graph still has the first word, before what the graph says.
  lemma PageObjectComesFirst(fields: seq<Field>, s: Statement, lower: Lower) returns (d: Candidates, later: Candidates)
    requires TypeOf(fields, lower) != "organization" && TypeOf(fields, lower) != "website"
    requires SaysOfPage(fields, s)
    ensures AllTold(d, s) && Walk(map[], Object(fields), false, lower) == later + d
  {
    d := RecordPage(map[], fields);
    PageIsTold(fields, s);
    PageThenRest(fields, lower);
    later := AfterPage(fields, d, lower);
  }

  // ----- organizations and web sites -----

  predicate IsSeparator(c: char) {
    c == '/' || c == '#' || c == ':'
  }

  // A type may be qualified: by a prefix, or by the address of a vocabulary.
  ghost predicate Qualifies(prefix: string) {
    prefix == "" || IsSeparator(prefix[|prefix| - 1])
  }

  ghost predicate NoSeparatorIn(name: string) {
    forall i :: 0 <= i < |name| ==> !IsSeparator(name[i])
  }

  lemma NothingAfterSeparator(prefix: string)
    requires Qualifies(prefix)
    ensures AfterLastSeparator(prefix) == ""
  {
  }

  lemma OneMoreInSegment(s: string, c: char)
    requires !IsSeparator(c)
    ensures AfterLastSeparator(s + [c]) == AfterLastSeparator(s) + [c]
  {
    assert (s + [c])[..|s|] == s;
  }

  lemma {:induction false} LastSegment(prefix: string, name: string)
    requires Qualifies(prefix) && NoSeparatorIn(name)
    ensures AfterLastSeparator(prefix + name) == name
    decreases |name|
  {
    if name == "" {
      NothingAfterSeparator(prefix);
      assert prefix + name == prefix;
    } else {
      var n := |name| - 1;
      LastSegment(prefix, name[..n]);
      OneMoreInSegment(prefix + name[..n], name[n]);
      assert prefix + name[..n] + [name[n]] == prefix + name;
    }
  }

  // The type of the object is written with this text, alone or as the first text of a list.
  ghost predicate TypedAs(fields: seq<Field>, text: string) {
    || Get(fields, "@type") == Some(Str(text))
    || exists items, k :: Get(fields, "@type") == Some(List(items)) && FirstText(items, k, text)
  }

  ghost predicate FirstText(items: seq<Json>, k: int, text: string) {
    0 <= k < |items| && items[k] == Str(text) && forall j :: 0 <= j < k ==> !items[j].Str?
  }

  lemma {:induction false} FirstTextIsType(items: seq<Json>, k: int, text: string, lower: Lower)
    requires FirstText(items, k, text) && TypeName(text, lower) != ""
    ensures FirstTypeName(items, lower) == TypeName(text, lower)
    decreases |items|
  {
    if k > 0 {
      assert !items[0].Str?;
      assert forall j :: 0 <= j < k - 1 ==> items[1..][j] == items[j + 1];
      FirstTextIsType(items[1..], k - 1, text, lower);
    }
  }

  lemma TypeIsLastSegment(fields: seq<Field>, prefix: string, name: string, lower: Lower)
    requires TypedAs(fields, prefix + name) && Qualifies(prefix) && NoSeparatorIn(name)
    requires name != "" && Trim(prefix + name) == prefix + name && lower(Trim(name)) != ""
    ensures TypeOf(fields, lower) == lower(Trim(name))
  {
    LastSegment(prefix, name);
    assert TypeName(prefix + name, lower) == lower(Trim(name));
    if items, k :| Get(fields, "@type") == Some(List(items)) && FirstText(items, k, prefix + name) {
      FirstTextIsType(items, k, prefix + name, lower);
    }
  }

  // An organization, or a web site, by whatever qualified name of the type, tells its own name
  // and nothing of the page, wherever it stands.
  lemma SiteObjectTells(
      d: Candidates, fields: seq<Field>, prefix: string, name: string, text: string, reference: bool, lower: Lower)
    requires TypedAs(fields, prefix + name) && Qualifies(prefix) && NoSeparatorIn(name)
    requires name != "" && Trim(prefix + name) == prefix + name && TextOrNone(fields, "name", text)
    ensures lower(Trim(name)) == "organization" ==>
              Fills(d, "jsonld:organization.name", text, Walk(d, Object(fields), reference, lower))
    ensures lower(Trim(name)) == "website" ==>
              Fills(d, "jsonld:website.name", text, Walk(d, Object(fields), reference, lower))
  {
    TextOrNoneIsRead(fields, "name", text);
    if lower(Trim(name)) == "organization" || lower(Trim(name)) == "website" {
      TypeIsLastSegment(fields, prefix, name, lower);
      RecordFills(d, "jsonld:organization.name", text);
      RecordFills(d, "jsonld:website.name", text);
    }
  }

  // ----- what is inside an object -----

  lemma OneFieldReads(key: string, v: Json, other: string)
    ensures Get([Field(key, v)], other) == if other == key then Some(v) else None
  {
    assert [Field(key, v)][1..] == [];
  }

  lemma OneFieldRest(d: Candidates, f: Field, lower: Lower)
    ensures WalkRest(d, [f], lower)
         == if f.value.Object? && f.key !in ["publisher", "author", "image", "@graph"]
            then Walk(d, f.value, true, lower) else d
  {
    assert [f][..0] == [];
  }

  lemma OneFieldType(key: string, v: Json, lower: Lower)
    requires key != "@type"
    ensures TypeOf([Field(key, v)], lower) == ""
  {
    OneFieldReads(key, v, "@type");
  }

  // An object with one property that is none of its type and those read of the page says
  // nothing of the page.
  lemma NothingOfThePage(d: Candidates, key: string, v: Json)
    requires key !in ["headline", "description", "name", "url", "image", "publisher", "author"]
    ensures RecordPage(d, [Field(key, v)]) == d
  {
    OneFieldReads(key, v, "headline");
    OneFieldReads(key, v, "description");
    OneFieldReads(key, v, "name");
    OneFieldReads(key, v, "url");
    OneFieldReads(key, v, "image");
    OneFieldReads(key, v, "publisher");
    OneFieldReads(key, v, "author");
    assert Blank("");
  }

  lemma GraphOf(d: Candidates, fields: seq<Field>, reference: bool, lower: Lower)
    ensures Get(fields, "@graph").None? ==> WalkGraph(d, Object(fields), reference, lower) == d
    ensures Get(fields, "@graph").Some? ==>
              WalkGraph(d, Object(fields), reference, lower) == Walk(d, Get(fields, "@graph").value, reference, lower)
  {
  }

  lemma GraphThenRest(d: Candidates, fields: seq<Field>, reference: bool, lower: Lower)
    requires TypeOf(fields, lower) == "" && (reference || RecordPage(d, fields) == d)
    ensures Walk(d, Object(fields), reference, lower)
         == WalkRest(WalkGraph(d, Object(fields), reference, lower), fields, lower)
  {
    assert TypeOf(fields, lower) != "organization" && TypeOf(fields, lower) != "website";
  }

  // A graph is as good as what it lists, and a list tells in turn.
  lemma GraphTells(d: Candidates, g: Json, reference: bool, lower: Lower)
    ensures Walk(d, Object([Field("@graph", g)]), reference, lower) == Walk(d, g, reference, lower)
  {
    OneFieldType("@graph", g, lower);
    OneFieldReads("@graph", g, "@graph");
    NothingOfThePage(d, "@graph", g);
    GraphThenRest(d, [Field("@graph", g)], reference, lower);
    GraphOf(d, [Field("@graph", g)], reference, lower);
    OneFieldRest(Walk(d, g, reference, lower), Field("@graph", g), lower);
  }

  lemma ListTells(d: Candidates, items: seq<Json>, last: Json, reference: bool, lower: Lower)
    ensures Walk(d, List(items + [last]), reference, lower)
         == Walk(Walk(d, List(items), reference, lower), last, reference, lower)
  {
    assert (items + [last])[..|items|] == items;
  }

  // An object under any other property is entered as a reference, but for those that are read
  // on their own; anything else there is passed over.
  lemma PropertyTells(d: Candidates, key: string, v: Json, reference: bool, lower: Lower)
    requires key != "@type" && key != "@graph"
    requires reference || key !in ["headline", "description", "name", "url", "image", "publisher", "author"]
    ensures Walk(d, Object([Field(key, v)]), reference, lower)
         == if v.Object? && key !in ["publisher", "author", "image"] then Walk(d, v, true, lower) else d
  {
    OneFieldType(key, v, lower);
    OneFieldReads(key, v, "@graph");
    if !reference {
      NothingOfThePage(d, key, v);
    }
    GraphThenRest(d, [Field(key, v)], reference, lower);
    GraphOf(d, [Field(key, v)], reference, lower);
    OneFieldRest(d, Field(key, v), lower);
  }
}
