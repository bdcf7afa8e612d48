/**
  Everything that one page can be read as, over every order in which the objects in its
  JSON-LD blocks may be iterated: which values each candidate can take, and exactly when what
  is reported of the page is settled.
*/
module PageReadings {
  import opened Options
  import opened SetFacts
  import opened Text
  import opened JsonValues
  import opened JsonLd
  import opened JsonLdOrder
  import opened SiteNames
  import opened JsonLdAgreement
  import opened PageExtraction

  // ----- first found, first kept -----

  lemma MetaOver(a: Candidates, d: Candidates, attrs: seq<Attr>, lower: Lower)
    ensures CollectMeta(a + d, attrs, lower) == CollectMeta(a, attrs, lower) + d
  {
    RecordOver(a, d, MetaKey(attrs, lower), FirstVal(attrs, "content").GetOr(""));
  }

  lemma LinkOver(a: Candidates, d: Candidates, attrs: seq<Attr>, lower: Lower)
    ensures CollectLink(a + d, attrs, lower) == CollectLink(a, attrs, lower) + d
  {
    RecordOver(a, d, LINK_CANONICAL, FirstVal(attrs, "href").GetOr(""));
  }

  lemma BlockOver(a: Candidates, d: Candidates, k: nat, raw: string, lower: Lower, decode: Decode)
    ensures CollectJsonLd(a + d, k, raw, lower, decode) == CollectJsonLd(a, k, raw, lower, decode) + d
  {
    match decode(k, raw)
    case None =>
    case Some(v) => WalkOver(a, d, v, false, lower);
  }

  lemma StartOver(
      s: Scan, a: Candidates, d: Candidates, k: nat, name: string, attrs: seq<Attr>, lower: Lower, decode: Decode)
    requires s.found == a + d
    ensures var t := Consume(s.(found := a), k, StartTag(name, attrs), lower, decode);
            Consume(s, k, StartTag(name, attrs), lower, decode) == t.(found := t.found + d)
  {
    if name == "meta" {
      MetaOver(a, d, attrs, lower);
      assert Consume(s, k, StartTag(name, attrs), lower, decode) == s.(found := CollectMeta(a + d, attrs, lower));
    } else if name == "link" {
      LinkOver(a, d, attrs, lower);
      assert Consume(s, k, StartTag(name, attrs), lower, decode) == s.(found := CollectLink(a + d, attrs, lower));
    }
  }

  lemma EndOver(s: Scan, a: Candidates, d: Candidates, k: nat, name: string, lower: Lower, decode: Decode)
    requires s.found == a + d
    ensures var t := Consume(s.(found := a), k, EndTag(name), lower, decode);
            Consume(s, k, EndTag(name), lower, decode) == t.(found := t.found + d)
  {
    RecordOver(a, d, TITLE_ELEMENT, s.title);
    BlockOver(a, d, k, s.json, lower, decode);
  }

  lemma ConsumeOver(s: Scan, a: Candidates, d: Candidates, k: nat, token: Token, lower: Lower, decode: Decode)
    requires s.found == a + d
    ensures var t := Consume(s.(found := a), k, token, lower, decode);
            Consume(s, k, token, lower, decode) == t.(found := t.found + d)
  {
    match token
    case StartTag(name, attrs) => StartOver(s, a, d, k, name, attrs, lower, decode);
    case EndTag(name) => EndOver(s, a, d, k, name, lower, decode);
    case TextToken(_) =>
  }

  // What token `k` adds to a page on which nothing was found before it.
  function Added(tokens: seq<Token>, k: nat, lower: Lower, decode: Decode): Candidates
    requires k < |tokens|
  {
    Consume(ScanAll(tokens[..k], lower, decode).(found := map[]), k, tokens[k], lower, decode).found
  }

  lemma FoundStep(tokens: seq<Token>, lower: Lower, decode: Decode)
    requires tokens != []
    ensures var n := |tokens| - 1;
            ScanAll(tokens, lower, decode).found
                == Added(tokens, n, lower, decode) + ScanAll(tokens[..n], lower, decode).found
  {
    var n := |tokens| - 1;
    var s := ScanAll(tokens[..n], lower, decode);
    assert s.found == map[] + s.found;
    ConsumeOver(s, map[], s.found, n, tokens[n], lower, decode);
  }

  ghost predicate SameFlags(s: Scan, t: Scan) {
    s.inTitle == t.inTitle && s.title == t.title && s.inJsonLd == t.inJsonLd && s.json == t.json
  }

  // Where the scan stands in the page is a matter of the tokens alone.
  lemma {:induction false} FlagsAreOfTheTokens(tokens: seq<Token>, lower: Lower, a: Decode, b: Decode)
    ensures SameFlags(ScanAll(tokens, lower, a), ScanAll(tokens, lower, b))
    decreases |tokens|
  {
    if tokens == [] {
    } else {
      FlagsAreOfTheTokens(tokens[..|tokens| - 1], lower, a, b);
    }
  }

  // ----- the values that a candidate can take -----

  // The value of the JSON-LD block that token `k` closes, if it closes one.
  function BlockAt(tokens: seq<Token>, k: nat, lower: Lower, decode: Decode): Option<Json>
    requires k < |tokens|
  {
    var s := ScanAll(tokens[..k], lower, decode);
    if tokens[k] == EndTag("script") && s.inJsonLd && !Blank(s.json) then decode(k, s.json) else None
  }

  function Single(d: Candidates, key: string): set<string> {
    if key in d then {d[key]} else {}
  }

  function BlockOffers(v: Json, key: string, lower: Lower): set<string> {
    if key in SITE_KEYS then Namings(v, key, lower) else Single(Walk(map[], v, false, lower), key)
  }

  // What token `k` can give the key.
  function Offers(tokens: seq<Token>, k: nat, key: string, lower: Lower, decode: Decode): set<string>
    requires k < |tokens|
  {
    match BlockAt(tokens, k, lower, decode)
    case Some(v) => BlockOffers(v, key, lower)
    case None => Single(Added(tokens, k, lower, decode), key)
  }

  // The values the key can have: those of the first token that can give it any.
  function Choices(tokens: seq<Token>, key: string, lower: Lower, decode: Decode): set<string> {
    if tokens == [] then {}
    else
      var n := |tokens| - 1;
      FirstOf(Choices(tokens[..n], key, lower, decode), Offers(tokens, n, key, lower, decode))
  }

  lemma AddedByBlock(tokens: seq<Token>, k: nat, lower: Lower, decode: Decode)
    requires k < |tokens| && BlockAt(tokens, k, lower, decode).Some?
    ensures Added(tokens, k, lower, decode) == Walk(map[], BlockAt(tokens, k, lower, decode).value, false, lower)
  {
  }

  lemma AddedElsewhere(tokens: seq<Token>, k: nat, lower: Lower, a: Decode, b: Decode)
    requires k < |tokens| && BlockAt(tokens, k, lower, a).None? && BlockAt(tokens, k, lower, b).None?
    ensures Added(tokens, k, lower, a) == Added(tokens, k, lower, b)
  {
    FlagsAreOfTheTokens(tokens[..k], lower, a, b);
  }

  lemma SameBlock(tokens: seq<Token>, k: nat, lower: Lower, a: Decode, b: Decode)
    requires k < |tokens| && SameDecoding(a, b)
    ensures SameLookup(BlockAt(tokens, k, lower, a), BlockAt(tokens, k, lower, b))
  {
    FlagsAreOfTheTokens(tokens[..k], lower, a, b);
    assert SameLookup(a(k, ScanAll(tokens[..k], lower, a).json), b(k, ScanAll(tokens[..k], lower, a).json));
  }

  lemma BlockGives(v: Json, w: Json, key: string, lower: Lower)
    requires SameValue(v, w) && Decoded(v) && Decoded(w)
    ensures Gives(Walk(map[], w, false, lower), key, BlockOffers(v, key, lower))
  {
    if key in SITE_KEYS {
      WalkGives(w, false, key, lower);
      SameNamings(v, w, key, lower);
    } else {
      OrderIndependent(map[], map[], v, w, false, lower);
    }
  }

  lemma TokenGives(tokens: seq<Token>, k: nat, key: string, lower: Lower, a: Decode, b: Decode)
    requires k < |tokens| && SameDecoding(a, b)
    ensures Gives(Added(tokens, k, lower, b), key, Offers(tokens, k, key, lower, a))
  {
    SameBlock(tokens, k, lower, a, b);
    match BlockAt(tokens, k, lower, a)
    case Some(v) =>
      AddedByBlock(tokens, k, lower, b);
      BlockGives(v, BlockAt(tokens, k, lower, b).value, key, lower);
    case None => AddedElsewhere(tokens, k, lower, a, b);
  }

  // Every reading finds one of the choices under the key, and nothing when there are none.
  lemma {:induction false} ReadingGives(tokens: seq<Token>, key: string, lower: Lower, a: Decode, b: Decode)
    requires SameDecoding(a, b)
    ensures Gives(ScanAll(tokens, lower, b).found, key, Choices(tokens, key, lower, a))
    decreases |tokens|
  {
    if tokens == [] {
    } else {
      var n := |tokens| - 1;
      ReadingGives(tokens[..n], key, lower, a, b);
      TokenGives(tokens, n, key, lower, a, b);
      FoundStep(tokens, lower, b);
    }
  }

  // ----- every choice is taken by some reading -----

  function Override(a: Decode, k: nat, raw: string, w: Json): Decode {
    (j: nat, text: string) => if j == k && text == raw then Some(w) else a(j, text)
  }

  lemma OverrideIsReading(a: Decode, k: nat, raw: string, w: Json)
    requires SameDecoding(a, a) && a(k, raw).Some? && ListingOf(a(k, raw).value, w)
    ensures SameDecoding(a, Override(a, k, raw, w))
  {
    assert SameLookup(a(k, raw), a(k, raw));
    forall j, text ensures SameLookup(a(j, text), Override(a, k, raw, w)(j, text)) {
      assert SameLookup(a(j, text), a(j, text));
    }
  }

  lemma TokenAttains(tokens: seq<Token>, k: nat, key: string, lower: Lower, a: Decode, x: string) returns (b: Decode)
    requires k < |tokens| && SameDecoding(a, a) && x in Offers(tokens, k, key, lower, a)
    ensures SameDecoding(a, b) && Says(Added(tokens, k, lower, b), key, x)
  {
    var raw := ScanAll(tokens[..k], lower, a).json;
    match BlockAt(tokens, k, lower, a)
    case None => b := a;
    case Some(v) =>
      if key in SITE_KEYS {
        assert SameLookup(a(k, raw), a(k, raw));
        var w := Attain(v, false, key, lower, x);
        b := Override(a, k, raw, w);
        OverrideIsReading(a, k, raw, w);
        FlagsAreOfTheTokens(tokens[..k], lower, a, b);
        AddedByBlock(tokens, k, lower, b);
      } else {
        b := a;
        AddedByBlock(tokens, k, lower, a);
      }
  }

  lemma {:induction false} ReadingAttains(
      tokens: seq<Token>, key: string, lower: Lower, a: Decode, x: string) returns (b: Decode)
    requires SameDecoding(a, a) && x in Choices(tokens, key, lower, a)
    ensures SameDecoding(a, b) && Says(ScanAll(tokens, lower, b).found, key, x)
    decreases |tokens|
  {
    var n := |tokens| - 1;
    if Choices(tokens[..n], key, lower, a) != {} {
      b := ReadingAttains(tokens[..n], key, lower, a, x);
    } else {
      b := TokenAttains(tokens, n, key, lower, a, x);
      ReadingGives(tokens[..n], key, lower, a, b);
    }
    FoundStep(tokens, lower, b);
  }

  // ----- a precedence list -----

  // What the first candidate of the list can be.
  function ListChoices(tokens: seq<Token>, precedence: seq<string>, lower: Lower, decode: Decode): set<string> {
    if precedence == [] then {""}
    else FirstOf(Choices(tokens, precedence[0], lower, decode), ListChoices(tokens, precedence[1..], lower, decode))
  }

  function Chosen(tokens: seq<Token>, precedence: seq<string>, lower: Lower, decode: Decode): string {
    FirstCandidate(ScanAll(tokens, lower, decode).found, precedence)
  }

  lemma {:induction false} ChosenIsAChoice(
      tokens: seq<Token>, precedence: seq<string>, lower: Lower, a: Decode, b: Decode)
    requires SameDecoding(a, b)
    ensures Chosen(tokens, precedence, lower, b) in ListChoices(tokens, precedence, lower, a)
    decreases |precedence|
  {
    if precedence == [] {
    } else {
      ReadingGives(tokens, precedence[0], lower, a, b);
      ScanIsClean(tokens, lower, b);
      ChosenIsAChoice(tokens, precedence[1..], lower, a, b);
    }
  }

  lemma {:induction false} ChoiceIsChosen(
      tokens: seq<Token>, precedence: seq<string>, lower: Lower, a: Decode, x: string)
    returns (b: Decode)
    requires SameDecoding(a, a) && x in ListChoices(tokens, precedence, lower, a)
    ensures SameDecoding(a, b) && Chosen(tokens, precedence, lower, b) == x
    decreases |precedence|
  {
    if precedence == [] {
      b := a;
    } else if Choices(tokens, precedence[0], lower, a) != {} {
      b := ReadingAttains(tokens, precedence[0], lower, a, x);
      ScanIsClean(tokens, lower, b);
    } else {
      b := ChoiceIsChosen(tokens, precedence[1..], lower, a, x);
      ReadingGives(tokens, precedence[0], lower, a, b);
    }
  }

  // ----- nothing blank is ever found -----

  ghost predicate Clean(d: Candidates) {
    forall k :: k in d ==> !Blank(d[k])
  }

  lemma TrimTwice(s: string)
    ensures Trim(Trim(s)) == Trim(s)
  {
  }

  lemma RecordIsClean(d: Candidates, key: string, value: string)
    requires Clean(d)
    ensures Clean(Record(d, key, value))
  {
    TrimTwice(value);
  }

  lemma PageIsClean(d: Candidates, fields: seq<Field>)
    requires Clean(d)
    ensures Clean(RecordPage(d, fields))
  {
    var d1 := Record(d, "jsonld:headline", StringOf(fields, "headline"));
    RecordIsClean(d, "jsonld:headline", StringOf(fields, "headline"));
    var d2 := Record(d1, "jsonld:description", StringOf(fields, "description"));
    RecordIsClean(d1, "jsonld:description", StringOf(fields, "description"));
    var d3 := Record(d2, "jsonld:name", StringOf(fields, "name"));
    RecordIsClean(d2, "jsonld:name", StringOf(fields, "name"));
    var d4 := Record(d3, "jsonld:url", StringOf(fields, "url"));
    RecordIsClean(d3, "jsonld:url", StringOf(fields, "url"));
    var d5 := Record(d4, "jsonld:image", ImageOf(fields));
    RecordIsClean(d4, "jsonld:image", ImageOf(fields));
    RecordIsClean(d5, "jsonld:publisher.name", NestedName(fields, "publisher"));
    RecordIsClean(Record(d5, "jsonld:publisher.name", NestedName(fields, "publisher")),
                  "jsonld:author.name", NestedName(fields, "author"));
  }

  lemma {:induction false} WalkIsClean(d: Candidates, node: Json, reference: bool, lower: Lower)
    requires Clean(d)
    ensures Clean(Walk(d, node, reference, lower))
    decreases node, 2
  {
    match node
    case Object(fields) => ObjectIsClean(d, node, reference, lower);
    case List(items) => ItemsAreClean(d, items, reference, lower);
    case _ =>
  }

  lemma {:induction false} ItemsAreClean(d: Candidates, items: seq<Json>, reference: bool, lower: Lower)
    requires Clean(d)
    ensures Clean(WalkItems(d, items, reference, lower))
    decreases items, 0
  {
    if items == [] {
    } else {
      var n := |items| - 1;
      ItemsAreClean(d, items[..n], reference, lower);
      WalkIsClean(WalkItems(d, items[..n], reference, lower), items[n], reference, lower);
    }
  }

  lemma {:induction false} RestIsClean(d: Candidates, fields: seq<Field>, lower: Lower)
    requires Clean(d)
    ensures Clean(WalkRest(d, fields, lower))
    decreases fields, 0
  {
    if fields == [] {
    } else {
      var n := |fields| - 1;
      RestIsClean(d, fields[..n], lower);
      if Walked(fields[n]) {
        WalkIsClean(WalkRest(d, fields[..n], lower), fields[n].value, true, lower);
      }
    }
  }

  lemma {:induction false} ObjectIsClean(d: Candidates, node: Json, reference: bool, lower: Lower)
    requires node.Object? && Clean(d)
    ensures Clean(WalkObject(d, node, reference, lower))
    decreases node, 1
  {
    var fields := node.fields;
    RecordIsClean(d, ORGANIZATION_NAME, StringOf(fields, "name"));
    RecordIsClean(d, WEBSITE_NAME, StringOf(fields, "name"));
    PageIsClean(d, fields);
    var page := if reference then d else RecordPage(d, fields);
    match Get(fields, "@graph") {
      case None =>
      case Some(g) => WalkIsClean(page, g, reference, lower);
    }
    RestIsClean(WalkGraph(page, node, reference, lower), fields, lower);
  }

  lemma ConsumeIsClean(s: Scan, k: nat, token: Token, lower: Lower, decode: Decode)
    requires Clean(s.found)
    ensures Clean(Consume(s, k, token, lower, decode).found)
  {
    match token
    case StartTag(name, attrs) =>
      RecordIsClean(s.found, MetaKey(attrs, lower), FirstVal(attrs, "content").GetOr(""));
      RecordIsClean(s.found, LINK_CANONICAL, FirstVal(attrs, "href").GetOr(""));
    case EndTag(name) =>
      RecordIsClean(s.found, TITLE_ELEMENT, s.title);
      match decode(k, s.json) {
        case None =>
        case Some(v) => WalkIsClean(s.found, v, false, lower);
      }
    case TextToken(_) =>
  }

  lemma {:induction false} ScanIsClean(tokens: seq<Token>, lower: Lower, decode: Decode)
    ensures Clean(ScanAll(tokens, lower, decode).found)
    decreases |tokens|
  {
    if tokens == [] {
    } else {
      var n := |tokens| - 1;
      ScanIsClean(tokens[..n], lower, decode);
      ConsumeIsClean(ScanAll(tokens[..n], lower, decode), n, tokens[n], lower, decode);
    }
  }

  // ----- exactly when a report is settled -----

  type Report = string -> Option<string>

  // All readings of the page report the same of the first candidate of the list.
  ghost predicate AlwaysReportsTheSame(
      tokens: seq<Token>, precedence: seq<string>, lower: Lower, a: Decode, report: Report) {
    forall b, c :: SameDecoding(a, b) && SameDecoding(a, c) ==>
      report(Chosen(tokens, precedence, lower, b)) == report(Chosen(tokens, precedence, lower, c))
  }

  // All its choices read alike.
  ghost predicate ChoicesReadAlike(
      tokens: seq<Token>, precedence: seq<string>, lower: Lower, a: Decode, report: Report) {
    forall x, y | x in ListChoices(tokens, precedence, lower, a) && y in ListChoices(tokens, precedence, lower, a) ::
      report(x) == report(y)
  }

  lemma ReportIsSettledExactly(tokens: seq<Token>, precedence: seq<string>, lower: Lower, a: Decode, report: Report)
    requires SameDecoding(a, a)
    ensures AlwaysReportsTheSame(tokens, precedence, lower, a, report)
        <==> ChoicesReadAlike(tokens, precedence, lower, a, report)
  {
    if ChoicesReadAlike(tokens, precedence, lower, a, report) {
      forall b, c | SameDecoding(a, b) && SameDecoding(a, c)
        ensures report(Chosen(tokens, precedence, lower, b)) == report(Chosen(tokens, precedence, lower, c))
      {
        ChosenIsAChoice(tokens, precedence, lower, a, b);
        ChosenIsAChoice(tokens, precedence, lower, a, c);
      }
    }
    if AlwaysReportsTheSame(tokens, precedence, lower, a, report) {
      var choices := ListChoices(tokens, precedence, lower, a);
      forall x, y | x in choices && y in choices ensures report(x) == report(y) {
        var b := ChoiceIsChosen(tokens, precedence, lower, a, x);
        var c := ChoiceIsChosen(tokens, precedence, lower, a, y);
      }
    }
  }

  // Away from the two site names there is never more than one choice.
  lemma {:induction false} AtMostOneChoice(tokens: seq<Token>, key: string, lower: Lower, a: Decode)
    requires key !in SITE_KEYS
    ensures |Choices(tokens, key, lower, a)| <= 1
    decreases |tokens|
  {
    if tokens == [] {
    } else {
      AtMostOneChoice(tokens[..|tokens| - 1], key, lower, a);
    }
  }

  lemma {:induction false} OneChoice(tokens: seq<Token>, precedence: seq<string>, lower: Lower, a: Decode)
    requires NamesNoSite(precedence)
    ensures |ListChoices(tokens, precedence, lower, a)| == 1
    decreases |precedence|
  {
    if precedence == [] {
    } else {
      AtMostOneChoice(tokens, precedence[0], lower, a);
      OneChoice(tokens, precedence[1..], lower, a);
    }
  }

  lemma OtherListsAreSettled(tokens: seq<Token>, precedence: seq<string>, lower: Lower, a: Decode, b: Decode)
    requires SameDecoding(a, b) && NamesNoSite(precedence)
    ensures Chosen(tokens, precedence, lower, a) == Chosen(tokens, precedence, lower, b)
  {
    DecodesItself(a, b);
    ChosenIsAChoice(tokens, precedence, lower, a, a);
    ChosenIsAChoice(tokens, precedence, lower, a, b);
    OneChoice(tokens, precedence, lower, a);
    AtMostOne(ListChoices(tokens, precedence, lower, a));
  }

  lemma DecodesItself(a: Decode, b: Decode)
    requires SameDecoding(a, b)
    ensures SameDecoding(a, a)
  {
    forall k, raw ensures SameLookup(a(k, raw), a(k, raw)) {
      assert SameLookup(a(k, raw), b(k, raw));
      if a(k, raw).Some? {
        SameToItself(a(k, raw).value);
      }
    }
  }

  predicate NamesNoSite(precedence: seq<string>) {
    forall i :: 0 <= i < |precedence| ==> precedence[i] !in SITE_KEYS
  }

  lemma TextListsNameNoSite()
    ensures NamesNoSite(TITLE) && NamesNoSite(DESCRIPTION) && NamesNoSite(AUTHOR)
  {
    assert |ORGANIZATION_NAME| == 24 && |WEBSITE_NAME| == 19;
    assert "twitter:description"[0] == 't' && WEBSITE_NAME[0] == 'j';
  }

  lemma UrlListsNameNoSite()
    ensures NamesNoSite(IMAGE) && NamesNoSite(CANONICAL)
  {
    assert |ORGANIZATION_NAME| == 24 && |WEBSITE_NAME| == 19;
  }

  // What a field reports, by the candidate chosen for it.
  lemma FieldsAreChosen(tokens: seq<Token>, lower: Lower, decode: Decode, n: Normalisers)
    ensures var m := SelectMetadata(ScanAll(tokens, lower, decode).found, n);
            && m.title == n.text(Chosen(tokens, TITLE, lower, decode))
            && m.platform == n.text(Chosen(tokens, PLATFORM, lower, decode))
            && m.description == n.text(Chosen(tokens, DESCRIPTION, lower, decode))
            && m.imageURL == n.url(Chosen(tokens, IMAGE, lower, decode))
            && m.canonicalURL == n.url(Chosen(tokens, CANONICAL, lower, decode))
            && m.siteName == n.text(Chosen(tokens, SITE_NAME, lower, decode))
            && m.author == n.text(Chosen(tokens, AUTHOR, lower, decode))
  {
  }

  // Two readings of one page report the same title, description, image, canonical URL and
  // author.
  lemma MetadataIsDeterministic(tokens: seq<Token>, lower: Lower, a: Decode, b: Decode, n: Normalisers)
    requires SameDecoding(a, b)
    ensures var m := SelectMetadata(ScanAll(tokens, lower, a).found, n);
            var m' := SelectMetadata(ScanAll(tokens, lower, b).found, n);
            && m.title == m'.title && m.description == m'.description && m.imageURL == m'.imageURL
            && m.canonicalURL == m'.canonicalURL && m.author == m'.author
  {
    FieldsAreChosen(tokens, lower, a, n);
    FieldsAreChosen(tokens, lower, b, n);
    TextListsNameNoSite();
    UrlListsNameNoSite();
    OtherListsAreSettled(tokens, TITLE, lower, a, b);
    OtherListsAreSettled(tokens, DESCRIPTION, lower, a, b);
    OtherListsAreSettled(tokens, IMAGE, lower, a, b);
    OtherListsAreSettled(tokens, CANONICAL, lower, a, b);
    OtherListsAreSettled(tokens, AUTHOR, lower, a, b);
  }

  // All readings of the page report the same platform.
  ghost predicate PlatformIsSettled(tokens: seq<Token>, lower: Lower, a: Decode, n: Normalisers) {
    forall b, c :: SameDecoding(a, b) && SameDecoding(a, c) ==>
      SelectMetadata(ScanAll(tokens, lower, b).found, n).platform
          == SelectMetadata(ScanAll(tokens, lower, c).found, n).platform
  }

  ghost predicate SiteNameIsSettled(tokens: seq<Token>, lower: Lower, a: Decode, n: Normalisers) {
    forall b, c :: SameDecoding(a, b) && SameDecoding(a, c) ==>
      SelectMetadata(ScanAll(tokens, lower, b).found, n).siteName
          == SelectMetadata(ScanAll(tokens, lower, c).found, n).siteName
  }

  // The platform is settled if and only if everything that can be chosen for it reads alike.
  lemma PlatformIsSettledExactly(tokens: seq<Token>, lower: Lower, a: Decode, n: Normalisers)
    requires SameDecoding(a, a)
    ensures PlatformIsSettled(tokens, lower, a, n) <==> ChoicesReadAlike(tokens, PLATFORM, lower, a, n.text)
  {
    forall b
      ensures SelectMetadata(ScanAll(tokens, lower, b).found, n).platform == n.text(Chosen(tokens, PLATFORM, lower, b))
    {
      FieldsAreChosen(tokens, lower, b, n);
    }
    ReportIsSettledExactly(tokens, PLATFORM, lower, a, n.text);
  }

  // And so is the site name.
  lemma SiteNameIsSettledExactly(tokens: seq<Token>, lower: Lower, a: Decode, n: Normalisers)
    requires SameDecoding(a, a)
    ensures SiteNameIsSettled(tokens, lower, a, n) <==> ChoicesReadAlike(tokens, SITE_NAME, lower, a, n.text)
  {
    forall b
      ensures SelectMetadata(ScanAll(tokens, lower, b).found, n).siteName == n.text(Chosen(tokens, SITE_NAME, lower, b))
    {
      FieldsAreChosen(tokens, lower, b, n);
    }
    ReportIsSettledExactly(tokens, SITE_NAME, lower, a, n.text);
  }

  // ----- what can reach which candidate -----

  lemma {:induction false} MetaKeyIsLowered(attrs: seq<Attr>, lower: Lower) returns (raw: string)
    requires MetaKey(attrs, lower) != ""
    ensures lower(Trim(raw)) == MetaKey(attrs, lower)
    decreases |attrs|
  {
    var last := attrs[|attrs| - 1];
    if last.key in ["name", "property", "itemprop"] {
      raw := last.val;
    } else {
      raw := MetaKeyIsLowered(attrs[..|attrs| - 1], lower);
    }
  }

  function MetaTag(name: string, content: string): seq<Attr> {
    [Attr("name", name), Attr("content", content)]
  }

  lemma MetaTagFills(d: Candidates, name: string, content: string, lower: Lower)
    requires lower(Trim(name)) != "" && !Blank(content) && lower(Trim(name)) !in d
    ensures CollectMeta(d, MetaTag(name, content), lower) == d[lower(Trim(name)) := Trim(content)]
  {
    var attrs := MetaTag(name, content);
    assert attrs[..1] == [Attr("name", name)] && attrs[1..] == [Attr("content", content)];
    assert MetaKey(attrs[..1], lower) == lower(Trim(name));
    assert FirstVal(attrs[1..], "content") == Some(content);
  }

  // The keys written like markup are documented as out of reach of a meta tag. Some meta tag
  // fills a free key, those included, if and only if trimming and lower-casing some text
  // gives the key.
  lemma MetaReachesExactly(d: Candidates, key: string, lower: Lower)
    requires key != "" && key !in d
    ensures (exists attrs :: key in CollectMeta(d, attrs, lower)) <==> (exists raw :: lower(Trim(raw)) == key)
  {
    if attrs :| key in CollectMeta(d, attrs, lower) {
      assert MetaKey(attrs, lower) == key;
      var raw := MetaKeyIsLowered(attrs, lower);
    }
    if raw :| lower(Trim(raw)) == key {
      OneLetter('A');
      MetaTagFills(d, raw, "A", lower);
      assert key in CollectMeta(d, MetaTag(raw, "A"), lower);
    }
  }

  // The keys written like markup are among those reached, where lower-casing leaves them alone.
  lemma MetaReachesMarkup(d: Candidates, key: string, lower: Lower)
    requires key in {TITLE_ELEMENT, LINK_CANONICAL} && lower(key) == key && key !in d
    ensures exists attrs :: key in CollectMeta(d, attrs, lower)
  {
    NothingToTrim(key);
    MetaReachesExactly(d, key, lower);
    assert lower(Trim(key)) == key;
  }

  lemma NothingToTrim(s: string)
    requires s != "" && !IsSpace(s[0]) && !IsSpace(s[|s| - 1])
    ensures Trim(s) == s
  {
  }

  // What is found in a page stays, whatever follows.
  lemma {:induction false} FoundStays(tokens: seq<Token>, k: nat, key: string, lower: Lower, decode: Decode)
    requires k <= |tokens| && key in ScanAll(tokens[..k], lower, decode).found
    ensures Says(ScanAll(tokens, lower, decode).found, key, ScanAll(tokens[..k], lower, decode).found[key])
    decreases |tokens|
  {
    if k == |tokens| {
      assert tokens[..k] == tokens;
    } else {
      var n := |tokens| - 1;
      assert tokens[..n][..k] == tokens[..k];
      FoundStays(tokens[..n], k, key, lower, decode);
      FoundStep(tokens, lower, decode);
    }
  }

  // A meta tag whose key is free takes the key for the rest of the page.
  lemma MetaStays(tokens: seq<Token>, k: nat, attrs: seq<Attr>, content: string, lower: Lower, decode: Decode)
    requires k < |tokens| && tokens[k] == StartTag("meta", attrs) && !Blank(content)
    requires MetaKey(attrs, lower) != "" && FirstVal(attrs, "content") == Some(content)
    requires MetaKey(attrs, lower) !in ScanAll(tokens[..k], lower, decode).found
    ensures Says(ScanAll(tokens, lower, decode).found, MetaKey(attrs, lower), Trim(content))
  {
    MetaIsFound(tokens, k, attrs, content, lower, decode);
    FoundStays(tokens, k + 1, MetaKey(attrs, lower), lower, decode);
  }

  // So one that comes before the title element has ended takes the element's place: its text
  // is the title chosen for a page that states none in its metadata.
  lemma MetaTakesTheTitle(tokens: seq<Token>, k: nat, attrs: seq<Attr>, content: string, lower: Lower, decode: Decode)
    requires k < |tokens| && tokens[k] == StartTag("meta", attrs) && !Blank(content)
    requires MetaKey(attrs, lower) == TITLE_ELEMENT && FirstVal(attrs, "content") == Some(content)
    requires TITLE_ELEMENT !in ScanAll(tokens[..k], lower, decode).found
    requires forall key :: key in {"og:title", "twitter:title"} ==> key !in ScanAll(tokens, lower, decode).found
    ensures Chosen(tokens, TITLE, lower, decode) == Trim(content)
  {
    MetaStays(tokens, k, attrs, content, lower, decode);
    ScanIsClean(tokens, lower, decode);
    TitleElementIsNext(ScanAll(tokens, lower, decode).found);
  }

  lemma MetaIsFound(tokens: seq<Token>, k: nat, attrs: seq<Attr>, content: string, lower: Lower, decode: Decode)
    requires k < |tokens| && tokens[k] == StartTag("meta", attrs) && !Blank(content)
    requires MetaKey(attrs, lower) != "" && FirstVal(attrs, "content") == Some(content)
    requires MetaKey(attrs, lower) !in ScanAll(tokens[..k], lower, decode).found
    ensures Says(ScanAll(tokens[..k + 1], lower, decode).found, MetaKey(attrs, lower), Trim(content))
  {
    assert tokens[..k + 1][..k] == tokens[..k];
  }

  lemma TitleElementIsNext(d: Candidates)
    requires Clean(d) && TITLE_ELEMENT in d && "og:title" !in d && "twitter:title" !in d
    ensures FirstCandidate(d, TITLE) == d[TITLE_ELEMENT]
  {
    var rest := ["twitter:title", TITLE_ELEMENT, "jsonld:headline", "jsonld:name"];
    assert TITLE[1..] == rest;
    assert FirstCandidate(d, TITLE) == FirstCandidate(d, rest);
    assert rest[1..][0] == TITLE_ELEMENT;
    assert FirstCandidate(d, rest) == FirstCandidate(d, rest[1..]);
  }

  // ----- pages of one block -----

  // A page that is one JSON-LD block.
  function OneBlock(attrs: seq<Attr>, raw: string): seq<Token> {
    [StartTag("script", attrs), TextToken(raw), EndTag("script")]
  }

  function Always(v: Json): Decode {
    (k: nat, raw: string) => Some(v)
  }

  lemma InsideOneBlock(attrs: seq<Attr>, raw: string, lower: Lower, decode: Decode)
    requires IsJsonLdScript(attrs, lower)
    ensures ScanAll(OneBlock(attrs, raw)[..2], lower, decode) == Scan(false, "", true, raw, map[])
    ensures ScanAll(OneBlock(attrs, raw)[..1], lower, decode) == Scan(false, "", true, "", map[])
  {
    var page := OneBlock(attrs, raw);
    assert page[..2][..1] == page[..1] && page[..1][..0] == [];
    assert ScanAll(page[..1], lower, decode) == Scan(false, "", true, "", map[]);
    assert "" + raw == raw;
  }

  lemma OneBlockFound(attrs: seq<Attr>, raw: string, lower: Lower, v: Json)
    requires IsJsonLdScript(attrs, lower) && !Blank(raw)
    ensures ScanAll(OneBlock(attrs, raw), lower, Always(v)).found == Walk(map[], v, false, lower)
  {
    InsideOneBlock(attrs, raw, lower, Always(v));
  }

  lemma OneBlockChoices(attrs: seq<Attr>, raw: string, key: string, lower: Lower, v: Json)
    requires IsJsonLdScript(attrs, lower) && !Blank(raw)
    ensures Choices(OneBlock(attrs, raw), key, lower, Always(v)) == BlockOffers(v, key, lower)
  {
    var page := OneBlock(attrs, raw);
    InsideOneBlock(attrs, raw, lower, Always(v));
    assert page[..2][..1] == page[..1] && page[..1][..0] == [];
    assert Choices(page[..1], key, lower, Always(v)) == {};
    assert Choices(page[..2], key, lower, Always(v)) == {};
  }

  // The only candidate there is, is the first of any list that has it.
  lemma {:induction false} OnlyCandidate(key: string, name: string, precedence: seq<string>)
    requires key in precedence && !Blank(name)
    ensures FirstCandidate(map[key := name], precedence) == name
    decreases |precedence|
  {
    if precedence[0] == key {
    } else {
      OnlyCandidate(key, name, precedence[1..]);
    }
  }

  lemma WebSiteIsListed()
    ensures WEBSITE_NAME in PLATFORM && WEBSITE_NAME in SITE_NAME && ORGANIZATION_NAME in PLATFORM
  {
    assert PLATFORM[3] == WEBSITE_NAME && SITE_NAME[2] == WEBSITE_NAME && PLATFORM[2] == ORGANIZATION_NAME;
  }

  lemma WebSiteReports(attrs: seq<Attr>, raw: string, v: Json, name: string, lower: Lower, n: Normalisers)
    requires IsJsonLdScript(attrs, lower) && !Blank(raw) && !Blank(name)
    requires Walk(map[], v, false, lower) == map[WEBSITE_NAME := name]
    ensures var m := SelectMetadata(ScanAll(OneBlock(attrs, raw), lower, Always(v)).found, n);
            m.platform == n.text(name) && m.siteName == n.text(name)
  {
    FieldsAreChosen(OneBlock(attrs, raw), lower, Always(v), n);
    OneBlockFound(attrs, raw, lower, v);
    WebSiteIsListed();
    OnlyCandidate(WEBSITE_NAME, name, PLATFORM);
    OnlyCandidate(WEBSITE_NAME, name, SITE_NAME);
  }

  lemma AlwaysTheSame(v: Json, w: Json)
    requires SameValue(v, w) && Decoded(v) && Decoded(w)
    ensures SameDecoding(Always(v), Always(w))
  {
  }

  // A page that names two web sites, read twice: platform and site name come out different.
  lemma ReadingsDisagree(attrs: seq<Attr>, raw: string, lower: Lower, n: Normalisers)
    requires IsJsonLdScript(attrs, lower) && JsonLdAgreement.Names("WebSite", WEBSITE_NAME, lower)
    requires !Blank(raw) && n.text("A") != n.text("B")
    ensures var a, b := Always(AThenB("WebSite")), Always(BThenA("WebSite"));
            var m := SelectMetadata(ScanAll(OneBlock(attrs, raw), lower, a).found, n);
            var m' := SelectMetadata(ScanAll(OneBlock(attrs, raw), lower, b).found, n);
            SameDecoding(a, b) && m.platform != m'.platform && m.siteName != m'.siteName
  {
    BothAreListings("WebSite");
    AlwaysTheSame(AThenB("WebSite"), BThenA("WebSite"));
    TwoWebSitesReport(attrs, raw, lower, n);
  }

  lemma TwoWebSitesReport(attrs: seq<Attr>, raw: string, lower: Lower, n: Normalisers)
    requires IsJsonLdScript(attrs, lower) && JsonLdAgreement.Names("WebSite", WEBSITE_NAME, lower) && !Blank(raw)
    ensures var m := SelectMetadata(ScanAll(OneBlock(attrs, raw), lower, Always(AThenB("WebSite"))).found, n);
            m.platform == n.text("A") && m.siteName == n.text("A")
    ensures var m := SelectMetadata(ScanAll(OneBlock(attrs, raw), lower, Always(BThenA("WebSite"))).found, n);
            m.platform == n.text("B") && m.siteName == n.text("B")
  {
    SiteNameDependsOnOrder("WebSite", WEBSITE_NAME, lower);
    OneLetter('A');
    OneLetter('B');
    WebSiteReports(attrs, raw, AThenB("WebSite"), "A", lower, n);
    WebSiteReports(attrs, raw, BThenA("WebSite"), "B", lower, n);
  }

  lemma EntityWalk(kind: string, name: string, owner: string, lower: Lower)
    requires JsonLdAgreement.Names(kind, owner, lower) && !Blank(name)
    ensures Walk(map[], Entity(kind, name), false, lower) == map[owner := Trim(name)]
  {
    EntityFields(kind, name);
  }

  lemma EntityNamings(kind: string, name: string, owner: string, key: string, lower: Lower)
    requires JsonLdAgreement.Names(kind, owner, lower) && !Blank(name)
    ensures Namings(Entity(kind, name), key, lower) == if key == owner then {Trim(name)} else {}
  {
    EntityFields(kind, name);
  }

  lemma EntityOffers(kind: string, name: string, owner: string, key: string, lower: Lower)
    requires JsonLdAgreement.Names(kind, owner, lower) && owner in SITE_KEYS && !Blank(name)
    ensures BlockOffers(Entity(kind, name), key, lower) == if key == owner then {Trim(name)} else {}
  {
    EntityWalk(kind, name, owner, lower);
    EntityNamings(kind, name, owner, key, lower);
  }

  lemma {:induction false} OnlyChoice(
      tokens: seq<Token>, precedence: seq<string>, key: string, names: set<string>, lower: Lower, a: Decode)
    requires key in precedence && names != {}
    requires forall k :: Choices(tokens, k, lower, a) == if k == key then names else {}
    ensures ListChoices(tokens, precedence, lower, a) == names
    decreases |precedence|
  {
    if precedence[0] == key {
    } else {
      OnlyChoice(tokens, precedence[1..], key, names, lower, a);
    }
  }

  // A page that names one organisation, and nothing else, has that name as its platform in
  // every reading.
  lemma OneOrganizationIsSettled(attrs: seq<Attr>, raw: string, name: string, lower: Lower, n: Normalisers)
    requires IsJsonLdScript(attrs, lower) && JsonLdAgreement.Names("Organization", ORGANIZATION_NAME, lower)
    requires !Blank(raw) && !Blank(name)
    ensures ListChoices(OneBlock(attrs, raw), PLATFORM, lower, Always(Entity("Organization", name))) == {Trim(name)}
    ensures PlatformIsSettled(OneBlock(attrs, raw), lower, Always(Entity("Organization", name)), n)
  {
    var v, page := Entity("Organization", name), OneBlock(attrs, raw);
    EntityFields("Organization", name);
    SameToItself(v);
    forall key ensures Choices(page, key, lower, Always(v)) == if key == ORGANIZATION_NAME then {Trim(name)} else {} {
      OneBlockChoices(attrs, raw, key, lower, v);
      EntityOffers("Organization", name, ORGANIZATION_NAME, key, lower);
    }
    WebSiteIsListed();
    OnlyChoice(page, PLATFORM, ORGANIZATION_NAME, {Trim(name)}, lower, Always(v));
    PlatformIsSettledExactly(page, lower, Always(v), n);
  }
}
