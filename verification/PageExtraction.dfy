/**
  Extraction from one page's token stream, and the selection of metadata from what was
  found. Tokenising HTML and decoding JSON text are parameters: a page is the tokens it was
  read as, and `decode` gives each JSON-LD block the value it decodes to, listed in the
  order the runtime iterates it in this run.
*/
module PageExtraction {
  import opened Options
  import opened Text
  import opened JsonValues
  import opened JsonLd
  import opened JsonLdOrder
  import opened JsonLdAgreement

  datatype Attr = Attr(key: string, val: string)

  datatype Token = StartTag(name: string, attrs: seq<Attr>) | EndTag(name: string) | TextToken(text: string)

  datatype ReaderEnd = Eof | ReadFailed

  // The value that the block closed by token `k` decodes to, if it is JSON at all.
  type Decode = (nat, string) -> Option<Json>

  const TITLE_ELEMENT := "<title>"
  const LINK_CANONICAL := "<link rel=canonical>"

  // ----- attributes -----

  // The first attribute with the key decides.
  function FirstVal(attrs: seq<Attr>, key: string): Option<string> {
    if attrs == [] then None
    else if attrs[0].key == key then Some(attrs[0].val)
    else FirstVal(attrs[1..], key)
  }

  function BeforeSemicolon(s: string): string {
    if s == "" || s[0] == ';' then "" else [s[0]] + BeforeSemicolon(s[1..])
  }

  function IsJsonLdScript(attrs: seq<Attr>, lower: Lower): bool {
    match FirstVal(attrs, "type")
    case None => false
    case Some(val) =>
      var value := lower(Trim(val));
      (if ';' in value then Trim(BeforeSemicolon(value)) else value) == "application/ld+json"
  }

  // The last of the naming attributes names the candidate.
  function MetaKey(attrs: seq<Attr>, lower: Lower): string {
    if attrs == [] then ""
    else
      var last := attrs[|attrs| - 1];
      if last.key in ["name", "property", "itemprop"] then lower(Trim(last.val))
      else MetaKey(attrs[..|attrs| - 1], lower)
  }

  function CollectMeta(d: Candidates, attrs: seq<Attr>, lower: Lower): Candidates {
    var key := MetaKey(attrs, lower);
    match FirstVal(attrs, "content")
    case Some(content) => if key == "" then d else Record(d, key, content)
    case None => d
  }

  // The whitespace-separated words of `s`, with `word` the one being read.
  function Words(s: string, word: string): seq<string> {
    if s == "" then (if word == "" then [] else [word])
    else if IsSpace(s[0]) then (if word == "" then [] else [word]) + Words(s[1..], "")
    else Words(s[1..], word + [s[0]])
  }

  predicate IsCanonical(attrs: seq<Attr>, lower: Lower) {
    exists i :: 0 <= i < |attrs| && attrs[i].key == "rel" && "canonical" in Words(lower(attrs[i].val), "")
  }

  function CollectLink(d: Candidates, attrs: seq<Attr>, lower: Lower): Candidates {
    if !IsCanonical(attrs, lower) then d
    else
      match FirstVal(attrs, "href")
      case Some(href) => Record(d, LINK_CANONICAL, href)
      case None => d
  }

  // A block that does not decode is discarded and the page carries on.
  function CollectJsonLd(d: Candidates, k: nat, raw: string, lower: Lower, decode: Decode): Candidates {
    if Blank(raw) then d
    else
      match decode(k, raw)
      case None => d
      case Some(v) => Walk(d, v, false, lower)
  }

  // ----- the token loop -----

  datatype Scan = Scan(inTitle: bool, title: string, inJsonLd: bool, json: string, found: Candidates)

  function Consume(s: Scan, k: nat, token: Token, lower: Lower, decode: Decode): Scan {
    match token
    case StartTag(name, attrs) =>
      if name == "title" then (if s.inTitle then s else s.(inTitle := true, title := ""))
      else if name == "script" then
        (if IsJsonLdScript(attrs, lower) then s.(inJsonLd := true, json := "") else s.(inJsonLd := false))
      else if name == "meta" then s.(found := CollectMeta(s.found, attrs, lower))
      else if name == "link" then s.(found := CollectLink(s.found, attrs, lower))
      else s
    case EndTag(name) =>
      if name == "title" && s.inTitle then
        s.(inTitle := false, found := Record(s.found, TITLE_ELEMENT, s.title), title := "")
      else if name == "script" && s.inJsonLd then
        s.(inJsonLd := false, found := CollectJsonLd(s.found, k, s.json, lower, decode), json := "")
      else s
    case TextToken(text) =>
      if s.inTitle then s.(title := s.title + text)
      else if s.inJsonLd then s.(json := s.json + text)
      else s
  }

  function ScanAll(tokens: seq<Token>, lower: Lower, decode: Decode): Scan {
    if tokens == [] then Scan(false, "", false, "", map[])
    else
      var n := |tokens| - 1;
      Consume(ScanAll(tokens[..n], lower, decode), n, tokens[n], lower, decode)
  }

  method Extract(
      tokens: seq<Token>, end: ReaderEnd, lower: Lower, decode: Decode) returns (result: Result<Candidates, ReaderEnd>)
    ensures result == if end == Eof then Ok(ScanAll(tokens, lower, decode).found) else Err(ReadFailed)
  {
    var doc := new Document();
    var inTitle, title, inJsonLd, json := false, "", false, "";
    for k := 0 to |tokens|
      invariant Scan(inTitle, title, inJsonLd, json, doc.candidates) == ScanAll(tokens[..k], lower, decode)
    {
      assert tokens[..k + 1][..k] == tokens[..k];
      match tokens[k] {
        case StartTag(name, attrs) =>
          if name == "title" {
            if !inTitle {
              inTitle, title := true, "";
            }
          } else if name == "script" {
            inJsonLd := IsJsonLdScript(attrs, lower);
            if inJsonLd {
              json := "";
            }
          } else if name == "meta" {
            var key := MetaKey(attrs, lower);
            var content := FirstVal(attrs, "content");
            if key != "" && content.Some? {
              doc.Set(key, content.value);
            }
          } else if name == "link" {
            var href := FirstVal(attrs, "href");
            if IsCanonical(attrs, lower) && href.Some? {
              doc.Set(LINK_CANONICAL, href.value);
            }
          }
        case EndTag(name) =>
          if name == "title" {
            if inTitle {
              inTitle := false;
              doc.Set(TITLE_ELEMENT, title);
              title := "";
            }
          } else if name == "script" {
            if inJsonLd {
              inJsonLd := false;
              if !Blank(json) {
                var decoded := decode(k, json);
                if decoded.Some? {
                  doc.WalkJsonLd(decoded.value, false, lower);
                }
              }
              json := "";
            }
          }
        case TextToken(text) =>
          if inTitle {
            title := title + text;
          } else if inJsonLd {
            json := json + text;
          }
      }
    }
    assert tokens[..|tokens|] == tokens;
    result := if end == Eof then Ok(doc.candidates) else Err(ReadFailed);
  }

  // ----- selection -----

  const TITLE := ["og:title", "twitter:title", TITLE_ELEMENT, "jsonld:headline", "jsonld:name"]
  const DESCRIPTION := ["og:description", "twitter:description", "description", "jsonld:description"]
  const IMAGE := ["og:image", "twitter:image", "twitter:image:src", "jsonld:image"]
  const CANONICAL := [LINK_CANONICAL, "og:url", "jsonld:url"]
  const PLATFORM := ["application-name", "jsonld:publisher.name", ORGANIZATION_NAME, WEBSITE_NAME, "og:site_name"]
  const SITE_NAME := ["og:site_name", "application-name", WEBSITE_NAME, "jsonld:publisher.name"]
  const AUTHOR := ["author", "og:author", "jsonld:author.name"]

  // The first candidate of the list that says something.
  function FirstCandidate(d: Candidates, precedence: seq<string>): string {
    if precedence == [] then ""
    else if precedence[0] in d && !Blank(d[precedence[0]]) then d[precedence[0]]
    else FirstCandidate(d, precedence[1..])
  }

  datatype Metadata = Metadata(
    title: Option<string>, platform: Option<string>, description: Option<string>,
    imageURL: Option<string>, canonicalURL: Option<string>, siteName: Option<string>, author: Option<string>)

  // Normalising text, and resolving a URL against the page, are functions of the value.
  datatype Normalisers = Normalisers(text: string -> Option<string>, url: string -> Option<string>)

  function SelectMetadata(d: Candidates, n: Normalisers): Metadata {
    Metadata(
      n.text(FirstCandidate(d, TITLE)), n.text(FirstCandidate(d, PLATFORM)), n.text(FirstCandidate(d, DESCRIPTION)),
      n.url(FirstCandidate(d, IMAGE)), n.url(FirstCandidate(d, CANONICAL)), n.text(FirstCandidate(d, SITE_NAME)),
      n.text(FirstCandidate(d, AUTHOR)))
  }

  // ----- the same page, read twice -----

  // Both runs decode every block to the same value, in whatever orders.
  ghost predicate SameDecoding(a: Decode, b: Decode) {
    forall k, raw :: SameLookup(a(k, raw), b(k, raw))
  }

  ghost predicate SameScan(s: Scan, t: Scan) {
    && s.inTitle == t.inTitle && s.title == t.title && s.inJsonLd == t.inJsonLd && s.json == t.json
    && Agree(s.found, t.found)
  }

  lemma BlockKeepsAgreement(d: Candidates, e: Candidates, k: nat, raw: string, lower: Lower, a: Decode, b: Decode)
    requires Agree(d, e) && SameDecoding(a, b)
    ensures Agree(CollectJsonLd(d, k, raw, lower, a), CollectJsonLd(e, k, raw, lower, b))
  {
    var v, w := a(k, raw), b(k, raw);
    assert SameLookup(v, w);
    if v.Some? {
      OrderIndependent(d, e, v.value, w.value, false, lower);
    }
  }

  lemma MetaKeepsAgreement(d: Candidates, e: Candidates, attrs: seq<Attr>, lower: Lower)
    requires Agree(d, e)
    ensures Agree(CollectMeta(d, attrs, lower), CollectMeta(e, attrs, lower))
  {
    RecordKeepsAgreement(d, e, MetaKey(attrs, lower), FirstVal(attrs, "content").GetOr(""));
  }

  lemma LinkKeepsAgreement(d: Candidates, e: Candidates, attrs: seq<Attr>, lower: Lower)
    requires Agree(d, e)
    ensures Agree(CollectLink(d, attrs, lower), CollectLink(e, attrs, lower))
  {
    RecordKeepsAgreement(d, e, LINK_CANONICAL, FirstVal(attrs, "href").GetOr(""));
  }

  lemma TagKeepsSame(s: Scan, t: Scan, k: nat, name: string, attrs: seq<Attr>, lower: Lower, a: Decode, b: Decode)
    requires SameScan(s, t)
    ensures SameScan(Consume(s, k, StartTag(name, attrs), lower, a), Consume(t, k, StartTag(name, attrs), lower, b))
  {
    if name == "meta" {
      MetaKeepsAgreement(s.found, t.found, attrs, lower);
    } else if name == "link" {
      LinkKeepsAgreement(s.found, t.found, attrs, lower);
    }
  }

  lemma EndKeepsSame(s: Scan, t: Scan, k: nat, name: string, lower: Lower, a: Decode, b: Decode)
    requires SameScan(s, t) && SameDecoding(a, b)
    ensures SameScan(Consume(s, k, EndTag(name), lower, a), Consume(t, k, EndTag(name), lower, b))
  {
    BlockKeepsAgreement(s.found, t.found, k, s.json, lower, a, b);
  }

  lemma ConsumeKeepsSame(s: Scan, t: Scan, k: nat, token: Token, lower: Lower, a: Decode, b: Decode)
    requires SameScan(s, t) && SameDecoding(a, b)
    ensures SameScan(Consume(s, k, token, lower, a), Consume(t, k, token, lower, b))
  {
    match token
    case StartTag(name, attrs) => TagKeepsSame(s, t, k, name, attrs, lower, a, b);
    case EndTag(name) => EndKeepsSame(s, t, k, name, lower, a, b);
    case TextToken(_) =>
  }

  lemma {:induction false} PageIsOrderIndependent(tokens: seq<Token>, lower: Lower, a: Decode, b: Decode)
    requires SameDecoding(a, b)
    ensures SameScan(ScanAll(tokens, lower, a), ScanAll(tokens, lower, b))
    decreases |tokens|
  {
    if tokens == [] {
    } else {
      var n := |tokens| - 1;
      PageIsOrderIndependent(tokens[..n], lower, a, b);
      ConsumeKeepsSame(ScanAll(tokens[..n], lower, a), ScanAll(tokens[..n], lower, b), n, tokens[n], lower, a, b);
    }
  }
}
