/**
  What the markup of a page says, kind by kind and in its own words: meta tags, links, the
  title element and JSON-LD blocks, and in which order the fields of the result prefer them.
*/
module PageSources {
  import opened Options
  import opened Text
  import opened JsonValues
  import opened JsonLd
  import opened SiteNames
  import opened JsonLdSources
  import opened PageExtraction

  // ----- the order of preference -----

  // The candidates have something to say under the key.
  ghost predicate Speaks(d: Candidates, key: string) {
    key in d && exists i :: 0 <= i < |d[key]| && !IsSpace(d[key][i])
  }

  ghost predicate FirstToSpeak(d: Candidates, keys: seq<string>, k: int) {
    0 <= k < |keys| && Speaks(d, keys[k]) && forall j :: 0 <= j < k ==> !Speaks(d, keys[j])
  }

  // `text` is what the first of the keys to say something says, or nothing if none does.
  ghost predicate IsPreferred(d: Candidates, keys: seq<string>, text: string) {
    if exists k :: 0 <= k < |keys| && Speaks(d, keys[k])
    then exists k :: FirstToSpeak(d, keys, k) && text == d[keys[k]]
    else text == ""
  }

  lemma SpeaksUnlessBlank(d: Candidates, key: string)
    ensures Speaks(d, key) <==> key in d && !Blank(d[key])
  {
    if key in d {
      BlankMeansAllSpace(d[key]);
    }
  }

  lemma {:induction false} FirstIsPreferred(d: Candidates, keys: seq<string>)
    ensures IsPreferred(d, keys, FirstCandidate(d, keys))
    decreases |keys|
  {
    if keys == [] {
    } else {
      SpeaksUnlessBlank(d, keys[0]);
      if Speaks(d, keys[0]) {
        assert FirstToSpeak(d, keys, 0);
      } else {
        FirstIsPreferred(d, keys[1..]);
        LaterIsPreferred(d, keys, FirstCandidate(d, keys[1..]));
      }
    }
  }

  lemma LaterIsPreferred(d: Candidates, keys: seq<string>, text: string)
    requires keys != [] && !Speaks(d, keys[0]) && IsPreferred(d, keys[1..], text)
    ensures IsPreferred(d, keys, text)
  {
    if k :| 0 <= k < |keys| && Speaks(d, keys[k]) {
      assert keys[1..][k - 1] == keys[k];
      var j :| FirstToSpeak(d, keys[1..], j) && text == d[keys[1..][j]];
      forall i | 0 <= i < j + 1 ensures !Speaks(d, keys[i]) {
        if i > 0 {
          assert keys[1..][i - 1] == keys[i];
        }
      }
      assert FirstToSpeak(d, keys, j + 1);
    }
  }

  lemma PreferredIsUnique(d: Candidates, keys: seq<string>, x: string, y: string)
    requires IsPreferred(d, keys, x) && IsPreferred(d, keys, y)
    ensures x == y
  {
  }

  // Which source each field is taken from.
  lemma TextsAreTakenFrom(d: Candidates, n: Normalisers, text: string)
    ensures var m := SelectMetadata(d, n);
            && (IsPreferred(d, ["og:title", "twitter:title", "<title>", "jsonld:headline", "jsonld:name"], text)
                ==> m.title == n.text(text))
            && (IsPreferred(d, ["og:description", "twitter:description", "description", "jsonld:description"], text)
                ==> m.description == n.text(text))
            && (IsPreferred(d, ["author", "og:author", "jsonld:author.name"], text) ==> m.author == n.text(text))
  {
    FirstIsPreferred(d, TITLE);
    FirstIsPreferred(d, DESCRIPTION);
    FirstIsPreferred(d, AUTHOR);
  }

  lemma SitesAreTakenFrom(d: Candidates, n: Normalisers, text: string)
    ensures var m := SelectMetadata(d, n);
            && (IsPreferred(d, ["application-name", "jsonld:publisher.name", "jsonld:organization.name",
                                "jsonld:website.name", "og:site_name"], text)
                ==> m.platform == n.text(text))
            && (IsPreferred(d, ["og:site_name", "application-name", "jsonld:website.name", "jsonld:publisher.name"],
                            text)
                ==> m.siteName == n.text(text))
  {
    FirstIsPreferred(d, PLATFORM);
    FirstIsPreferred(d, SITE_NAME);
  }

  lemma UrlsAreTakenFrom(d: Candidates, n: Normalisers, url: string)
    ensures var m := SelectMetadata(d, n);
            && (IsPreferred(d, ["og:image", "twitter:image", "twitter:image:src", "jsonld:image"], url)
                ==> m.imageURL == n.url(url))
            && (IsPreferred(d, ["<link rel=canonical>", "og:url", "jsonld:url"], url)
                ==> m.canonicalURL == n.url(url))
  {
    FirstIsPreferred(d, IMAGE);
    FirstIsPreferred(d, CANONICAL);
  }

  // ----- attributes -----

  ghost predicate FirstWithKey(attrs: seq<Attr>, key: string, i: int) {
    0 <= i < |attrs| && attrs[i].key == key && forall j :: 0 <= j < i ==> attrs[j].key != key
  }

  lemma {:induction false} FirstValIs(attrs: seq<Attr>, key: string, i: int)
    requires FirstWithKey(attrs, key, i)
    ensures FirstVal(attrs, key) == Some(attrs[i].val)
    decreases |attrs|
  {
    if i > 0 {
      forall j | 0 <= j < i - 1 ensures attrs[1..][j].key != key {
        assert attrs[1..][j] == attrs[j + 1];
      }
      FirstValIs(attrs[1..], key, i - 1);
    }
  }

  predicate NamesKey(a: Attr) {
    a.key == "name" || a.key == "property" || a.key == "itemprop"
  }

  ghost predicate LastNaming(attrs: seq<Attr>, i: int) {
    0 <= i < |attrs| && NamesKey(attrs[i]) && forall j :: i < j < |attrs| ==> !NamesKey(attrs[j])
  }

  lemma {:induction false} MetaKeyIs(attrs: seq<Attr>, i: int, lower: Lower)
    requires LastNaming(attrs, i)
    ensures MetaKey(attrs, lower) == lower(Trim(attrs[i].val))
    decreases |attrs|
  {
    if i < |attrs| - 1 {
      assert !NamesKey(attrs[|attrs| - 1]);
      MetaKeyIs(attrs[..|attrs| - 1], i, lower);
    }
  }

  // A meta tag: the last of its naming attributes, trimmed and in lower case, names what the
  // first of its contents is said of. One that names nothing, or has no content, says nothing.
  lemma MetaSays(s: Scan, k: nat, attrs: seq<Attr>, i: int, j: int, lower: Lower, decode: Decode)
    requires LastNaming(attrs, i) && FirstWithKey(attrs, "content", j)
    requires lower(Trim(attrs[i].val)) != ""
    ensures var t := Consume(s, k, StartTag("meta", attrs), lower, decode);
            && Fills(s.found, lower(Trim(attrs[i].val)), attrs[j].val, t.found)
            && t == s.(found := t.found)
  {
    MetaKeyIs(attrs, i, lower);
    FirstValIs(attrs, "content", j);
    RecordFills(s.found, lower(Trim(attrs[i].val)), attrs[j].val);
  }

  // A link: its first address is the canonical one if any of its relations includes that word.
  lemma LinkSays(s: Scan, k: nat, attrs: seq<Attr>, i: int, j: int, lower: Lower, decode: Decode)
    requires 0 <= i < |attrs| && attrs[i].key == "rel" && HasWord(lower(attrs[i].val), "canonical")
    requires FirstWithKey(attrs, "href", j)
    ensures var t := Consume(s, k, StartTag("link", attrs), lower, decode);
            && Fills(s.found, "<link rel=canonical>", attrs[j].val, t.found)
            && t == s.(found := t.found)
  {
    WordsOfWhole(lower(attrs[i].val), "canonical");
    FirstValIs(attrs, "href", j);
    RecordFills(s.found, "<link rel=canonical>", attrs[j].val);
  }

  lemma OtherLinksSayNothing(s: Scan, k: nat, attrs: seq<Attr>, lower: Lower, decode: Decode)
    requires forall i :: 0 <= i < |attrs| && attrs[i].key == "rel" ==> !HasWord(lower(attrs[i].val), "canonical")
    ensures Consume(s, k, StartTag("link", attrs), lower, decode) == s
  {
    forall i | 0 <= i < |attrs| && attrs[i].key == "rel"
      ensures "canonical" !in Words(lower(attrs[i].val), "")
    {
      WordsOfWhole(lower(attrs[i].val), "canonical");
    }
  }

  // ----- words -----

  // `w` stands at `i`, with whitespace or an end of `s` on either side.
  ghost predicate WordAt(s: string, w: string, i: int) {
    && 0 <= i && i + |w| <= |s| && s[i..i + |w|] == w
    && (i == 0 || IsSpace(s[i - 1])) && (i + |w| == |s| || IsSpace(s[i + |w|]))
  }

  ghost predicate HasWord(s: string, w: string) {
    exists i :: WordAt(s, w, i)
  }

  ghost predicate IsWord(w: string) {
    w != "" && forall i :: 0 <= i < |w| ==> !IsSpace(w[i])
  }

  ghost predicate NoSpaceIn(s: string) {
    forall i :: 0 <= i < |s| ==> !IsSpace(s[i])
  }

  lemma LoneWord(word: string, w: string)
    requires NoSpaceIn(word) && IsWord(w)
    ensures HasWord(word, w) <==> w == word
  {
    if i :| WordAt(word, w, i) {
      assert word[0..|w|] == w;
    }
    if w == word {
      assert WordAt(word, w, 0);
    }
  }

  lemma SpaceIsOutside(s: string, w: string, i: int, m: int)
    requires WordAt(s, w, i) && IsWord(w) && 0 <= m < |s| && IsSpace(s[m])
    ensures m < i || i + |w| <= m
  {
    assert forall k :: i <= k < i + |w| ==> s[k] == s[i..i + |w|][k - i];
  }

  lemma WordBeforeSpace(word: string, c: char, rest: string, w: string, i: int)
    requires NoSpaceIn(word) && IsSpace(c) && IsWord(w) && WordAt(word + [c] + rest, w, i)
    ensures w == word || WordAt(rest, w, i - |word| - 1)
  {
    var s := word + [c] + rest;
    assert s[|word|] == c;
    assert forall k :: 0 <= k < |word| ==> s[k] == word[k];
    SpaceIsOutside(s, w, i, |word|);
    if i > |word| {
      assert s[i..i + |w|] == rest[i - |word| - 1..i - |word| - 1 + |w|];
    } else {
      assert i == 0 && |w| == |word|;
      assert s[0..|word|] == word;
    }
  }

  lemma WordItself(word: string, c: char, rest: string)
    requires IsSpace(c)
    ensures WordAt(word + [c] + rest, word, 0)
  {
    var s := word + [c] + rest;
    assert s[0..|word|] == word && s[|word|] == c;
  }

  lemma LaterWord(word: string, c: char, rest: string, w: string, i: int)
    requires IsSpace(c) && WordAt(rest, w, i)
    ensures WordAt(word + [c] + rest, w, |word| + 1 + i)
  {
    var s, k := word + [c] + rest, |word| + 1 + i;
    assert s[|word| + 1..] == rest;
    assert s[k..k + |w|] == rest[i..i + |w|];
  }

  lemma WordThenSpace(word: string, c: char, rest: string, w: string)
    requires NoSpaceIn(word) && IsSpace(c) && IsWord(w)
    ensures HasWord(word + [c] + rest, w) <==> w == word || HasWord(rest, w)
  {
    if i :| WordAt(word + [c] + rest, w, i) {
      WordBeforeSpace(word, c, rest, w, i);
    }
    if w == word {
      WordItself(word, c, rest);
    }
    if i :| WordAt(rest, w, i) {
      LaterWord(word, c, rest, w, i);
    }
  }

  // The words of a text are what stands in it between whitespace.
  lemma {:induction false} WordsAreWords(s: string, word: string, w: string)
    requires NoSpaceIn(word) && IsWord(w)
    ensures w in Words(s, word) <==> HasWord(word + s, w)
    decreases |s|
  {
    if s == "" {
      assert word + s == word;
      LoneWord(word, w);
    } else if IsSpace(s[0]) {
      WordsAreWords(s[1..], "", w);
      WordThenSpace(word, s[0], s[1..], w);
      assert word + [s[0]] + s[1..] == word + s;
      assert "" + s[1..] == s[1..];
    } else {
      WordsAreWords(s[1..], word + [s[0]], w);
      assert word + [s[0]] + s[1..] == word + s;
    }
  }

  lemma WordsOfWhole(s: string, w: string)
    requires IsWord(w)
    ensures w in Words(s, "") <==> HasWord(s, w)
  {
    WordsAreWords(s, "", w);
    assert "" + s == s;
  }

  // ----- the title element -----

  predicate Opens(token: Token, name: string) {
    token.StartTag? && token.name == name
  }

  function TextOf(token: Token): string {
    match token case TextToken(text) => text case _ => ""
  }

  // The text in a stretch of the page.
  function Texts(tokens: seq<Token>): string {
    if tokens == [] then "" else Texts(tokens[..|tokens| - 1]) + TextOf(tokens[|tokens| - 1])
  }

  lemma MoreText(tokens: seq<Token>, o: int)
    requires 0 <= o < |tokens| - 1
    ensures Texts(tokens[o + 1..]) == Texts(tokens[..|tokens| - 1][o + 1..]) + TextOf(tokens[|tokens| - 1])
  {
    var inside := tokens[o + 1..];
    assert inside[..|inside| - 1] == tokens[..|tokens| - 1][o + 1..];
  }

  // A title ended at `e`, or the page begins there, and none has begun since.
  ghost predicate NoTitleSince(tokens: seq<Token>, e: int) {
    && -1 <= e < |tokens| && (e >= 0 ==> tokens[e] == EndTag("title"))
    && forall i :: e < i < |tokens| ==> !Opens(tokens[i], "title")
  }

  // After that a title began at `o`, and has not ended.
  ghost predicate TitleSince(tokens: seq<Token>, e: int, o: int) {
    && e < o && 0 <= o < |tokens| && NoTitleSince(tokens[..o], e) && Opens(tokens[o], "title")
    && forall i :: o < i < |tokens| ==> tokens[i] != EndTag("title")
  }

  lemma {:induction false} OutsideTitle(tokens: seq<Token>, e: int, lower: Lower, decode: Decode)
    requires NoTitleSince(tokens, e)
    ensures !ScanAll(tokens, lower, decode).inTitle
    decreases |tokens|
  {
    var n := |tokens| - 1;
    if e < n {
      assert !Opens(tokens[n], "title");
      OutsideTitle(tokens[..n], e, lower, decode);
    }
  }

  lemma InsideGathers(s: Scan, k: nat, token: Token, lower: Lower, decode: Decode)
    requires s.inTitle && token != EndTag("title")
    ensures var t := Consume(s, k, token, lower, decode); t.inTitle && t.title == s.title + TextOf(token)
  {
    assert s.title + "" == s.title;
  }

  lemma TitleEnds(s: Scan, k: nat, lower: Lower, decode: Decode)
    requires s.inTitle
    ensures Fills(s.found, "<title>", s.title, Consume(s, k, EndTag("title"), lower, decode).found)
  {
    RecordFills(s.found, "<title>", s.title);
  }

  lemma {:induction false} InsideTitle(tokens: seq<Token>, e: int, o: int, lower: Lower, decode: Decode)
    requires TitleSince(tokens, e, o)
    ensures var s := ScanAll(tokens, lower, decode); s.inTitle && s.title == Texts(tokens[o + 1..])
    decreases |tokens|
  {
    var n := |tokens| - 1;
    if o == n {
      OutsideTitle(tokens[..n], e, lower, decode);
    } else {
      assert tokens[..n][..o] == tokens[..o];
      InsideTitle(tokens[..n], e, o, lower, decode);
      MoreText(tokens, o);
      InsideGathers(ScanAll(tokens[..n], lower, decode), n, tokens[n], lower, decode);
    }
  }

  lemma ScanStep(tokens: seq<Token>, k: nat, lower: Lower, decode: Decode)
    requires k < |tokens|
    ensures ScanAll(tokens[..k + 1], lower, decode)
         == Consume(ScanAll(tokens[..k], lower, decode), k, tokens[k], lower, decode)
  {
    assert tokens[..k + 1][..k] == tokens[..k];
  }

  lemma TextsUpTo(tokens: seq<Token>, o: int, k: nat)
    requires 0 <= o < k <= |tokens|
    ensures Texts(tokens[..k][o + 1..]) == Texts(tokens[o + 1..k])
  {
    assert tokens[..k][o + 1..] == tokens[o + 1..k];
  }

  // A title element says all the text since it began; a second beginning inside it is nothing.
  lemma TitleSays(tokens: seq<Token>, e: int, o: int, k: nat, lower: Lower, decode: Decode)
    requires k < |tokens| && tokens[k] == EndTag("title") && TitleSince(tokens[..k], e, o)
    ensures Fills(ScanAll(tokens[..k], lower, decode).found, "<title>", Texts(tokens[o + 1..k]),
                  ScanAll(tokens[..k + 1], lower, decode).found)
  {
    InsideTitle(tokens[..k], e, o, lower, decode);
    TextsUpTo(tokens, o, k);
    ScanStep(tokens, k, lower, decode);
    TitleEnds(ScanAll(tokens[..k], lower, decode), k, lower, decode);
  }

  // ----- JSON-LD blocks -----

  // The first type of the script, trimmed, in lower case and up to a semicolon.
  lemma {:induction false} BeforeSemicolonIs(s: string, i: nat)
    requires i < |s| && s[i] == ';' && forall j :: 0 <= j < i ==> s[j] != ';'
    ensures BeforeSemicolon(s) == s[..i]
    decreases |s|
  {
    if i > 0 {
      assert forall j :: 0 <= j < i - 1 ==> s[1..][j] == s[j + 1];
      BeforeSemicolonIs(s[1..], i - 1);
      assert [s[0]] + s[1..][..i - 1] == s[..i];
    }
  }

  lemma ScriptIsJsonLd(attrs: seq<Attr>, j: int, i: nat, lower: Lower)
    requires FirstWithKey(attrs, "type", j)
    ensures var value := lower(Trim(attrs[j].val));
            && (';' !in value ==> (IsJsonLdScript(attrs, lower) <==> value == "application/ld+json"))
            && (i < |value| && value[i] == ';' && (forall m :: 0 <= m < i ==> value[m] != ';') ==>
                  (IsJsonLdScript(attrs, lower) <==> Trim(value[..i]) == "application/ld+json"))
  {
    FirstValIs(attrs, "type", j);
    var value := lower(Trim(attrs[j].val));
    if i < |value| && value[i] == ';' && (forall m :: 0 <= m < i ==> value[m] != ';') {
      BeforeSemicolonIs(value, i);
    }
  }

  lemma InsideScript(tokens: seq<Token>, e: int, k: nat, attrs: seq<Attr>, raw: string, lower: Lower, decode: Decode)
    requires k + 1 < |tokens| && NoTitleSince(tokens[..k], e) && IsJsonLdScript(attrs, lower)
    requires tokens[k] == StartTag("script", attrs) && tokens[k + 1] == TextToken(raw)
    ensures ScanAll(tokens[..k + 2], lower, decode)
         == ScanAll(tokens[..k], lower, decode).(inJsonLd := true, json := raw)
  {
    OutsideTitle(tokens[..k], e, lower, decode);
    assert tokens[..k + 1][..k] == tokens[..k] && tokens[..k + 2][..k + 1] == tokens[..k + 1];
    assert "" + raw == raw;
  }

  // A JSON-LD block outside any title: its text is decoded and the value walked; a text that is
  // blank, or is not JSON, is passed over.
  lemma BlockSays(tokens: seq<Token>, e: int, k: nat, attrs: seq<Attr>, raw: string, lower: Lower, decode: Decode)
    requires k + 2 < |tokens| && NoTitleSince(tokens[..k], e) && IsJsonLdScript(attrs, lower)
    requires tokens[k] == StartTag("script", attrs) && tokens[k + 1] == TextToken(raw)
    requires tokens[k + 2] == EndTag("script")
    ensures var before, after := ScanAll(tokens[..k], lower, decode), ScanAll(tokens[..k + 3], lower, decode);
            && after == before.(inJsonLd := false, json := "", found := after.found)
            && if AllSpace(raw) || decode(k + 2, raw).None? then after.found == before.found
               else after.found == Walk(map[], decode(k + 2, raw).value, false, lower) + before.found
  {
    InsideScript(tokens, e, k, attrs, raw, lower, decode);
    assert tokens[..k + 3][..k + 2] == tokens[..k + 2];
    BlankMeansAllSpace(raw);
    if decode(k + 2, raw).Some? {
      WalkFrom(ScanAll(tokens[..k], lower, decode).found, decode(k + 2, raw).value, false, lower);
    }
  }
}
