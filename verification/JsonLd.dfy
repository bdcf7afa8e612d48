/**
  The JSON-LD walk: reading one decoded block into the candidate map.

  A decoded object is listed in the order in which the runtime happens to iterate it. The
  order carries no meaning, and `SameValue` says when two listings are of the same value.
  `lower` stands for the runtime's lower-casing.
*/
module JsonLd {
  import opened Options
  import opened Text
  import opened JsonValues

  type Lower = string -> string
  type Candidates = map<string, string>

  // ----- reading a decoded object -----

  function Keys(fields: seq<Field>): (keys: set<string>) {
    set f | f in fields :: f.key
  }

  function Get(fields: seq<Field>, key: string): (v: Option<Json>)
    ensures v.Some? <==> key in Keys(fields)
    ensures v.Some? ==> Field(key, v.value) in fields
  {
    if fields == [] then None
    else if fields[0].key == key then
      assert fields[0] == Field(key, fields[0].value);
      Some(fields[0].value)
    else
      assert fields == [fields[0]] + fields[1..];
      Get(fields[1..], key)
  }

  // The part after the last of the separators that qualify a type name.
  function AfterLastSeparator(s: string): string {
    if s == "" then ""
    else if s[|s| - 1] in ['/', '#', ':'] then ""
    else AfterLastSeparator(s[..|s| - 1]) + [s[|s| - 1]]
  }

  function TypeName(raw: string, lower: Lower): string {
    var name := Trim(raw);
    if name == "" then "" else lower(Trim(AfterLastSeparator(name)))
  }

  function FirstTypeName(items: seq<Json>, lower: Lower): string {
    if items == [] then ""
    else if items[0].Str? && TypeName(items[0].s, lower) != "" then TypeName(items[0].s, lower)
    else FirstTypeName(items[1..], lower)
  }

  function TypeOf(fields: seq<Field>, lower: Lower): string {
    match Get(fields, "@type")
    case Some(Str(s)) => TypeName(s, lower)
    case Some(List(items)) => FirstTypeName(items, lower)
    case _ => ""
  }

  // A scalar property: a plain string, or the {"@value": ...} form of one.
  function StringOf(fields: seq<Field>, key: string): string {
    match Get(fields, key)
    case Some(Str(s)) => s
    case Some(Object(inner)) =>
      (match Get(inner, "@value") case Some(Str(s)) => s case _ => "")
    case _ => ""
  }

  function FirstName(items: seq<Json>): string {
    if items == [] then ""
    else if items[0].Object? && StringOf(items[0].fields, "name") != "" then StringOf(items[0].fields, "name")
    else FirstName(items[1..])
  }

  // The name of the entity a property refers to.
  function NestedName(fields: seq<Field>, key: string): string {
    match Get(fields, key)
    case Some(Str(s)) => s
    case Some(Object(inner)) => StringOf(inner, "name")
    case Some(List(items)) => FirstName(items)
    case _ => ""
  }

  function FirstNonBlank(a: string, b: string): string {
    if !Blank(a) then a else if !Blank(b) then b else ""
  }

  function ObjectImage(fields: seq<Field>): string {
    FirstNonBlank(StringOf(fields, "url"), StringOf(fields, "contentUrl"))
  }

  function FirstImage(items: seq<Json>): string {
    if items == [] then ""
    else if items[0].Str? && !Blank(items[0].s) then items[0].s
    else if items[0].Object? && ObjectImage(items[0].fields) != "" then ObjectImage(items[0].fields)
    else FirstImage(items[1..])
  }

  function ImageOf(fields: seq<Field>): string {
    match Get(fields, "image")
    case Some(Str(s)) => s
    case Some(Object(inner)) => ObjectImage(inner)
    case Some(List(items)) => FirstImage(items)
    case _ => ""
  }

  // ----- the candidates -----

  const ORGANIZATION_NAME := "jsonld:organization.name"
  const WEBSITE_NAME := "jsonld:website.name"

  // The two candidates that are named from inside unordered properties.
  const SITE_KEYS := {ORGANIZATION_NAME, WEBSITE_NAME}

  // The first non-blank value for a key wins.
  function Record(d: Candidates, key: string, value: string): Candidates {
    var trimmed := Trim(value);
    if key == "" || trimmed == "" || key in d then d else d[key := trimmed]
  }

  // What an object says about the page itself.
  function RecordPage(d: Candidates, fields: seq<Field>): Candidates {
    RecordValues(d, StringOf(fields, "headline"), StringOf(fields, "description"), StringOf(fields, "name"),
                 StringOf(fields, "url"), ImageOf(fields), NestedName(fields, "publisher"),
                     NestedName(fields, "author"))
  }

  function RecordValues(d: Candidates, headline: string, description: string, name: string, url: string, image: string,
                        publisher: string, author: string): Candidates
  {
    var d1 := Record(d, "jsonld:headline", headline);
    var d2 := Record(d1, "jsonld:description", description);
    var d3 := Record(d2, "jsonld:name", name);
    var d4 := Record(d3, "jsonld:url", url);
    var d5 := Record(d4, "jsonld:image", image);
    var d6 := Record(d5, "jsonld:publisher.name", publisher);
    Record(d6, "jsonld:author.name", author)
  }

  // The properties that the walk of the remaining properties passes over.
  predicate Skipped(key: string) {
    key in ["publisher", "author", "image", "@graph"]
  }

  // `reference` is set inside a property that names another entity.
  function Walk(d: Candidates, node: Json, reference: bool, lower: Lower): Candidates
    decreases node, 2
  {
    match node
    case Object(fields) => WalkObject(d, node, reference, lower)
    case List(items) => WalkItems(d, items, reference, lower)
    case _ => d
  }

  function WalkItems(d: Candidates, items: seq<Json>, reference: bool, lower: Lower): Candidates
    decreases items, 0
  {
    if items == [] then d
    else
      var n := |items| - 1;
      Walk(WalkItems(d, items[..n], reference, lower), items[n], reference, lower)
  }

  function WalkObject(d: Candidates, node: Json, reference: bool, lower: Lower): Candidates
    requires node.Object?
    decreases node, 1
  {
    var fields := node.fields;
    var kind := TypeOf(fields, lower);
    if kind == "organization" then Record(d, ORGANIZATION_NAME, StringOf(fields, "name"))
    else if kind == "website" then Record(d, WEBSITE_NAME, StringOf(fields, "name"))
    else WalkRest(WalkGraph(if reference then d else RecordPage(d, fields), node, reference, lower), fields, lower)
  }

  function WalkGraph(d: Candidates, node: Json, reference: bool, lower: Lower): Candidates
    requires node.Object?
    decreases node, 0
  {
    match Get(node.fields, "@graph")
    case None => d
    case Some(g) => Walk(d, g, reference, lower)
  }

  function WalkRest(d: Candidates, fields: seq<Field>, lower: Lower): Candidates
    decreases fields, 0
  {
    if fields == [] then d
    else
      var n := |fields| - 1;
      var before := WalkRest(d, fields[..n], lower);
      if Skipped(fields[n].key) || !fields[n].value.Object? then before
      else Walk(before, fields[n].value, true, lower)
  }

  // ----- the document, written in place -----

  class Document {
    var candidates: Candidates

    constructor ()
      ensures candidates == map[]
    {
      candidates := map[];
    }

    method Set(key: string, value: string)
      modifies this
      ensures candidates == Record(old(candidates), key, value)
    {
      if key == "" {
        return;
      }
      var trimmed := Trim(value);
      if trimmed == "" {
        return;
      }
      if key in candidates {
        return;
      }
      candidates := candidates[key := trimmed];
    }

    method WalkJsonLd(node: Json, reference: bool, lower: Lower)
      modifies this
      ensures candidates == Walk(old(candidates), node, reference, lower)
      decreases node
    {
      match node
      case Object(fields) => WalkJsonLdObject(node, reference, lower);
      case List(items) =>
        for k := 0 to |items|
          invariant candidates == WalkItems(old(candidates), items[..k], reference, lower)
        {
          WalkJsonLd(items[k], reference, lower);
          assert items[..k + 1][..k] == items[..k];
        }
        assert items[..|items|] == items;
      case _ =>
    }

    method SetPage(fields: seq<Field>)
      modifies this
      ensures candidates == RecordPage(old(candidates), fields)
    {
      Set("jsonld:headline", StringOf(fields, "headline"));
      Set("jsonld:description", StringOf(fields, "description"));
      Set("jsonld:name", StringOf(fields, "name"));
      Set("jsonld:url", StringOf(fields, "url"));
      Set("jsonld:image", ImageOf(fields));
      Set("jsonld:publisher.name", NestedName(fields, "publisher"));
      Set("jsonld:author.name", NestedName(fields, "author"));
    }

    method WalkJsonLdObject(node: Json, reference: bool, lower: Lower)
      requires node.Object?
      modifies this
      ensures candidates == WalkObject(old(candidates), node, reference, lower)
      decreases node, 0
    {
      var fields := node.fields;
      var kind := TypeOf(fields, lower);
      if kind == "organization" {
        Set(ORGANIZATION_NAME, StringOf(fields, "name"));
        return;
      } else if kind == "website" {
        Set(WEBSITE_NAME, StringOf(fields, "name"));
        return;
      }
      if !reference {
        SetPage(fields);
      }
      var graph := Get(fields, "@graph");
      if graph.Some? {
        WalkJsonLd(graph.value, reference, lower);
      }
      ghost var before := candidates;
      for k := 0 to |fields|
        invariant candidates == WalkRest(before, fields[..k], lower)
      {
        if !Skipped(fields[k].key) && fields[k].value.Object? {
          WalkJsonLd(fields[k].value, true, lower);
        }
        assert fields[..k + 1][..k] == fields[..k];
      }
      assert fields[..|fields|] == fields;
    }
  }
}
