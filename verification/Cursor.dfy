/**
  Cursor tokens: a versioned payload as JSON in URL-safe base64, the checks that a decoded
  payload passes before it is used, and what a token of this build decodes to.
*/
module Cursor {
  import opened Options
  import opened Base64
  import opened Text
  import opened JsonValues
  import CollectionStore

  type Id = nat
  const NIL: Id := CollectionStore.NIL

  // The instants whose written form has a four-digit year, in microseconds since 1970.
  type Instant = t: int | -62_167_219_200_000_000 <= t < 253_402_300_800_000_000 witness 0

  // The library functions that tokens pass through: printing and parsing JSON, instants and
  // identifiers, and the two foldings, of member names and of display names, to lower case.
  datatype Codec = Codec(
    render: Json -> seq<Byte>, parse: seq<Byte> -> Option<Json>,
    showTime: Instant -> string, readTime: string -> Option<Instant>,
    showId: Id -> string, readId: string -> Option<Id>,
    member: string -> string, lower: string -> string)

  // A value that a JSON text can write exactly: one without fractions.
  predicate IsExact(v: Json) {
    match v
    case Fraction(_) => false
    case List(items) => forall i :: 0 <= i < |items| ==> IsExact(items[i])
    case Object(fields) => forall i :: 0 <= i < |fields| ==> IsExact(fields[i].value)
    case _ => true
  }

  // What is relied on: each parser reads back what its printer wrote, nothing reads the
  // empty string, and the payload's member names are already in lower case.
  ghost predicate Faithful(c: Codec) {
    && (forall v :: IsExact(v) ==> c.parse(c.render(v)) == Some(v)) && c.parse([]) == None
    && (forall t: Instant :: c.readTime(c.showTime(t)) == Some(t)) && c.readTime("") == None
    && (forall i: Id :: c.readId(c.showId(i)) == Some(i))
    && (forall name :: name in ["v", "s", "g", "val", "i"] ==> c.member(name) == name)
  }

  // ----- the envelope -----

  const CURRENT_VERSION := 1

  // Collections are listed under a sort and past a pinned row; saved items are not, and
  // their payload has neither member.
  datatype Shape = CollectionShape | ItemShape

  datatype Payload = Payload(version: int, sort: string, group: Option<int>, value: Option<string>, id: Option<Id>)

  const ZERO := Payload(0, "", None, None, None)

  function OrNull<T>(x: Option<T>, json: T -> Json): Json {
    if x.None? then Null else json(x.value)
  }

  function VersionMember(p: Payload): seq<Field> {
    [Field("v", Whole(p.version))]
  }

  function OrderMembers(p: Payload): seq<Field> {
    [Field("s", Str(p.sort)), Field("g", OrNull(p.group, n => Whole(n)))]
  }

  function PositionMembers(c: Codec, p: Payload): seq<Field> {
    [Field("val", OrNull(p.value, s => Str(s))), Field("i", OrNull(p.id, i => Str(c.showId(i))))]
  }

  function Marshal(c: Codec, shape: Shape, p: Payload): Json {
    Object(VersionMember(p) + ((if shape == CollectionShape then OrderMembers(p) else []) + PositionMembers(c, p)))
  }

  function EncodePayload(c: Codec, shape: Shape, p: Payload): string {
    Encode(c.render(Marshal(c, shape, p)), UrlSafe)
  }

  predicate IsInt64(n: int) {
    -0x8000_0000_0000_0000 <= n < 0x8000_0000_0000_0000
  }

  // One member of the object. Null leaves a plain member alone and empties an optional one;
  // a value of another type fails the whole decoding; an unknown member is passed over.
  function Assign(c: Codec, shape: Shape, p: Payload, f: Field): Option<Payload> {
    var name := c.member(f.key);
    if name == "v" then
      match f.value
      case Null => Some(p)
      case Whole(n) => if IsInt64(n) then Some(p.(version := n)) else None
      case _ => None
    else if name == "s" && shape == CollectionShape then
      match f.value
      case Null => Some(p)
      case Str(s) => Some(p.(sort := s))
      case _ => None
    else if name == "g" && shape == CollectionShape then
      match f.value
      case Null => Some(p.(group := None))
      case Whole(n) => if IsInt64(n) then Some(p.(group := Some(n))) else None
      case _ => None
    else if name == "val" then
      match f.value
      case Null => Some(p.(value := None))
      case Str(s) => Some(p.(value := Some(s)))
      case _ => None
    else if name == "i" then
      match f.value
      case Null => Some(p.(id := None))
      case Str(s) =>
        (match c.readId(s)
         case Some(i) => Some(p.(id := Some(i)))
         case None => None)
      case _ => None
    else Some(p)
  }

  // Members are read in turn, so the last of several with one name is the one that stays.
  function AssignAll(c: Codec, shape: Shape, p: Payload, fields: seq<Field>): Option<Payload>
    decreases |fields|
  {
    if fields == [] then Some(p)
    else
      match Assign(c, shape, p, fields[0])
      case None => None
      case Some(q) => AssignAll(c, shape, q, fields[1..])
  }

  function Unmarshal(c: Codec, shape: Shape, v: Json): Option<Payload> {
    match v
    case Null => Some(ZERO)
    case Object(fields) => AssignAll(c, shape, ZERO, fields)
    case _ => None
  }

  datatype Failure = Malformed | UnsupportedVersion

  function DecodeVersioned(c: Codec, shape: Shape, token: string): Result<Payload, Failure> {
    match Decode(token, UrlSafe)
    case None => Err(Malformed)
    case Some(bytes) =>
      match c.parse(bytes)
      case None => Err(Malformed)
      case Some(v) =>
        match Unmarshal(c, shape, v)
        case None => Err(Malformed)
        case Some(p) => if p.version == CURRENT_VERSION then Ok(p) else Err(UnsupportedVersion)
  }

  // A payload with no more than its shape holds, and numbers that fit.
  predicate Fits(shape: Shape, p: Payload) {
    && IsInt64(p.version) && (p.group.Some? ==> IsInt64(p.group.value))
    && (shape == ItemShape ==> p.sort == "" && p.group == None)
  }

  lemma OneMember(c: Codec, shape: Shape, p: Payload, f: Field, q: Payload)
    requires Assign(c, shape, p, f) == Some(q)
    ensures AssignAll(c, shape, p, [f]) == Some(q)
  {
    assert [f][1..] == [];
  }

  lemma {:induction false} OneThenOther(c: Codec, shape: Shape, p: Payload, fs: seq<Field>, gs: seq<Field>, q: Payload)
    requires AssignAll(c, shape, p, fs) == Some(q)
    ensures AssignAll(c, shape, p, fs + gs) == AssignAll(c, shape, q, gs)
    decreases |fs|
  {
    if fs == [] {
      assert fs + gs == gs;
    } else {
      OneThenOther(c, shape, Assign(c, shape, p, fs[0]).value, fs[1..], gs, q);
      assert (fs + gs)[1..] == fs[1..] + gs;
    }
  }

  lemma TwoMembers(c: Codec, shape: Shape, p: Payload, f: Field, g: Field, q: Payload, r: Payload)
    requires Assign(c, shape, p, f) == Some(q) && Assign(c, shape, q, g) == Some(r)
    ensures AssignAll(c, shape, p, [f, g]) == Some(r)
  {
    OneMember(c, shape, p, f, q);
    OneMember(c, shape, q, g, r);
    OneThenOther(c, shape, p, [f], [g], q);
    assert [f] + [g] == [f, g];
  }

  lemma ReadsVersion(c: Codec, shape: Shape, p: Payload)
    requires Faithful(c) && IsInt64(p.version)
    ensures AssignAll(c, shape, ZERO, VersionMember(p)) == Some(ZERO.(version := p.version))
  {
    OneMember(c, shape, ZERO, VersionMember(p)[0], ZERO.(version := p.version));
  }

  lemma ReadsOrder(c: Codec, p: Payload, q: Payload)
    requires Faithful(c) && (p.group.Some? ==> IsInt64(p.group.value))
    ensures AssignAll(c, CollectionShape, q, OrderMembers(p)) == Some(q.(sort := p.sort, group := p.group))
  {
    TwoMembers(c, CollectionShape, q, OrderMembers(p)[0], OrderMembers(p)[1],
               q.(sort := p.sort), q.(sort := p.sort, group := p.group));
  }

  // The members that only a collection payload has are nothing to an item payload.
  lemma PassesOverOrder(c: Codec, p: Payload, q: Payload)
    requires Faithful(c)
    ensures AssignAll(c, ItemShape, q, OrderMembers(p)) == Some(q)
  {
    TwoMembers(c, ItemShape, q, OrderMembers(p)[0], OrderMembers(p)[1], q, q);
  }

  lemma ReadsPosition(c: Codec, shape: Shape, p: Payload, q: Payload)
    requires Faithful(c)
    ensures AssignAll(c, shape, q, PositionMembers(c, p)) == Some(q.(value := p.value, id := p.id))
  {
    TwoMembers(c, shape, q, PositionMembers(c, p)[0], PositionMembers(c, p)[1],
               q.(value := p.value), q.(value := p.value, id := p.id));
  }

  // What a payload written in one shape reads as in the other or in the same.
  lemma UnmarshalReadsBack(c: Codec, written: Shape, read: Shape, p: Payload)
    requires Faithful(c) && Fits(written, p)
    ensures Unmarshal(c, read, Marshal(c, written, p))
         == Some(if read == ItemShape then p.(sort := "", group := None) else p)
  {
    var p1 := ZERO.(version := p.version);
    var order := if written == CollectionShape then OrderMembers(p) else [];
    var p2 := if read == ItemShape then p1 else p1.(sort := p.sort, group := p.group);
    ReadsVersion(c, read, p);
    ReadsOrder(c, p, p1);
    PassesOverOrder(c, p, p1);
    ReadsPosition(c, read, p, p2);
    assert AssignAll(c, read, p1, order) == Some(p2);
    OneThenOther(c, read, p1, order, PositionMembers(c, p), p2);
    OneThenOther(c, read, ZERO, VersionMember(p), order + PositionMembers(c, p), p1);
  }

  lemma MarshalIsExact(c: Codec, shape: Shape, p: Payload)
    ensures IsExact(Marshal(c, shape, p))
  {
    var v := Marshal(c, shape, p);
    assert forall i :: 0 <= i < |v.fields| ==> IsExact(v.fields[i].value);
  }

  // A payload of this version survives the token, and one of any other is told apart. Read
  // as the other shape it loses or lacks the members that only one of them has.
  lemma EnvelopeRoundTrip(c: Codec, written: Shape, read: Shape, p: Payload)
    requires Faithful(c) && Fits(written, p)
    ensures EncodePayload(c, written, p) != ""
    ensures DecodeVersioned(c, read, EncodePayload(c, written, p))
         == if p.version != CURRENT_VERSION then Err(UnsupportedVersion)
            else Ok(if read == ItemShape then p.(sort := "", group := None) else p)
  {
    var v := Marshal(c, written, p);
    MarshalIsExact(c, written, p);
    assert c.parse(c.render(v)) == Some(v);
    RoundTrip(c.render(v), UrlSafe);
    UnmarshalReadsBack(c, written, read, p);
  }

  // ----- the collection cursor -----

  datatype Sort = Newest | Oldest | Name

  function SortText(s: Sort): string {
    match s case Newest => "newest" case Oldest => "oldest" case Name => "name"
  }

  function ParseSort(text: string): (s: Option<Sort>)
    ensures s.Some? ==> SortText(s.value) == text
    ensures s.None? ==> forall t :: SortText(t) != text
  {
    if text == "newest" then Some(Newest)
    else if text == "oldest" then Some(Oldest)
    else if text == "name" then Some(Name)
    else None
  }

  const AFTER_UNSORTED := 0
  const AFTER_ROW := 1

  // A decoded cursor that may be used. The time is read for the sorts by time only.
  datatype Position = AfterUnsorted | AfterRow(value: string, id: Id, time: Option<Instant>)

  datatype Invalid = InvalidCursor

  function DecodeCollectionCursor(c: Codec, token: string, requested: Sort): (r: Result<Position, Invalid>)
    ensures r.Ok? && r.value.AfterRow? ==>
      r.value.value != "" && r.value.id != NIL && (r.value.time.Some? <==> requested != Name)
  {
    match DecodeVersioned(c, CollectionShape, token)
    case Err(_) => Err(InvalidCursor)
    case Ok(p) =>
      if ParseSort(p.sort).None? || p.sort != SortText(requested) || p.group.None? then Err(InvalidCursor)
      else if p.group.value == AFTER_UNSORTED then
        (if p.value.Some? || p.id.Some? then Err(InvalidCursor) else Ok(AfterUnsorted))
      else if p.group.value == AFTER_ROW then
        if p.value.None? || p.id.None? || p.value.value == "" || p.id.value == NIL then Err(InvalidCursor)
        else if requested == Name then Ok(AfterRow(p.value.value, p.id.value, None))
        else
          var time := c.readTime(p.value.value);
          if time.None? then Err(InvalidCursor) else Ok(AfterRow(p.value.value, p.id.value, time))
      else Err(InvalidCursor)
  }

  datatype Row = Row(id: Id, owner: Id, name: string, systemKey: Option<string>, created: Instant)

  predicate IsUnsorted(r: Row) {
    CollectionStore.MarksUnsorted(r.systemKey)
  }

  function CursorName(c: Codec, name: string): string {
    c.lower(Trim(name))
  }

  function CursorValue(c: Codec, sort: Sort, r: Row): string {
    if sort == Name then CursorName(c, r.name) else c.showTime(r.created)
  }

  function CollectionPayload(c: Codec, sort: Sort, last: Row): Payload {
    if IsUnsorted(last) then Payload(CURRENT_VERSION, SortText(sort), Some(AFTER_UNSORTED), None, None)
    else Payload(CURRENT_VERSION, SortText(sort), Some(AFTER_ROW), Some(CursorValue(c, sort, last)), Some(last.id))
  }

  function EncodeCollectionCursor(c: Codec, sort: Sort, last: Row): string {
    EncodePayload(c, CollectionShape, CollectionPayload(c, sort, last))
  }

  // Where a page that ends with `last` ended.
  function PositionOf(c: Codec, sort: Sort, last: Row): Position {
    if IsUnsorted(last) then AfterUnsorted
    else if sort == Name then AfterRow(CursorName(c, last.name), last.id, None)
    else AfterRow(c.showTime(last.created), last.id, Some(last.created))
  }

  // A row whose position a cursor can carry.
  predicate Recordable(c: Codec, sort: Sort, r: Row) {
    IsUnsorted(r) || (r.id != NIL && (sort == Name ==> CursorName(c, r.name) != ""))
  }

  // A token decodes, to exactly where its page ended, if and only if it is used with the
  // sort it was issued under and its page ended with a row that a cursor can carry.
  lemma CollectionCursorRoundTrip(c: Codec, sort: Sort, last: Row, requested: Sort)
    requires Faithful(c)
    ensures EncodeCollectionCursor(c, sort, last) != ""
    ensures DecodeCollectionCursor(c, EncodeCollectionCursor(c, sort, last), requested)
         == if requested == sort && Recordable(c, sort, last) then Ok(PositionOf(c, sort, last)) else Err(InvalidCursor)
  {
    EnvelopeRoundTrip(c, CollectionShape, CollectionShape, CollectionPayload(c, sort, last));
  }

  // Whoever wrote it, a token is good for one sort at most.
  lemma AcceptedUnderOneSort(c: Codec, token: string, s: Sort, t: Sort)
    requires DecodeCollectionCursor(c, token, s).Ok? && DecodeCollectionCursor(c, token, t).Ok?
    ensures s == t
  {
    assert SortText(s) == SortText(t);
  }

  // A token of a payload reads as "after Unsorted" only if the payload says so itself and has
  // no position.
  lemma GroupIsNotAssumed(c: Codec, p: Payload, requested: Sort)
    requires Faithful(c) && Fits(CollectionShape, p)
    requires DecodeCollectionCursor(c, EncodePayload(c, CollectionShape, p), requested) == Ok(AfterUnsorted)
    ensures p == Payload(CURRENT_VERSION, SortText(requested), Some(AFTER_UNSORTED), None, None)
  {
    EnvelopeRoundTrip(c, CollectionShape, CollectionShape, p);
  }

  // The object has the member, under whatever casing, with this value.
  predicate Writes(c: Codec, fields: seq<Field>, name: string, v: Json) {
    exists i :: 0 <= i < |fields| && c.member(fields[i].key) == name && fields[i].value == v
  }

  lemma {:induction false} GroupIsWritten(c: Codec, p: Payload, fields: seq<Field>)
    requires AssignAll(c, CollectionShape, p, fields).Some?
    ensures var q := AssignAll(c, CollectionShape, p, fields).value;
            q.group.Some? ==> q.group == p.group || Writes(c, fields, "g", Whole(q.group.value))
    decreases |fields|
  {
    if fields == [] {
    } else {
      var q := Assign(c, CollectionShape, p, fields[0]).value;
      GroupIsWritten(c, q, fields[1..]);
      var end := AssignAll(c, CollectionShape, p, fields).value;
      if end.group.Some? && Writes(c, fields[1..], "g", Whole(end.group.value)) {
        var i :| 0 <= i < |fields| - 1 && c.member(fields[1..][i].key) == "g"
                 && fields[1..][i].value == Whole(end.group.value);
        assert fields[i + 1] == fields[1..][i];
      }
      assert q.group != p.group && q.group.Some? ==> fields[0].value == Whole(q.group.value);
    }
  }

  // The JSON text of a token, if it is one.
  function TokenText(c: Codec, token: string): Option<Json> {
    match Decode(token, UrlSafe)
    case None => None
    case Some(bytes) => c.parse(bytes)
  }

  // Whoever wrote it and however it was cut short, an accepted token writes its group out:
  // zero is accepted where it is written, and never assumed.
  lemma GroupIsAlwaysWritten(c: Codec, token: string, requested: Sort)
    requires DecodeCollectionCursor(c, token, requested).Ok?
    ensures var v := TokenText(c, token);
            var position := DecodeCollectionCursor(c, token, requested).value;
            var group := if position.AfterUnsorted? then AFTER_UNSORTED else AFTER_ROW;
            v.Some? && v.value.Object? && Writes(c, v.value.fields, "g", Whole(group))
  {
    GroupIsWritten(c, ZERO, TokenText(c, token).value.fields);
  }

  // ----- the saved item cursor -----

  datatype ItemPosition = ItemPosition(time: Instant, id: Id)

  function DecodeItemCursor(c: Codec, token: string): (r: Result<ItemPosition, Invalid>)
    ensures r.Ok? ==> r.value.id != NIL
  {
    match DecodeVersioned(c, ItemShape, token)
    case Err(_) => Err(InvalidCursor)
    case Ok(p) =>
      if p.value.None? || p.id.None? || p.value.value == "" || p.id.value == NIL then Err(InvalidCursor)
      else
        match c.readTime(p.value.value)
        case None => Err(InvalidCursor)
        case Some(time) => Ok(ItemPosition(time, p.id.value))
  }

  datatype ItemRow = ItemRow(id: Id, owner: Id, collection: Id, created: Instant)

  function ItemPayload(c: Codec, last: ItemRow): Payload {
    Payload(CURRENT_VERSION, "", None, Some(c.showTime(last.created)), Some(last.id))
  }

  function EncodeItemCursor(c: Codec, last: ItemRow): string {
    EncodePayload(c, ItemShape, ItemPayload(c, last))
  }

  lemma ItemCursorRoundTrip(c: Codec, last: ItemRow)
    requires Faithful(c)
    ensures EncodeItemCursor(c, last) != ""
    ensures DecodeItemCursor(c, EncodeItemCursor(c, last))
         == if last.id != NIL then Ok(ItemPosition(last.created, last.id)) else Err(InvalidCursor)
  {
    EnvelopeRoundTrip(c, ItemShape, ItemShape, ItemPayload(c, last));
    assert c.readTime(c.showTime(last.created)) == Some(last.created);
  }

  // A saved item token is refused by the collection listing under every sort.
  lemma ItemTokenIsNoCollectionToken(c: Codec, last: ItemRow, requested: Sort)
    requires Faithful(c)
    ensures DecodeCollectionCursor(c, EncodeItemCursor(c, last), requested) == Err(InvalidCursor)
  {
    EnvelopeRoundTrip(c, ItemShape, CollectionShape, ItemPayload(c, last));
  }

  // The other way round, the saved item listings read a collection token as a position of
  // theirs if and only if it was issued after a row whose identifier is not nil and, under the
  // sort by name, whose name happens to read as an instant. The position is then that row's
  // identifier and, under the sorts by time, its instant.
  lemma CollectionTokenReadsAsItemToken(c: Codec, sort: Sort, last: Row)
    requires Faithful(c)
    ensures var r := DecodeItemCursor(c, EncodeCollectionCursor(c, sort, last));
            && (r.Ok? <==> !IsUnsorted(last) && last.id != NIL
                           && (sort == Name ==> c.readTime(CursorName(c, last.name)).Some?))
            && (r.Ok? ==> r.value == ItemPosition(
                  if sort == Name then c.readTime(CursorName(c, last.name)).value else last.created, last.id))
  {
    EnvelopeRoundTrip(c, CollectionShape, ItemShape, CollectionPayload(c, sort, last));
    assert c.readTime(c.showTime(last.created)) == Some(last.created);
  }

  // ----- the written form -----

  lemma TokenTextIsPayload(c: Codec, shape: Shape, p: Payload)
    requires Faithful(c)
    ensures TokenText(c, EncodePayload(c, shape, p)) == Some(Marshal(c, shape, p))
  {
    MarshalIsExact(c, shape, p);
    RoundTrip(c.render(Marshal(c, shape, p)), UrlSafe);
  }

  lemma CollectionMembers(c: Codec, p: Payload)
    ensures Marshal(c, CollectionShape, p)
         == Object([Field("v", Whole(p.version)), Field("s", Str(p.sort)),
                    Field("g", if p.group == None then Null else Whole(p.group.value)),
                    Field("val", if p.value == None then Null else Str(p.value.value)),
                    Field("i", if p.id == None then Null else Str(c.showId(p.id.value)))])
  {
  }

  lemma ItemMembers(c: Codec, p: Payload)
    ensures Marshal(c, ItemShape, p)
         == Object([Field("v", Whole(p.version)),
                    Field("val", if p.value == None then Null else Str(p.value.value)),
                    Field("i", if p.id == None then Null else Str(c.showId(p.id.value)))])
  {
  }

  // What a collection token says once its base64 is undone: the version, the sort by its name,
  // whether the page ended with the Unsorted row, and if not, where.
  lemma CollectionTokenText(c: Codec, sort: Sort, last: Row)
    requires Faithful(c)
    ensures var unsorted := last.systemKey == Some("unsorted");
            TokenText(c, EncodeCollectionCursor(c, sort, last))
            == Some(Object([
                 Field("v", Whole(1)),
                 Field("s", Str(match sort case Newest => "newest" case Oldest => "oldest" case Name => "name")),
                 Field("g", Whole(if unsorted then 0 else 1)),
                 Field("val", if unsorted then Null
                              else Str(if sort == Name then c.lower(Trim(last.name)) else c.showTime(last.created))),
                 Field("i", if unsorted then Null else Str(c.showId(last.id)))]))
  {
    var p := CollectionPayload(c, sort, last);
    TokenTextIsPayload(c, CollectionShape, p);
    CollectionMembers(c, p);
  }

  // And what a saved item token says.
  lemma ItemTokenText(c: Codec, last: ItemRow)
    requires Faithful(c)
    ensures TokenText(c, EncodeItemCursor(c, last))
         == Some(Object([Field("v", Whole(1)), Field("val", Str(c.showTime(last.created))),
                         Field("i", Str(c.showId(last.id)))]))
  {
    TokenTextIsPayload(c, ItemShape, ItemPayload(c, last));
    ItemMembers(c, ItemPayload(c, last));
  }

  // ----- what is accepted -----

  // A collection payload is accepted exactly when it is of version 1, issued under the sort
  // requested, and either of the group 0 without a position or of the group 1 with a value that
  // is not empty, and under the sorts by time is an instant, and an identifier that is not nil.
  lemma AcceptedExactly(c: Codec, p: Payload, requested: Sort)
    requires Faithful(c) && Fits(CollectionShape, p)
    ensures DecodeCollectionCursor(c, EncodePayload(c, CollectionShape, p), requested).Ok?
        <==> && p.version == 1
             && p.sort == (match requested case Newest => "newest" case Oldest => "oldest" case Name => "name")
             && (|| (p.group == Some(0) && p.value == None && p.id == None)
                 || (p.group == Some(1) && p.value.Some? && p.value != Some("") && p.id.Some? && p.id != Some(0)
                     && (requested == Name || c.readTime(p.value.value).Some?)))
  {
    EnvelopeRoundTrip(c, CollectionShape, CollectionShape, p);
  }

  // A saved item payload is accepted exactly when it is of version 1, its value is an instant
  // and its identifier is not nil.
  lemma ItemAcceptedExactly(c: Codec, p: Payload)
    requires Faithful(c) && Fits(ItemShape, p)
    ensures DecodeItemCursor(c, EncodePayload(c, ItemShape, p)).Ok?
        <==> && p.version == 1 && p.id.Some? && p.id != Some(0)
             && p.value.Some? && c.readTime(p.value.value).Some?
  {
    EnvelopeRoundTrip(c, ItemShape, ItemShape, p);
  }

  // A token is fit for a query string: letters, digits, hyphen and underscore only.
  lemma TokenIsUrlSafe(c: Codec, shape: Shape, p: Payload, x: char)
    requires x in EncodePayload(c, shape, p)
    ensures 'a' <= x <= 'z' || 'A' <= x <= 'Z' || '0' <= x <= '9' || x == '-' || x == '_'
  {
    assert InAlphabet(x, UrlSafe);
  }
}
