/**
  The reliance on the library's printers and parsers can be met: a codec that meets it, built
  on a code for JSON values in which no word begins another.
*/
module Codecs {
  import opened Options
  import opened Base64
  import opened JsonValues
  import opened Cursor

  // A number by as many ones, and a zero to end it.
  function Unary(n: nat): seq<Byte> {
    if n == 0 then [0] else [1] + Unary(n - 1)
  }

  function Magnitude(n: int): nat {
    if n >= 0 then n else -n
  }

  function Signed(n: int): seq<Byte> {
    [if n >= 0 then 1 else 0] + Unary(Magnitude(n))
  }

  function Text(s: string): seq<Byte> {
    if s == "" then [0] else [1] + (Unary(s[0] as int) + Text(s[1..]))
  }

  // Each kind of value has a first byte of its own.
  function Kind(v: Json): Byte {
    match v
    case Null => 2
    case Boolean(b) => if b then 3 else 4
    case Whole(_) => 5
    case Fraction(_) => 6
    case Str(_) => 7
    case List(_) => 8
    case Object(_) => 9
  }

  function Word(v: Json): seq<Byte>
    decreases v, 2
  {
    [Kind(v)] + Body(v)
  }

  function Body(v: Json): seq<Byte>
    decreases v, 1
  {
    match v
    case Whole(n) => Signed(n)
    case Str(s) => Text(s)
    case List(items) => Items(items)
    case Object(fields) => Fields(fields)
    case _ => []
  }

  // A sequence ends with a zero.
  function Items(items: seq<Json>): seq<Byte>
    decreases items, 0
  {
    if items == [] then [0] else [1] + (Word(items[0]) + Items(items[1..]))
  }

  function Fields(fields: seq<Field>): seq<Byte>
    decreases fields, 0
  {
    if fields == [] then [0] else [1] + (Text(fields[0].key) + (Word(fields[0].value) + Fields(fields[1..])))
  }

  // ----- no word begins another -----

  lemma SameTails(a: Byte, b: Byte, s: seq<Byte>, t: seq<Byte>, x: seq<Byte>, y: seq<Byte>)
    requires ([a] + s) + x == ([b] + t) + y
    ensures a == b && s + x == t + y
  {
    var u, w := ([a] + s) + x, ([b] + t) + y;
    assert u[0] == w[0];
    assert u[1..] == s + x && w[1..] == t + y;
  }

  lemma NothingBefore(x: seq<Byte>)
    ensures [] + x == x
  {
  }

  lemma Regroup(s: seq<Byte>, t: seq<Byte>, x: seq<Byte>)
    ensures (s + t) + x == s + (t + x)
  {
  }

  lemma {:induction false} UnaryIsPrefixFree(m: nat, n: nat, x: seq<Byte>, y: seq<Byte>)
    requires Unary(m) + x == Unary(n) + y
    ensures m == n && x == y
  {
    assert (Unary(m) + x)[0] == (Unary(n) + y)[0];
    if m == 0 {
      assert (Unary(m) + x)[1..] == x && (Unary(n) + y)[1..] == y;
    } else {
      SameTails(1, 1, Unary(m - 1), Unary(n - 1), x, y);
      UnaryIsPrefixFree(m - 1, n - 1, x, y);
    }
  }

  lemma SignedIsPrefixFree(m: int, n: int, x: seq<Byte>, y: seq<Byte>)
    requires Signed(m) + x == Signed(n) + y
    ensures m == n && x == y
  {
    SameTails(if m >= 0 then 1 else 0, if n >= 0 then 1 else 0, Unary(Magnitude(m)), Unary(Magnitude(n)), x, y);
    UnaryIsPrefixFree(Magnitude(m), Magnitude(n), x, y);
  }

  lemma {:induction false} TextIsPrefixFree(s: string, t: string, x: seq<Byte>, y: seq<Byte>)
    requires Text(s) + x == Text(t) + y
    ensures s == t && x == y
    decreases |s|
  {
    assert (Text(s) + x)[0] == (Text(t) + y)[0];
    if s == "" {
      assert (Text(s) + x)[1..] == x && (Text(t) + y)[1..] == y;
    } else {
      var a, b := Unary(s[0] as int), Unary(t[0] as int);
      SameTails(1, 1, a + Text(s[1..]), b + Text(t[1..]), x, y);
      Regroup(a, Text(s[1..]), x);
      Regroup(b, Text(t[1..]), y);
      UnaryIsPrefixFree(s[0] as int, t[0] as int, Text(s[1..]) + x, Text(t[1..]) + y);
      TextIsPrefixFree(s[1..], t[1..], x, y);
      assert s == [s[0]] + s[1..] && t == [t[0]] + t[1..];
    }
  }

  lemma {:induction false} WordIsPrefixFree(v: Json, w: Json, x: seq<Byte>, y: seq<Byte>)
    requires IsExact(v) && IsExact(w) && Word(v) + x == Word(w) + y
    ensures v == w && x == y
    decreases v, 1
  {
    SameTails(Kind(v), Kind(w), Body(v), Body(w), x, y);
    NothingBefore(x);
    NothingBefore(y);
    match v
    case Whole(n) => SignedIsPrefixFree(n, w.n, x, y);
    case Str(s) => TextIsPrefixFree(s, w.s, x, y);
    case List(items) => ItemsArePrefixFree(items, w.items, x, y);
    case Object(fields) => FieldsArePrefixFree(fields, w.fields, x, y);
    case _ =>
  }

  lemma {:induction false} ItemsArePrefixFree(a: seq<Json>, b: seq<Json>, x: seq<Byte>, y: seq<Byte>)
    requires (forall i :: 0 <= i < |a| ==> IsExact(a[i])) && (forall i :: 0 <= i < |b| ==> IsExact(b[i]))
    requires Items(a) + x == Items(b) + y
    ensures a == b && x == y
    decreases a, 0
  {
    assert (Items(a) + x)[0] == (Items(b) + y)[0];
    if a == [] {
      assert (Items(a) + x)[1..] == x && (Items(b) + y)[1..] == y;
    } else {
      SameTails(1, 1, Word(a[0]) + Items(a[1..]), Word(b[0]) + Items(b[1..]), x, y);
      Regroup(Word(a[0]), Items(a[1..]), x);
      Regroup(Word(b[0]), Items(b[1..]), y);
      WordIsPrefixFree(a[0], b[0], Items(a[1..]) + x, Items(b[1..]) + y);
      ItemsArePrefixFree(a[1..], b[1..], x, y);
      assert a == [a[0]] + a[1..] && b == [b[0]] + b[1..];
    }
  }

  lemma {:induction false} FieldsArePrefixFree(a: seq<Field>, b: seq<Field>, x: seq<Byte>, y: seq<Byte>)
    requires (forall i :: 0 <= i < |a| ==> IsExact(a[i].value)) && (forall i :: 0 <= i < |b| ==> IsExact(b[i].value))
    requires Fields(a) + x == Fields(b) + y
    ensures a == b && x == y
    decreases a, 0
  {
    assert (Fields(a) + x)[0] == (Fields(b) + y)[0];
    if a == [] {
      assert (Fields(a) + x)[1..] == x && (Fields(b) + y)[1..] == y;
    } else {
      OneField(a, x);
      OneField(b, y);
      SameTails(1, 1, AfterMark(a), AfterMark(b), x, y);
      TextIsPrefixFree(a[0].key, b[0].key, AfterKey(a) + x, AfterKey(b) + y);
      WordIsPrefixFree(a[0].value, b[0].value, Fields(a[1..]) + x, Fields(b[1..]) + y);
      FieldsArePrefixFree(a[1..], b[1..], x, y);
      assert a == [a[0]] + a[1..] && b == [b[0]] + b[1..];
    }
  }

  function AfterKey(a: seq<Field>): seq<Byte>
    requires a != []
  {
    Word(a[0].value) + Fields(a[1..])
  }

  function AfterMark(a: seq<Field>): seq<Byte>
    requires a != []
  {
    Text(a[0].key) + AfterKey(a)
  }

  lemma OneField(a: seq<Field>, x: seq<Byte>)
    requires a != []
    ensures Fields(a) == [1] + AfterMark(a)
    ensures AfterMark(a) + x == Text(a[0].key) + (AfterKey(a) + x)
    ensures AfterKey(a) + x == Word(a[0].value) + (Fields(a[1..]) + x)
  {
    Regroup(Text(a[0].key), AfterKey(a), x);
    Regroup(Word(a[0].value), Fields(a[1..]), x);
  }

  // ----- a codec -----

  ghost function ReadWord(b: seq<Byte>): Option<Json> {
    if v :| IsExact(v) && Word(v) == b then Some(v) else None
  }

  function Ones(n: nat): string {
    if n == 0 then "" else "1" + Ones(n - 1)
  }

  function ReadOnes(s: string): Option<nat> {
    if s == "" then Some(0)
    else if s[0] != '1' then None
    else
      match ReadOnes(s[1..])
      case None => None
      case Some(n) => Some(n + 1)
  }

  lemma {:induction false} OnesReadBack(n: nat)
    ensures ReadOnes(Ones(n)) == Some(n)
  {
    if n == 0 {
    } else {
      OnesReadBack(n - 1);
      assert Ones(n)[1..] == Ones(n - 1);
    }
  }

  const FIRST := -62_167_219_200_000_000
  const AFTER_LAST := 253_402_300_800_000_000

  function ShowTime(t: Instant): string {
    "t" + Ones(t - FIRST)
  }

  function ReadTime(s: string): Option<Instant> {
    if s == "" || s[0] != 't' then None
    else
      match ReadOnes(s[1..])
      case None => None
      case Some(n) => if FIRST + n < AFTER_LAST then Some(FIRST + n) else None
  }

  lemma TimeReadsBack(t: Instant)
    ensures ReadTime(ShowTime(t)) == Some(t)
  {
    OnesReadBack(t - FIRST);
    assert ShowTime(t)[1..] == Ones(t - FIRST);
  }

  // What the token theorems rely on is met by some codec, whatever the lower-casing.
  lemma SomeCodecIsFaithful(lower: string -> string) returns (c: Codec)
    ensures Faithful(c) && c.lower == lower
  {
    c := Codec(v => Word(v), b => ReadWord(b), (t: Instant) => ShowTime(t), s => ReadTime(s),
               (i: Id) => Ones(i), s => ReadOnes(s), s => s, lower);
    forall v | IsExact(v) ensures ReadWord(Word(v)) == Some(v) {
      var w := ReadWord(Word(v));
      assert w.Some?;
      assert Word(v) + [] == Word(w.value) + [];
      WordIsPrefixFree(v, w.value, [], []);
    }
    forall t: Instant ensures ReadTime(ShowTime(t)) == Some(t) {
      TimeReadsBack(t);
    }
    forall i: Id ensures ReadOnes(Ones(i)) == Some(i) {
      OnesReadBack(i);
    }
  }
}
