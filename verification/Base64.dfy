/**
  Base64 without padding, in the standard and in the URL-safe alphabet (sections 4 and 5 of
  RFC 4648, padding omitted under section 3.2), decoded as leniently as the runtime's own
  decoder: line breaks are skipped and the unused low bits of the last digit are ignored.
*/
module Base64 {
  import opened Options

  type Byte = x: int | 0 <= x < 256
  type Sextet = x: int | 0 <= x < 64

  datatype Alphabet = Standard | UrlSafe

  function Digit(v: Sextet, a: Alphabet): char {
    if v < 26 then 'A' + v as char
    else if v < 52 then 'a' + (v - 26) as char
    else if v < 62 then '0' + (v - 52) as char
    else if v == 62 then (if a == Standard then '+' else '-')
    else (if a == Standard then '/' else '_')
  }

  function Value(c: char, a: Alphabet): Option<Sextet> {
    if 'A' <= c <= 'Z' then Some(c as int - 'A' as int)
    else if 'a' <= c <= 'z' then Some(c as int - 'a' as int + 26)
    else if '0' <= c <= '9' then Some(c as int - '0' as int + 52)
    else if c == (if a == Standard then '+' else '-') then Some(62)
    else if c == (if a == Standard then '/' else '_') then Some(63)
    else None
  }

  predicate InAlphabet(c: char, a: Alphabet) {
    Value(c, a).Some?
  }

  lemma ValueOfDigit(v: Sextet, a: Alphabet)
    ensures Value(Digit(v, a), a) == Some(v)
  {
  }

  function Encode(b: seq<Byte>, a: Alphabet): (s: string)
    ensures forall c :: c in s ==> InAlphabet(c, a)
    ensures s == "" <==> b == []
  {
    if b == [] then ""
    else if |b| == 1 then [Digit(b[0] / 4, a), Digit(b[0] % 4 * 16, a)]
    else if |b| == 2 then
      [Digit(b[0] / 4, a), Digit(b[0] % 4 * 16 + b[1] / 16, a), Digit(b[1] % 16 * 4, a)]
    else
      [Digit(b[0] / 4, a), Digit(b[0] % 4 * 16 + b[1] / 16, a),
       Digit(b[1] % 16 * 4 + b[2] / 64, a), Digit(b[2] % 64, a)] + Encode(b[3..], a)
  }

  function WithoutBreaks(s: string): (t: string)
    ensures forall c :: c in t ==> c in s && c != '\r' && c != '\n'
  {
    if s == "" then ""
    else (if s[0] == '\r' || s[0] == '\n' then "" else [s[0]]) + WithoutBreaks(s[1..])
  }

  function Decode(s: string, a: Alphabet): Option<seq<Byte>> {
    DecodeDigits(WithoutBreaks(s), a)
  }

  function DecodeDigits(s: string, a: Alphabet): Option<seq<Byte>> {
    if s == "" then Some([])
    else if |s| == 1 || !InAlphabet(s[0], a) || !InAlphabet(s[1], a) then None
    else
      var v0, v1 := Value(s[0], a).value, Value(s[1], a).value;
      var b0: Byte := v0 * 4 + v1 / 16;
      if |s| == 2 then Some([b0])
      else if !InAlphabet(s[2], a) then None
      else
        var v2 := Value(s[2], a).value;
        var b1: Byte := v1 % 16 * 16 + v2 / 4;
        if |s| == 3 then Some([b0, b1])
        else if !InAlphabet(s[3], a) then None
        else
          var b2: Byte := v2 % 4 * 64 + Value(s[3], a).value;
          match DecodeDigits(s[4..], a)
          case None => None
          case Some(rest) => Some([b0, b1, b2] + rest)
  }

  lemma {:induction false} NoBreaksInDigits(s: string, a: Alphabet)
    requires forall c :: c in s ==> InAlphabet(c, a)
    ensures WithoutBreaks(s) == s
  {
    if s == "" {
    } else {
      NoBreaksInDigits(s[1..], a);
      assert InAlphabet(s[0], a);
      assert s == [s[0]] + s[1..];
    }
  }

  // The byte groups that two, three and four digit values carry.
  function Bytes3(v0: Sextet, v1: Sextet, v2: Sextet, v3: Sextet): seq<Byte> {
    [v0 * 4 + v1 / 16, v1 % 16 * 16 + v2 / 4, v2 % 4 * 64 + v3]
  }

  lemma Regroup(b0: Byte, b1: Byte, b2: Byte)
    ensures Bytes3(b0 / 4, b0 % 4 * 16 + b1 / 16, b1 % 16 * 4 + b2 / 64, b2 % 64) == [b0, b1, b2]
  {
  }

  // Four digits that carry three bytes, before anything that follows them.
  lemma FullGroup(v0: Sextet, v1: Sextet, v2: Sextet, v3: Sextet, rest: string, a: Alphabet)
    ensures DecodeDigits([Digit(v0, a), Digit(v1, a), Digit(v2, a), Digit(v3, a)] + rest, a)
         == match DecodeDigits(rest, a) case None => None case Some(tail) => Some(Bytes3(v0, v1, v2, v3) + tail)
  {
    ValueOfDigit(v0, a);
    ValueOfDigit(v1, a);
    ValueOfDigit(v2, a);
    ValueOfDigit(v3, a);
    var group := [Digit(v0, a), Digit(v1, a), Digit(v2, a), Digit(v3, a)];
    assert (group + rest)[4..] == rest;
  }

  lemma OneByte(b0: Byte, a: Alphabet)
    ensures DecodeDigits([Digit(b0 / 4, a), Digit(b0 % 4 * 16, a)], a) == Some([b0])
  {
    ValueOfDigit(b0 / 4, a);
    ValueOfDigit(b0 % 4 * 16, a);
  }

  lemma TwoBytes(b0: Byte, b1: Byte, a: Alphabet)
    ensures DecodeDigits([Digit(b0 / 4, a), Digit(b0 % 4 * 16 + b1 / 16, a), Digit(b1 % 16 * 4, a)], a)
        == Some([b0, b1])
  {
    ValueOfDigit(b0 / 4, a);
    ValueOfDigit(b0 % 4 * 16 + b1 / 16, a);
    ValueOfDigit(b1 % 16 * 4, a);
  }

  lemma LongerRoundTrip(b: seq<Byte>, a: Alphabet)
    requires |b| > 2 && DecodeDigits(Encode(b[3..], a), a) == Some(b[3..])
    ensures DecodeDigits(Encode(b, a), a) == Some(b)
  {
    var v0: Sextet, v1: Sextet, v2: Sextet, v3: Sextet :=
      b[0] / 4, b[0] % 4 * 16 + b[1] / 16, b[1] % 16 * 4 + b[2] / 64, b[2] % 64;
    var rest := Encode(b[3..], a);
    assert Encode(b, a) == [Digit(v0, a), Digit(v1, a), Digit(v2, a), Digit(v3, a)] + rest;
    FullGroup(v0, v1, v2, v3, rest, a);
    Regroup(b[0], b[1], b[2]);
    assert [b[0], b[1], b[2]] + b[3..] == b;
  }

  lemma {:induction false} DigitsRoundTrip(b: seq<Byte>, a: Alphabet)
    ensures DecodeDigits(Encode(b, a), a) == Some(b)
    decreases |b|
  {
    if |b| == 1 {
      OneByte(b[0], a);
      assert b == [b[0]];
    } else if |b| == 2 {
      TwoBytes(b[0], b[1], a);
      assert b == [b[0], b[1]];
    } else if |b| > 2 {
      DigitsRoundTrip(b[3..], a);
      LongerRoundTrip(b, a);
    }
  }

  // Decoding what was encoded gives it back, for every byte string and either alphabet.
  lemma RoundTrip(b: seq<Byte>, a: Alphabet)
    ensures Decode(Encode(b, a), a) == Some(b)
  {
    NoBreaksInDigits(Encode(b, a), a);
    DigitsRoundTrip(b, a);
  }

  // ----- the written form -----

  // The digits run from A to Z, from a to z and from 0 to 9; the two alphabets differ in the
  // last two only.
  lemma DigitsOfTheTable(v: Sextet, a: Alphabet)
    ensures Digit(0, a) == 'A' && Digit(26, a) == 'a' && Digit(52, a) == '0'
    ensures Digit(25, a) == 'Z' && Digit(51, a) == 'z' && Digit(61, a) == '9'
    ensures v < 61 && v != 25 && v != 51 ==> Digit(v + 1, a) as int == Digit(v, a) as int + 1
    ensures Digit(62, Standard) == '+' && Digit(63, Standard) == '/'
    ensures Digit(62, UrlSafe) == '-' && Digit(63, UrlSafe) == '_'
  {
  }

  // The number that two, three or four digits write in base 64.
  function DigitsNumber(s: string, a: Alphabet): int
    requires 2 <= |s| <= 4 && forall i :: 0 <= i < |s| ==> InAlphabet(s[i], a)
  {
    var v: seq<int> := seq(|s|, i requires 0 <= i < |s| && InAlphabet(s[i], a) => Value(s[i], a).value);
    if |s| == 2 then 64 * v[0] + v[1]
    else if |s| == 3 then 4096 * v[0] + 64 * v[1] + v[2]
    else 262144 * v[0] + 4096 * v[1] + 64 * v[2] + v[3]
  }

  // The number that up to three bytes write in base 256.
  function BytesNumber(b: seq<int>): int
    requires 1 <= |b| <= 3
  {
    if |b| == 1 then b[0] else if |b| == 2 then 256 * b[0] + b[1] else 65536 * b[0] + 256 * b[1] + b[2]
  }

  // Three bytes and their four digits write the same number, most significant first; of one
  // byte or two, the digits write it with four or two zero bits after it.
  lemma GroupsWriteTheirNumber(b: seq<Byte>, a: Alphabet)
    requires 1 <= |b| <= 3
    ensures |Encode(b, a)| == |b| + 1
    ensures DigitsNumber(Encode(b, a), a)
         == BytesNumber(b) * (if |b| == 1 then 16 else if |b| == 2 then 4 else 1)
  {
    if |b| == 1 {
      ValueOfDigit(b[0] / 4, a);
      ValueOfDigit(b[0] % 4 * 16, a);
    } else if |b| == 2 {
      ValueOfDigit(b[0] / 4, a);
      ValueOfDigit(b[0] % 4 * 16 + b[1] / 16, a);
      ValueOfDigit(b[1] % 16 * 4, a);
    } else {
      assert b[3..] == [];
      ValueOfDigit(b[0] / 4, a);
      ValueOfDigit(b[0] % 4 * 16 + b[1] / 16, a);
      ValueOfDigit(b[1] % 16 * 4 + b[2] / 64, a);
      ValueOfDigit(b[2] % 64, a);
    }
  }

  // Longer texts are written three bytes at a time.
  lemma EncodesByGroups(b: seq<Byte>, a: Alphabet)
    requires |b| > 3
    ensures Encode(b, a) == Encode(b[..3], a) + Encode(b[3..], a)
  {
    assert b[..3][3..] == [];
  }
}
