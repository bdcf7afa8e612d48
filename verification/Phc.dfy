/**
  The PHC codec of stored password hashes, and what verification makes of a stored hash.
  The derivation itself is a parameter.
*/
module Phc {
  import opened Options
  import opened Base64

  const MAX_MEMORY := 131072
  const MAX_ITERATIONS := 8
  const MAX_PARALLELISM := 255
  const UINT32_MAX := 0xFFFF_FFFF

  datatype Key = Memory | Iterations | Parallelism

  datatype Params = Params(memory: int, iterations: int, parallelism: int)
  {
    function Get(key: Key): int {
      match key
      case Memory => memory
      case Iterations => iterations
      case Parallelism => parallelism
    }

    predicate InBounds() {
      1 <= memory <= MAX_MEMORY && 1 <= iterations <= MAX_ITERATIONS && 1 <= parallelism <= MAX_PARALLELISM
    }
  }

  // The parameters new hashes are written with.
  const ACTIVE := Params(65536, 3, 4)
  const KEY_LENGTH := 32

  predicate NeedsRehash(p: Params) {
    p.memory < ACTIVE.memory || p.iterations < ACTIVE.iterations || p.parallelism < ACTIVE.parallelism
  }

  datatype DecodeError =
    | InvalidFormat
    | UnsupportedAlgorithm
    | UnsupportedVersion
    | InvalidParameters
    | InvalidSalt
    | InvalidHash

  // ----- text -----

  // The pieces of `s` between the separators; always at least one.
  function Split(s: string, sep: char): (parts: seq<string>)
    ensures parts != []
    ensures forall p :: p in parts ==> sep !in p
  {
    if s == "" then [""]
    else
      var rest := Split(s[1..], sep);
      if s[0] == sep then [""] + rest else [[s[0]] + rest[0]] + rest[1..]
  }

  // The pieces joined by the separator.
  function Join(parts: seq<string>, sep: char): string
    requires parts != []
  {
    if |parts| == 1 then parts[0] else parts[0] + [sep] + Join(parts[1..], sep)
  }

  lemma {:induction false} SplitHead(head: string, rest: string, sep: char)
    requires sep !in head
    ensures Split(head, sep) == [head]
    ensures Split(head + [sep] + rest, sep) == [head] + Split(rest, sep)
    decreases |head|
  {
    if head == "" {
      assert head + [sep] + rest == [sep] + rest;
    } else {
      SplitHead(head[1..], rest, sep);
      assert (head + [sep] + rest)[1..] == head[1..] + [sep] + rest;
      assert [head[0]] + head[1..] == head;
    }
  }

  lemma {:induction false} SplitOfJoin(parts: seq<string>, sep: char)
    requires parts != [] && forall p :: p in parts ==> sep !in p
    ensures Split(Join(parts, sep), sep) == parts
    decreases |parts|
  {
    if |parts| == 1 {
      SplitHead(parts[0], "", sep);
    } else {
      SplitOfJoin(parts[1..], sep);
      SplitHead(parts[0], Join(parts[1..], sep), sep);
      assert [parts[0]] + parts[1..] == parts;
    }
  }

  // Where the first `c` stands, or the length of `s`.
  function IndexOf(s: string, c: char): (i: nat)
    ensures i <= |s| && (i < |s| ==> s[i] == c) && c !in s[..i]
  {
    if s == "" then 0
    else if s[0] == c then 0
    else
      var i := IndexOf(s[1..], c);
      assert s[..i + 1] == [s[0]] + s[1..][..i];
      i + 1
  }

  predicate IsDigit(c: char) {
    '0' <= c <= '9'
  }

  function Decimal(n: nat): (s: string)
    ensures s != "" && forall c :: c in s ==> IsDigit(c)
  {
    if n < 10 then ['0' + n as char] else Decimal(n / 10) + ['0' + (n % 10) as char]
  }

  // The number that a non-empty string of digits writes.
  function Number(s: string): Option<nat> {
    if s == "" || !IsDigit(s[|s| - 1]) then None
    else
      var d: nat := s[|s| - 1] as int - '0' as int;
      if |s| == 1 then Some(d)
      else
        match Number(s[..|s| - 1])
        case None => None
        case Some(n) => Some(10 * n + d)
  }

  // An unsigned 32-bit decimal.
  function ParseUint32(s: string): Option<nat> {
    match Number(s)
    case None => None
    case Some(n) => if n <= UINT32_MAX then Some(n) else None
  }

  lemma {:induction false} DecimalRoundTrip(n: nat)
    ensures Number(Decimal(n)) == Some(n)
    decreases n
  {
    if n >= 10 {
      DecimalRoundTrip(n / 10);
      var s := Decimal(n);
      assert s[..|s| - 1] == Decimal(n / 10);
    }
  }

  // ----- parameters -----

  // What one comma-separated piece says: a known key and a non-zero value within its bound.
  datatype Setting = Setting(key: Key, value: int)

  function ReadSetting(part: string): Option<Setting> {
    var i := IndexOf(part, '=');
    if i == |part| then None
    else
      var key, value := part[..i], ParseUint32(part[i + 1..]);
      if value.None? || value.value == 0 then None
      else if key == "m" then (if value.value > MAX_MEMORY then None else Some(Setting(Memory, value.value)))
      else if key == "t" then (if value.value > MAX_ITERATIONS then None else Some(Setting(Iterations, value.value)))
      else if key == "p" then (if value.value > MAX_PARALLELISM then None else Some(Setting(Parallelism, value.value)))
      else None
  }

  function Set(p: Params, setting: Setting): Params {
    match setting.key
    case Memory => p.(memory := setting.value)
    case Iterations => p.(iterations := setting.value)
    case Parallelism => p.(parallelism := setting.value)
  }

  // All the pieces in turn, a later one overriding an earlier one of the same key.
  function ReadSettings(parts: seq<string>): Option<Params> {
    if parts == [] then Some(Params(0, 0, 0))
    else
      match ReadSettings(parts[..|parts| - 1])
      case None => None
      case Some(p) =>
        match ReadSetting(parts[|parts| - 1])
        case None => None
        case Some(setting) => Some(Set(p, setting))
  }

  function ReadParams(encoded: string): Option<Params> {
    match ReadSettings(Split(encoded, ','))
    case None => None
    case Some(p) => if p.memory == 0 || p.iterations == 0 || p.parallelism == 0 then None else Some(p)
  }

  lemma {:induction false} PrefixFails(parts: seq<string>, i: nat)
    requires i <= |parts| && ReadSettings(parts[..i]).None?
    ensures ReadSettings(parts).None?
    decreases |parts|
  {
    if i < |parts| {
      assert parts[..|parts| - 1][..i] == parts[..i];
      PrefixFails(parts[..|parts| - 1], i);
    } else {
      assert parts[..i] == parts;
    }
  }

  lemma NextSetting(parts: seq<string>, k: nat, p: Params)
    requires k < |parts| && ReadSettings(parts[..k]) == Some(p)
    ensures ReadSetting(parts[k]).Some? ==> ReadSettings(parts[..k + 1]) == Some(Set(p, ReadSetting(parts[k]).value))
    ensures ReadSetting(parts[k]).None? ==> ReadSettings(parts).None?
  {
    assert parts[..k + 1][..k] == parts[..k];
    if ReadSetting(parts[k]).None? {
      PrefixFails(parts, k + 1);
    }
  }

  method ParseArgon2Params(encoded: string) returns (params: Result<Params, DecodeError>)
    ensures params == match ReadParams(encoded) case None => Err(InvalidParameters) case Some(p) => Ok(p)
  {
    var p := Params(0, 0, 0);
    var parts := Split(encoded, ',');
    for k := 0 to |parts|
      invariant ReadSettings(parts[..k]) == Some(p)
    {
      var part := parts[k];
      NextSetting(parts, k, p);
      var i := IndexOf(part, '=');
      if i == |part| {
        return Err(InvalidParameters);
      }
      var value := ParseUint32(part[i + 1..]);
      if value.None? || value.value == 0 {
        return Err(InvalidParameters);
      }
      var key := part[..i];
      if key == "m" && value.value <= MAX_MEMORY {
        p := p.(memory := value.value);
      } else if key == "t" && value.value <= MAX_ITERATIONS {
        p := p.(iterations := value.value);
      } else if key == "p" && value.value <= MAX_PARALLELISM {
        p := p.(parallelism := value.value);
      } else {
        return Err(InvalidParameters);
      }
    }
    assert parts[..|parts|] == parts;
    if p.memory == 0 || p.iterations == 0 || p.parallelism == 0 {
      return Err(InvalidParameters);
    }
    return Ok(p);
  }

  ghost predicate AllReadable(parts: seq<string>) {
    forall i :: 0 <= i < |parts| ==> ReadSetting(parts[i]).Some?
  }

  // Piece `i` is the last that names the key, and says `v`.
  ghost predicate LastSays(parts: seq<string>, key: Key, i: int, v: int) {
    && 0 <= i < |parts| && ReadSetting(parts[i]) == Some(Setting(key, v))
    && forall j :: i < j < |parts| && ReadSetting(parts[j]).Some? ==> ReadSetting(parts[j]).value.key != key
  }

  ghost predicate SaidLast(parts: seq<string>, key: Key, v: int) {
    exists i :: LastSays(parts, key, i, v)
  }

  ghost predicate Names(parts: seq<string>, key: Key) {
    exists i :: 0 <= i < |parts| && ReadSetting(parts[i]).Some? && ReadSetting(parts[i]).value.key == key
  }

  lemma {:induction false} ReadableSettings(parts: seq<string>)
    ensures ReadSettings(parts).Some? <==> AllReadable(parts)
    decreases |parts|
  {
    if parts == [] {
    } else {
      ReadableSettings(parts[..|parts| - 1]);
    }
  }

  // The index of the last piece that names the key, or -1.
  ghost function LastIndex(parts: seq<string>, key: Key): (i: int)
    ensures -1 <= i < |parts|
    ensures i >= 0 ==> ReadSetting(parts[i]).Some? && ReadSetting(parts[i]).value.key == key
    ensures forall j :: i < j < |parts| && ReadSetting(parts[j]).Some? ==> ReadSetting(parts[j]).value.key != key
  {
    if parts == [] then -1
    else
      var n := |parts| - 1;
      if ReadSetting(parts[n]).Some? && ReadSetting(parts[n]).value.key == key then n
      else LastIndex(parts[..n], key)
  }

  lemma {:induction false} LastSettingWins(parts: seq<string>, key: Key)
    requires ReadSettings(parts).Some?
    ensures var i, v := LastIndex(parts, key), ReadSettings(parts).value.Get(key);
            v == if i == -1 then 0 else ReadSetting(parts[i]).value.value
    decreases |parts|
  {
    if parts == [] {
    } else {
      LastSettingWins(parts[..|parts| - 1], key);
    }
  }

  lemma SettingInBound(part: string)
    requires ReadSetting(part).Some?
    ensures var s := ReadSetting(part).value;
            1 <= s.value <= Ceiling(s.key)
  {
  }

  function Ceiling(key: Key): int {
    match key case Memory => MAX_MEMORY case Iterations => MAX_ITERATIONS case Parallelism => MAX_PARALLELISM
  }

  lemma NamedIsInBound(parts: seq<string>, key: Key)
    requires ReadSettings(parts).Some?
    ensures var v := ReadSettings(parts).value.Get(key);
            if Names(parts, key) then SaidLast(parts, key, v) && 1 <= v <= Ceiling(key) else v == 0
  {
    LastSettingWins(parts, key);
    var i := LastIndex(parts, key);
    if i >= 0 {
      SettingInBound(parts[i]);
      assert LastSays(parts, key, i, ReadSettings(parts).value.Get(key));
    }
  }

  // A parameter string is accepted exactly when every piece can be read and each of the
  // three keys occurs, in whatever order and however often; each parameter is then what the
  // last piece with its key says, and lies within its bound.
  lemma AcceptedParameters(encoded: string)
    ensures var parts := Split(encoded, ',');
            ReadParams(encoded).Some?
            <==> AllReadable(parts) && Names(parts, Memory) && Names(parts, Iterations) && Names(parts, Parallelism)
    ensures ReadParams(encoded).Some? ==>
              var parts, p := Split(encoded, ','), ReadParams(encoded).value;
              && SaidLast(parts, Memory, p.memory)
              && SaidLast(parts, Iterations, p.iterations)
              && SaidLast(parts, Parallelism, p.parallelism)
              && p.InBounds()
  {
    var parts := Split(encoded, ',');
    ReadableSettings(parts);
    if ReadSettings(parts).Some? {
      NamedIsInBound(parts, Memory);
      NamedIsInBound(parts, Iterations);
      NamedIsInBound(parts, Parallelism);
    }
  }

  lemma ParamsAreBounded(encoded: string)
    requires ReadParams(encoded).Some?
    ensures ReadParams(encoded).value.InBounds()
  {
    AcceptedParameters(encoded);
  }

  function EncodeParams(p: Params): string
    requires p.InBounds()
  {
    Join([['m', '='] + Decimal(p.memory), ['t', '='] + Decimal(p.iterations), ['p', '='] + Decimal(p.parallelism)], ',')
  }

  lemma DecimalAvoids(n: nat, c: char)
    requires !IsDigit(c)
    ensures c !in Decimal(n)
  {
  }

  lemma SettingSplits(name: char, text: string)
    requires name != '='
    ensures var part := [name, '='] + text;
            IndexOf(part, '=') == 1 && part[..1] == [name] && part[2..] == text
  {
    var part := [name, '='] + text;
    assert part[1..][0] == '=';
  }

  lemma SettingRoundTrip(name: char, n: nat)
    requires name != '=' && name != ',' && name != '$' && 0 < n <= UINT32_MAX
    ensures var part := [name, '='] + Decimal(n);
            && IndexOf(part, '=') == 1 && part[..1] == [name]
            && ParseUint32(part[2..]) == Some(n)
            && ',' !in part && '$' !in part
  {
    DecimalRoundTrip(n);
    DecimalAvoids(n, ',');
    DecimalAvoids(n, '$');
    SettingSplits(name, Decimal(n));
  }

  lemma ParamsRoundTrip(p: Params)
    requires p.InBounds()
    ensures ReadParams(EncodeParams(p)) == Some(p)
    ensures '$' !in EncodeParams(p)
  {
    var m, t, q := ['m', '='] + Decimal(p.memory), ['t', '='] + Decimal(p.iterations),
        ['p', '='] + Decimal(p.parallelism);
    SettingRoundTrip('m', p.memory);
    SettingRoundTrip('t', p.iterations);
    SettingRoundTrip('p', p.parallelism);
    assert ReadSetting(m) == Some(Setting(Memory, p.memory));
    assert ReadSetting(t) == Some(Setting(Iterations, p.iterations));
    assert ReadSetting(q) == Some(Setting(Parallelism, p.parallelism));
    ThreePieces(m, t, q);
    SplitOfJoin([m, t, q], ',');
    JoinAvoids([m, t, q], ',', '$');
  }

  lemma {:induction false} JoinAvoids(parts: seq<string>, sep: char, c: char)
    requires parts != [] && sep != c && forall p :: p in parts ==> c !in p
    ensures c !in Join(parts, sep)
    decreases |parts|
  {
    if |parts| <= 1 {
    } else {
      JoinAvoids(parts[1..], sep, c);
    }
  }

  lemma ThreePieces(m: string, t: string, q: string)
    ensures ReadSetting(m).Some? && ReadSetting(t).Some? && ReadSetting(q).Some? ==>
              ReadSettings([m, t, q])
              == Some(Set(Set(Set(Params(0, 0, 0), ReadSetting(m).value), ReadSetting(t).value), ReadSetting(q).value))
  {
    assert [m, t, q][1..] == [t, q] && [t, q][1..] == [q];
    assert [m, t, q][..2] == [m, t] && [m, t][..1] == [m] && [m][..0] == [];
    if ReadSetting(m).Some? && ReadSetting(t).Some? && ReadSetting(q).Some? {
      assert ReadSettings([m]) == Some(Set(Params(0, 0, 0), ReadSetting(m).value));
      assert ReadSettings([m, t]).Some?;
    }
  }

  // ----- the stored hash -----

  datatype Stored = Stored(params: Params, salt: seq<Byte>, hash: seq<Byte>)

  function EncodePhc(p: Params, salt: seq<Byte>, hash: seq<Byte>): string
    requires p.InBounds()
  {
    Join(["", "argon2id", "v=19", EncodeParams(p), Encode(salt, Standard), Encode(hash, Standard)], '$')
  }

  function DecodePhc(encoded: string): Result<Stored, DecodeError> {
    var parts := Split(encoded, '$');
    if |parts| != 6 || parts[0] != "" then Err(InvalidFormat)
    else if parts[1] != "argon2id" then Err(UnsupportedAlgorithm)
    else if parts[2] != "v=19" then Err(UnsupportedVersion)
    else
      var params := ReadParams(parts[3]);
      if params.None? then Err(InvalidParameters)
      else
        var salt := Decode(parts[4], Standard);
        if salt.None? || salt.value == [] then Err(InvalidSalt)
        else
          var hash := Decode(parts[5], Standard);
          if hash.None? || hash.value == [] then Err(InvalidHash)
          else Ok(Stored(params.value, salt.value, hash.value))
  }

  // Decoding an encoded hash gives back its parameters, salt and hash.
  lemma PhcRoundTrip(p: Params, salt: seq<Byte>, hash: seq<Byte>)
    requires p.InBounds() && salt != [] && hash != []
    ensures DecodePhc(EncodePhc(p, salt, hash)) == Ok(Stored(p, salt, hash))
  {
    ParamsRoundTrip(p);
    RoundTrip(salt, Standard);
    RoundTrip(hash, Standard);
    assert !InAlphabet('$', Standard);
    SplitOfJoin(["", "argon2id", "v=19", EncodeParams(p), Encode(salt, Standard), Encode(hash, Standard)], '$');
  }

  // Whatever was stored, a hash that decodes never asks for more than the ceilings.
  lemma DecodedIsBounded(encoded: string)
    requires DecodePhc(encoded).Ok?
    ensures var s := DecodePhc(encoded).value; s.params.InBounds() && s.salt != [] && s.hash != []
  {
    ParamsAreBounded(Split(encoded, '$')[3]);
  }

  // ----- hashing and verifying -----

  // The key derivation: deterministic, and as long as it is asked to be.
  type Derivation = (string, seq<Byte>, Params, nat) -> seq<Byte>

  ghost predicate KeepsLength(kdf: Derivation) {
    forall password, salt, params, n :: |kdf(password, salt, params, n)| == n
  }

  datatype Verdict = Verdict(matches: bool, needsRehash: bool)

  function Hash(kdf: Derivation, password: string, salt: seq<Byte>): string {
    EncodePhc(ACTIVE, salt, kdf(password, salt, ACTIVE, KEY_LENGTH))
  }

  function Verify(kdf: Derivation, password: string, encoded: string): Result<Verdict, DecodeError> {
    match DecodePhc(encoded)
    case Err(e) => Err(e)
    case Ok(s) =>
      var matches := kdf(password, s.salt, s.params, |s.hash|) == s.hash;
      Ok(Verdict(matches, matches && NeedsRehash(s.params)))
  }

  // A password matches a stored hash of any acceptable parameters, strong or weak, exactly when
  // it derives as many bytes as are stored under the stored salt and parameters, and they are
  // those stored. A match is flagged for rehashing exactly when there is less memory than 64 MiB,
  // or fewer than three iterations, or fewer than four lanes; a mismatch never is.
  lemma VerifiesByDeriving(kdf: Derivation, p: Params, password: string, salt: seq<Byte>, hash: seq<Byte>)
    requires p.InBounds() && salt != [] && hash != []
    ensures var matches := kdf(password, salt, p, |hash|) == hash;
            Verify(kdf, password, EncodePhc(p, salt, hash))
            == Ok(Verdict(matches, matches && (p.memory < 65536 || p.iterations < 3 || p.parallelism < 4)))
  {
    PhcRoundTrip(p, salt, hash);
  }

  // So a stored hash verifies its own password, of whatever length it was derived.
  lemma StoredHashVerifies(kdf: Derivation, p: Params, password: string, salt: seq<Byte>, n: nat)
    requires KeepsLength(kdf) && p.InBounds() && salt != [] && n > 0
    ensures Verify(kdf, password, EncodePhc(p, salt, kdf(password, salt, p, n)))
         == Ok(Verdict(true, p.memory < 65536 || p.iterations < 3 || p.parallelism < 4))
  {
    VerifiesByDeriving(kdf, p, password, salt, kdf(password, salt, p, n));
  }

  // A freshly hashed password matches and needs no rehash; another password matches exactly
  // when it derives the same 32 bytes under the same salt.
  lemma FreshHashVerifies(kdf: Derivation, password: string, other: string, salt: seq<Byte>)
    requires KeepsLength(kdf) && salt != []
    ensures Verify(kdf, password, Hash(kdf, password, salt)) == Ok(Verdict(true, false))
    ensures var p := Params(65536, 3, 4);
            Verify(kdf, other, Hash(kdf, password, salt))
            == Ok(Verdict(kdf(other, salt, p, 32) == kdf(password, salt, p, 32), false))
  {
    PhcRoundTrip(ACTIVE, salt, kdf(password, salt, ACTIVE, KEY_LENGTH));
  }

  // ----- the written form -----

  lemma SmallDecimals()
    ensures Decimal(3) == "3" && Decimal(4) == "4" && Decimal(65536) == "65536"
  {
    assert Decimal(6) == "6";
    assert Decimal(65) == "65";
    assert Decimal(655) == "655";
    assert Decimal(6553) == "6553";
  }

  lemma JoinMore(head: string, rest: seq<string>, sep: char)
    requires rest != []
    ensures Join([head] + rest, sep) == head + [sep] + Join(rest, sep)
  {
    assert ([head] + rest)[1..] == rest;
  }

  lemma JoinThree(d: string, e: string, f: string, sep: char)
    ensures Join([d, e, f], sep) == d + [sep] + (e + [sep] + f)
  {
    JoinMore(d, [e, f], sep);
    JoinMore(e, [f], sep);
    assert [d] + [e, f] == [d, e, f] && [e] + [f] == [e, f];
  }

  lemma JoinSix(a: string, b: string, c: string, d: string, e: string, f: string, sep: char)
    ensures Join([a, b, c, d, e, f], sep) == a + [sep] + (b + [sep] + (c + [sep] + (d + [sep] + (e + [sep] + f))))
  {
    JoinThree(d, e, f, sep);
    JoinMore(c, [d, e, f], sep);
    JoinMore(b, [c, d, e, f], sep);
    JoinMore(a, [b, c, d, e, f], sep);
    assert [c] + [d, e, f] == [c, d, e, f];
    assert [b] + [c, d, e, f] == [b, c, d, e, f];
    assert [a] + [b, c, d, e, f] == [a, b, c, d, e, f];
  }

  // What is stored of a fresh hash, to the letter.
  lemma FreshHashText(kdf: Derivation, password: string, salt: seq<Byte>)
    ensures Hash(kdf, password, salt)
         == "$argon2id$v=19$m=65536,t=3,p=4$"
            + (Encode(salt, Standard) + "$" + Encode(kdf(password, salt, Params(65536, 3, 4), 32), Standard))
  {
    ActiveText();
    PhcText("m=65536,t=3,p=4", Encode(salt, Standard),
            Encode(kdf(password, salt, ACTIVE, KEY_LENGTH), Standard));
  }

  lemma PhcText(m: string, s: string, h: string)
    ensures Join(["", "argon2id", "v=19", m, s, h], '$') == "$argon2id$v=19$" + (m + "$" + (s + "$" + h))
  {
    JoinSix("", "argon2id", "v=19", m, s, h, '$');
  }

  lemma ActiveText()
    ensures EncodeParams(ACTIVE) == "m=65536,t=3,p=4"
  {
    SmallDecimals();
    assert ['m', '='] + Decimal(65536) == "m=65536";
    assert ['t', '='] + Decimal(3) == "t=3" && ['p', '='] + Decimal(4) == "p=4";
    JoinThree("m=65536", "t=3", "p=4", ',');
  }

  // ----- what is refused -----

  // A parameter piece is read exactly when its key is one of the three and its number, written
  // plainly, is at least one and within the limit for the key.
  lemma PieceIsRead(key: string, n: nat)
    requires '=' !in key
    ensures ReadSetting(key + "=" + Decimal(n))
         == if key == "m" && 1 <= n <= 131072 then Some(Setting(Memory, n))
            else if key == "t" && 1 <= n <= 8 then Some(Setting(Iterations, n))
            else if key == "p" && 1 <= n <= 255 then Some(Setting(Parallelism, n))
            else None
  {
    DecimalRoundTrip(n);
    var part := key + "=" + Decimal(n);
    KeyEnds(key, Decimal(n));
    assert part[|key| + 1..] == Decimal(n) && part[..|key|] == key;
  }

  lemma {:induction false} KeyEnds(key: string, value: string)
    requires '=' !in key
    ensures IndexOf(key + "=" + value, '=') == |key|
    decreases |key|
  {
    var part := key + "=" + value;
    if key != "" {
      KeyEnds(key[1..], value);
      assert part[1..] == key[1..] + "=" + value;
    }
  }

  predicate IsNothing(bytes: Option<seq<Byte>>) {
    bytes == None || bytes == Some([])
  }

  ghost predicate AnswersTo(parts: seq<string>, result: Result<Stored, DecodeError>) {
    if |parts| != 6 || parts[0] != "" then result == Err(InvalidFormat)
    else if parts[1] != "argon2id" then result == Err(UnsupportedAlgorithm)
    else if parts[2] != "v=19" then result == Err(UnsupportedVersion)
    else if ReadParams(parts[3]).None? then result == Err(InvalidParameters)
    else if IsNothing(Decode(parts[4], Standard)) then result == Err(InvalidSalt)
    else if IsNothing(Decode(parts[5], Standard)) then result == Err(InvalidHash)
    else result.Ok?
  }

  lemma SplitAnswers(encoded: string)
    ensures AnswersTo(Split(encoded, '$'), DecodePhc(encoded))
  {
  }

  // Why a stored hash of these parts is refused, in the order in which it is.
  lemma StoredRefusals(parts: seq<string>)
    requires parts != [] && forall p :: p in parts ==> '$' !in p
    ensures AnswersTo(parts, DecodePhc(Join(parts, '$')))
  {
    SplitOfJoin(parts, '$');
    SplitAnswers(Join(parts, '$'));
  }
}
