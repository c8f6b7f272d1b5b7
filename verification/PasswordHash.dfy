/** Argon2id password hashes in their printed form, and verification of a password against one.
    The key derivation itself is a parameter. */
module PasswordHash {
  import opened Wrappers
  import opened Strings
  import opened Decimal
  import opened Base64

  const ARGON_VERSION := 19
  const ARGON_MEMORY := 64 * 1024
  const ARGON_TIME := 3
  const ARGON_THREADS := 4
  const ARGON_HASH_LEN := 32

  const TWO_32 := 0x1_0000_0000

  datatype Error =
    | InvalidFormat | UnsupportedType | InvalidVersion | InvalidParameter | MissingParameter | InvalidSalt | InvalidHash

  /** memory, time, threads: uint32, uint32 and uint8. */
  datatype Params = Params(memory: nat, time: nat, threads: nat)

  datatype Fields = Fields(params: Params, salt: seq<Byte>, hash: seq<Byte>)

  /** password, salt, time, memory, threads, length of the key */
  type Kdf = (string, seq<Byte>, nat, nat, nat, nat) -> seq<Byte>

  // ------------------------------------------------------------------------------- printing

  function PrintParam(name: string, value: nat): string {
    name + "=" + Digits(value)
  }

  function PrintParams(p: Params): string {
    PrintParam("m", p.memory) + "," + PrintParam("t", p.time) + "," + PrintParam("p", p.threads)
  }

  function PrintKeys(f: Fields): string {
    Encode(UrlSafe, f.salt) + "$" + Encode(UrlSafe, f.hash)
  }

  function PrintVersion(version: nat, params: string, f: Fields): string {
    "$argon2id$v=" + Digits(version) + "$" + (params + "$" + PrintKeys(f))
  }

  function PrintWith(params: string, f: Fields): string {
    PrintVersion(ARGON_VERSION, params, f)
  }

  function Print(f: Fields): string {
    PrintWith(PrintParams(f.params), f)
  }

  // -------------------------------------------------------------------------------- parsing

  /** Leading blanks are skipped when a number is scanned; a newline is an error. */
  function SkipBlanks(s: string): Option<string> {
    if s == "" || !IsSpace(s[0]) then Some(s)
    else if s[0] == '\n' then None
    else SkipBlanks(s[1..])
  }

  /** Scanning "%d": digits up to the first other character; what follows is ignored. */
  function ScanDigits(s: string, limit: nat): Option<nat> {
    var n := DigitRun(s);
    if n == 0 || Value(s[..n]) >= limit then None else Some(Value(s[..n]))
  }

  function ScanUint32(s: string): Option<nat> {
    match SkipBlanks(s)
    case None => None
    case Some(t) => ScanDigits(t, TWO_32)
  }

  /** A signed scan, as the version is read. */
  function ScanInt(s: string): Option<int> {
    match SkipBlanks(s)
    case None => None
    case Some(t) =>
      var negative := t != "" && t[0] == '-';
      var digits := if negative || (t != "" && t[0] == '+') then t[1..] else t;
      match ScanDigits(digits, if negative then MAX_INT64 + 2 else MAX_INT64 + 1)
      case None => None
      case Some(v) => var n: int := v; Some(if negative then -n else n)
  }

  function ScanVersion(s: string): Option<int> {
    if HasPrefix(s, "v=") then ScanInt(s[2..]) else None
  }

  /** One parameter of the comma-separated list; threads are truncated to eight bits. */
  function TakeParam(p: Params, param: string): Option<Params> {
    if HasPrefix(param, "m=") then
      var v := ScanUint32(param[2..]);
      if v.None? then None else Some(p.(memory := v.value))
    else if HasPrefix(param, "t=") then
      var v := ScanUint32(param[2..]);
      if v.None? then None else Some(p.(time := v.value))
    else if HasPrefix(param, "p=") then
      var v := ScanUint32(param[2..]);
      if v.None? then None else Some(p.(threads := v.value % 256))
    else None
  }

  function TakeParams(p: Params, params: seq<string>): Option<Params>
    decreases |params|
  {
    if params == [] then Some(p)
    else
      var next := TakeParam(p, params[0]);
      if next.None? then None else TakeParams(next.value, params[1..])
  }

  function ParseParts(parts: seq<string>): Result<Fields, Error> {
    if |parts| < 2 then Err(InvalidFormat)
    else if parts[1] != "argon2id" then Err(UnsupportedType)
    else if |parts| != 6 then Err(InvalidFormat)
    else if ScanVersion(parts[2]) != Some(ARGON_VERSION) then Err(InvalidVersion)
    else
      var params := TakeParams(Params(0, 0, 0), Split(parts[3], ','));
      if params.None? then Err(InvalidParameter)
      else if params.value.memory == 0 || params.value.time == 0 || params.value.threads == 0 then Err(MissingParameter)
      else
        var salt, hash := Decode(UrlSafe, parts[4]), Decode(UrlSafe, parts[5]);
        if salt.None? then Err(InvalidSalt)
        else if hash.None? then Err(InvalidHash)
        else Ok(Fields(params.value, salt.value, hash.value))
  }

  /** The fields of a printed hash. */
  function ParseHash(encoded: string): Result<Fields, Error> {
    ParseParts(Split(encoded, '$'))
  }

  function Matches(kdf: Kdf, f: Fields, password: string): bool {
    f.hash == kdf(password, f.salt, f.params.time, f.params.memory, f.params.threads, |f.hash|)
  }

  /** What a verification answers. */
  function VerifyResult(kdf: Kdf, encoded: string, attempt: string): Result<bool, Error> {
    match ParseHash(encoded)
    case Ok(f) => Ok(Matches(kdf, f, attempt))
    case Err(e) => Err(e)
  }

  method VerifyPassword(kdf: Kdf, encodedHash: string, password: string) returns (r: Result<bool, Error>)
    ensures r == VerifyResult(kdf, encodedHash, password)
  {
    var parts := Split(encodedHash, '$');
    if |parts| < 2 {
      return Err(InvalidFormat);
    }
    if parts[1] == "argon2id" {
      r := VerifyPasswordArgon2id(kdf, parts, password);
    } else {
      r := Err(UnsupportedType);
    }
  }

  method VerifyPasswordArgon2id(kdf: Kdf, hashParts: seq<string>, password: string) returns (r: Result<bool, Error>)
    requires |hashParts| >= 2 && hashParts[1] == "argon2id"
    ensures r == match ParseParts(hashParts)
                 case Ok(f) => Ok(Matches(kdf, f, password))
                 case Err(e) => Err(e)
  {
    hide ScanVersion, ScanUint32, Split, Decode;
    if |hashParts| != 6 {
      return Err(InvalidFormat);
    }
    var version := ScanVersion(hashParts[2]);
    if version.None? || version.value != ARGON_VERSION {
      return Err(InvalidVersion);
    }
    var memory, time, threads := 0, 0, 0;
    var params := Split(hashParts[3], ',');
    ghost var all := TakeParams(Params(0, 0, 0), params);
    for i := 0 to |params|
      invariant all == TakeParams(Params(memory, time, threads), params[i..])
    {
      var param := params[i];
      assert params[i..][1..] == params[i + 1..];
      if HasPrefix(param, "m=") {
        var value := ScanUint32(param[2..]);
        if value.None? {
          return Err(InvalidParameter);
        }
        memory := value.value;
      } else if HasPrefix(param, "t=") {
        var value := ScanUint32(param[2..]);
        if value.None? {
          return Err(InvalidParameter);
        }
        time := value.value;
      } else if HasPrefix(param, "p=") {
        var value := ScanUint32(param[2..]);
        if value.None? {
          return Err(InvalidParameter);
        }
        threads := value.value % 256;
      } else {
        return Err(InvalidParameter);
      }
    }
    if memory == 0 || time == 0 || threads == 0 {
      return Err(MissingParameter);
    }
    var salt := Decode(UrlSafe, hashParts[4]);
    if salt.None? {
      return Err(InvalidSalt);
    }
    var hash := Decode(UrlSafe, hashParts[5]);
    if hash.None? {
      return Err(InvalidHash);
    }
    var computedHash := kdf(password, salt.value, time, memory, threads, |hash.value|);
    return Ok(hash.value == computedHash);
  }

  // ----------------------------------------------------------------------------- round trip

  /** The parameters the printer is used with. */
  predicate Printable(p: Params) {
    0 < p.memory < TWO_32 && 0 < p.time < TWO_32 && 0 < p.threads < 256
  }

  lemma ScanPrinted(v: nat, rest: string, limit: nat)
    requires rest == "" || !IsDigit(rest[0])
    ensures ScanDigits(Digits(v) + rest, limit) == if v < limit then Some(v) else None
    ensures SkipBlanks(Digits(v) + rest) == Some(Digits(v) + rest)
  {
    DigitRunAppend(Digits(v), rest);
    assert (Digits(v) + rest)[..|Digits(v)|] == Digits(v);
    ValueDigits(v);
  }

  /** A printed parameter sets its own field, whatever came before. */
  lemma TakePrinted(p: Params, name: string, v: nat)
    requires v < TWO_32 && (name == "m" || name == "t" || name == "p")
    ensures TakeParam(p, PrintParam(name, v)) ==
            Some(if name == "m" then p.(memory := v) else if name == "t" then p.(time := v) else p.(threads := v % 256))
  {
    hide Digits;
    var s := PrintParam(name, v);
    assert Digits(v) + "" == Digits(v);
    ScanPrinted(v, "", TWO_32);
    assert s[2..] == Digits(v);
    assert s[..2] == name + "=";
    assert HasPrefix(s, name + "=");
    assert "m=" == "m" + "=" && "t=" == "t" + "=" && "p=" == "p" + "=";
    assert s[0] == name[0] && "m="[0] == 'm' && "t="[0] == 't' && "p="[0] == 'p';
  }

  /** The three parameters are read in any order. */
  lemma ParamsInAnyOrder(p: Params, names: seq<string>, values: map<string, nat>)
    requires Printable(p) && values == map["m" := p.memory, "t" := p.time, "p" := p.threads]
    requires |names| == 3 && multiset(names) == multiset{"m", "t", "p"}
    ensures forall n | n in names :: n in values
    ensures TakeParams(Params(0, 0, 0), [PrintParam(names[0], values[names[0]]), PrintParam(names[1], values[names[1]]),
                                         PrintParam(names[2], values[names[2]])]) == Some(p)
  {
    hide PrintParam, TakeParam;
    assert names == [names[0], names[1], names[2]];
    assert forall n :: n in names ==> n in multiset(names);
    var a, b, c := names[0], names[1], names[2];
    assert a in names && b in names && c in names;
    assert multiset(names) == multiset{a, b, c};
    assert multiset{a, b, c}[a] == 1 && multiset{a, b, c}[b] == 1 && multiset{a, b, c}[c] == 1;
    var start := Params(0, 0, 0);
    TakePrinted(start, a, values[a]);
    var one := TakeParam(start, PrintParam(a, values[a])).value;
    TakePrinted(one, b, values[b]);
    var two := TakeParam(one, PrintParam(b, values[b])).value;
    TakePrinted(two, c, values[c]);
    TakeThree(start, PrintParam(a, values[a]), PrintParam(b, values[b]), PrintParam(c, values[c]));
  }

  lemma TakeThree(start: Params, x: string, y: string, z: string)
    ensures var one := TakeParam(start, x);
            var two := if one.None? then None else TakeParam(one.value, y);
            TakeParams(start, [x, y, z]) == if two.None? then None else TakeParam(two.value, z)
  {
    hide TakeParam;
    assert [x, y, z][1..] == [y, z] && [y, z][1..] == [z];
    TakeOne(z);
  }

  lemma TakeOne(z: string)
    ensures forall p :: TakeParams(p, [z]) == TakeParam(p, z)
  {
    hide TakeParam;
    assert [z][1..] == [];
  }

  lemma PlainDigits(v: nat, c: char)
    requires !IsDigit(c)
    ensures c !in Digits(v)
  {
  }

  lemma PlainParam(name: string, v: nat, c: char)
    requires c == ',' || c == '$'
    requires name == "m" || name == "t" || name == "p"
    ensures c !in PrintParam(name, v)
  {
    PlainDigits(v, c);
  }

  predicate IsParam(name: string) {
    name == "m" || name == "t" || name == "p"
  }

  /** Three printed parameters, in some order. */
  function List(a: string, u: nat, b: string, v: nat, c: string, w: nat): string {
    PrintParam(a, u) + "," + PrintParam(b, v) + "," + PrintParam(c, w)
  }

  lemma SplitParams(a: string, u: nat, b: string, v: nat, c: string, w: nat)
    requires IsParam(a) && IsParam(b) && IsParam(c)
    ensures Split(List(a, u, b, v, c, w), ',') == [PrintParam(a, u), PrintParam(b, v), PrintParam(c, w)]
    ensures '$' !in List(a, u, b, v, c, w)
  {
    hide PrintParam, Split;
    var x, y, z := PrintParam(a, u), PrintParam(b, v), PrintParam(c, w);
    PlainParam(a, u, ',');
    PlainParam(b, v, ',');
    PlainParam(c, w, ',');
    PlainParam(a, u, '$');
    PlainParam(b, v, '$');
    PlainParam(c, w, '$');
    SplitNone(z, ',');
    SplitCons(y, z, ',');
    SplitCons(x, y + "," + z, ',');
    assert x + "," + (y + "," + z) == List(a, u, b, v, c, w);
    assert [x] + ([y] + [z]) == [x, y, z];
  }

  lemma SplitPrinted(version: nat, params: string, f: Fields)
    requires '$' !in params
    ensures Split(PrintVersion(version, params, f), '$') ==
            ["", "argon2id", "v=" + Digits(version), params, Encode(UrlSafe, f.salt), Encode(UrlSafe, f.hash)]
  {
    hide Split, Digits, Encode;
    var v, tail := "v=" + Digits(version), params + "$" + PrintKeys(f);
    SplitTail(params, f);
    PlainDigits(version, '$');
    SplitCons(v, tail, '$');
    SplitCons("argon2id", v + "$" + tail, '$');
    SplitCons("", "argon2id" + "$" + (v + "$" + tail), '$');
    assert "" + "$" + ("argon2id" + "$" + (v + "$" + tail)) == PrintVersion(version, params, f);
  }

  lemma SplitTail(params: string, f: Fields)
    requires '$' !in params
    ensures Split(params + "$" + PrintKeys(f), '$') == [params, Encode(UrlSafe, f.salt), Encode(UrlSafe, f.hash)]
  {
    hide Split, Encode;
    NoDollar(f.salt);
    NoDollar(f.hash);
    SplitNone(Encode(UrlSafe, f.hash), '$');
    SplitCons(Encode(UrlSafe, f.salt), Encode(UrlSafe, f.hash), '$');
    SplitCons(params, PrintKeys(f), '$');
  }

  lemma NoDollar(b: seq<Byte>)
    ensures '$' !in Encode(UrlSafe, b)
  {
    EncodeChars(UrlSafe, b);
  }

  function ParamValues(p: Params): map<string, nat> {
    map["m" := p.memory, "t" := p.time, "p" := p.threads]
  }

  /** Parsing a hash printed with its parameters in any order recovers every field. */
  lemma ParsePermuted(f: Fields, a: string, b: string, c: string)
    requires Printable(f.params) && multiset{a, b, c} == multiset{"m", "t", "p"}
    ensures var values := ParamValues(f.params);
            a in values && b in values && c in values &&
            ParseHash(PrintWith(List(a, values[a], b, values[b], c, values[c]), f)) == Ok(f)
  {
    hide PrintVersion, List, Split, Encode, Decode, TakeParams, ScanInt;
    var values := ParamValues(f.params);
    assert multiset([a, b, c]) == multiset{a, b, c};
    ParamsInAnyOrder(f.params, [a, b, c], values);
    assert a in [a, b, c] && b in [a, b, c] && c in [a, b, c];
    SplitParams(a, values[a], b, values[b], c, values[c]);
    SplitPrinted(ARGON_VERSION, List(a, values[a], b, values[b], c, values[c]), f);
    Base64.RoundTrip(UrlSafe, f.salt);
    Base64.RoundTrip(UrlSafe, f.hash);
    VersionPrinted(ARGON_VERSION);
  }

  /** Parsing a printed hash recovers every field. */
  lemma ParsePrinted(f: Fields)
    requires Printable(f.params)
    ensures ParseHash(Print(f)) == Ok(f)
  {
    hide ParseHash, PrintParam;
    ParsePermuted(f, "m", "t", "p");
    assert List("m", f.params.memory, "t", f.params.time, "p", f.params.threads) == PrintParams(f.params);
  }

  lemma VersionPrinted(version: nat)
    requires version <= MAX_INT64
    ensures ScanVersion("v=" + Digits(version)) == Some(version)
  {
    hide Digits, Value;
    var s := "v=" + Digits(version);
    assert s[2..] == Digits(version) == Digits(version) + "";
    assert s[..2] == "v=";
    ScanPrinted(version, "", MAX_INT64 + 1);
    assert IsDigit(Digits(version)[0]);
  }

  /** A version may have a sign, and is refused outside the range of an int64. */
  lemma VersionSigned(version: nat)
    ensures ScanVersion("v=+" + Digits(version)) == if version <= MAX_INT64 then Some(version) else None
    ensures ScanVersion("v=-" + Digits(version)) == if version <= MAX_INT64 + 1 then Some(-(version as int)) else None
  {
    hide Digits, Value, ScanDigits;
    var digits := Digits(version);
    assert digits + "" == digits;
    ScanPrinted(version, "", MAX_INT64 + 1);
    ScanPrinted(version, "", MAX_INT64 + 2);
    var plus, minus := "v=+" + digits, "v=-" + digits;
    assert plus[..2] == minus[..2] == "v=";
    assert plus[2] == '+' && plus[2..][1..] == digits;
    assert minus[2] == '-' && minus[2..][1..] == digits;
  }

  /** A hash of another version is refused, whatever its parameters are. */
  lemma OtherVersionRefused(version: nat, params: string, f: Fields)
    requires version <= MAX_INT64 && version != ARGON_VERSION && '$' !in params
    ensures ParseHash(PrintVersion(version, params, f)) == Err(InvalidVersion)
  {
    hide PrintVersion, Split, Encode, Decode, TakeParams, ScanVersion;
    SplitPrinted(version, params, f);
    VersionPrinted(version);
  }

  lemma {:induction false} BlanksSkipped(blank: string, s: string)
    requires AllSpace(blank) && (s == "" || !IsSpace(s[0]))
    ensures SkipBlanks(blank + s) == if '\n' in blank then None else Some(s)
    decreases |blank|
  {
    if blank == "" {
      assert blank + s == s;
    } else {
      assert (blank + s)[1..] == blank[1..] + s;
      BlanksSkipped(blank[1..], s);
      assert blank == [blank[0]] + blank[1..];
    }
  }

  /** White space in front of a number is skipped when it is scanned, but a line end is an error. */
  lemma BlankNumber(blank: string, v: nat)
    requires AllSpace(blank) && v < TWO_32
    ensures ScanUint32(blank + Digits(v)) == if '\n' in blank then None else Some(v)
  {
    hide ScanDigits;
    DigitsNoSpace(v);
    BlanksSkipped(blank, Digits(v));
    assert Digits(v) + "" == Digits(v);
    ScanPrinted(v, "", TWO_32);
  }

  lemma DigitsNoSpace(v: nat)
    ensures !IsSpace(Digits(v)[0])
  {
    assert IsDigit(Digits(v)[0]);
  }

  /** Text without "$", a hash of another type, and one of this type that ends early. */
  lemma NotAHash(front: string, kind: string, rest: string)
    requires '$' !in front && '$' !in kind
    ensures ParseHash(front) == Err(InvalidFormat)
    ensures kind != "argon2id" ==> ParseHash(front + "$" + (kind + "$" + rest)) == Err(UnsupportedType)
    ensures kind != "argon2id" ==> ParseHash(front + "$" + kind) == Err(UnsupportedType)
    ensures ParseHash(front + "$" + "argon2id") == Err(InvalidFormat)
  {
    hide Split, ScanVersion, Decode, TakeParams;
    SplitNone(front, '$');
    SplitNone(kind, '$');
    SplitNone("argon2id", '$');
    SplitCons(front, kind + "$" + rest, '$');
    SplitCons(kind, rest, '$');
    SplitCons(front, kind, '$');
    SplitCons(front, "argon2id", '$');
    assert ([front] + ([kind] + Split(rest, '$')))[1] == kind;
  }

  predicate BadParam(param: string) {
    !(exists name | name in {"m=", "t=", "p="} :: HasPrefix(param, name) && ScanUint32(param[2..]).Some?)
  }

  ghost predicate HasBadParam(params: seq<string>) {
    exists i :: 0 <= i < |params| && BadParam(params[i])
  }

  lemma {:induction false} TakesExactly(p: Params, params: seq<string>)
    ensures TakeParams(p, params).None? <==> HasBadParam(params)
    decreases |params|
  {
    hide ScanUint32;
    if params != [] {
      var next := TakeParam(p, params[0]);
      OneParam(p, params[0]);
      if next.Some? {
        TakesExactly(next.value, params[1..]);
        assert forall i | 0 < i < |params| :: params[i] == params[1..][i - 1];
      }
    }
  }

  lemma OneParam(p: Params, param: string)
    ensures TakeParam(p, param).None? <==> BadParam(param)
  {
    hide ScanUint32;
    assert HasPrefix(param, "m=") || HasPrefix(param, "t=") || HasPrefix(param, "p=") ==> |param| >= 2;
    assert HasPrefix(param, "m=") ==> "m=" in {"m=", "t=", "p="};
    assert HasPrefix(param, "t=") ==> "t=" in {"m=", "t=", "p="};
    assert HasPrefix(param, "p=") ==> "p=" in {"m=", "t=", "p="};
  }

  /** The error of every hash with six parts: the first thing that is wrong with it. */
  lemma RefusedExactly(version: string, params: string, salt: string, key: string)
    requires '$' !in version && '$' !in params && '$' !in salt && '$' !in key
    ensures var r := ParseHash("$argon2id$" + version + "$" + (params + "$" + (salt + "$" + key)));
            var pieces := Split(params, ',');
            var taken := TakeParams(Params(0, 0, 0), pieces);
            var bad := HasBadParam(pieces);
            var zero := taken.Some? && (taken.value.memory == 0 || taken.value.time == 0 || taken.value.threads == 0);
            var ok := ScanVersion(version) == Some(19);
            var read := ok && !bad && !zero;
            && (r == Err(InvalidVersion) <==> !ok)
            && (r == Err(InvalidParameter) <==> ok && bad)
            && (r == Err(MissingParameter) <==> ok && !bad && zero)
            && (r == Err(InvalidSalt) <==> read && Decode(UrlSafe, salt).None?)
            && (r == Err(InvalidHash) <==> read && Decode(UrlSafe, salt).Some? && Decode(UrlSafe, key).None?)
  {
    hide Split, ScanVersion, Decode, TakeParams, HasBadParam;
    TakesExactly(Params(0, 0, 0), Split(params, ','));
    SplitFields(version, params, salt, key);
  }

  lemma SplitFields(version: string, params: string, salt: string, key: string)
    requires '$' !in version && '$' !in params && '$' !in salt && '$' !in key
    ensures Split("$argon2id$" + version + "$" + (params + "$" + (salt + "$" + key)), '$')
         == ["", "argon2id", version, params, salt, key]
  {
    hide Split;
    SplitNone(key, '$');
    SplitCons(salt, key, '$');
    SplitCons(params, salt + "$" + key, '$');
    var tail := params + "$" + (salt + "$" + key);
    SplitCons(version, tail, '$');
    SplitCons("argon2id", version + "$" + tail, '$');
    SplitCons("", "argon2id" + "$" + (version + "$" + tail), '$');
    assert "" + "$" + ("argon2id" + "$" + (version + "$" + tail)) == "$argon2id$" + version + "$" + tail;
  }

  /** A hash with a parameter of zero is refused as one without it. */
  lemma ZeroRefused(f: Fields)
    requires f.params.memory < TWO_32 && f.params.time < TWO_32 && f.params.threads < 256
    requires f.params.memory == 0 || f.params.time == 0 || f.params.threads == 0
    ensures ParseHash(Print(f)) == Err(MissingParameter)
  {
    hide PrintVersion, Split, Encode, Decode, TakeParam, ScanVersion, PrintParam;
    var p := f.params;
    SplitParams("m", p.memory, "t", p.time, "p", p.threads);
    assert List("m", p.memory, "t", p.time, "p", p.threads) == PrintParams(p);
    SplitPrinted(ARGON_VERSION, PrintParams(p), f);
    VersionPrinted(ARGON_VERSION);
    var start := Params(0, 0, 0);
    TakePrinted(start, "m", p.memory);
    TakePrinted(Params(p.memory, 0, 0), "t", p.time);
    TakePrinted(Params(p.memory, p.time, 0), "p", p.threads);
    TakeThree(start, PrintParam("m", p.memory), PrintParam("t", p.time), PrintParam("p", p.threads));
  }

  lemma {:induction false} TakenInRange(p: Params, params: seq<string>)
    requires p.memory < TWO_32 && p.time < TWO_32 && p.threads < 256
    ensures var q := TakeParams(p, params);
            q.Some? ==> q.value.memory < TWO_32 && q.value.time < TWO_32 && q.value.threads < 256
    decreases |params|
  {
    hide SkipBlanks, DigitRun, Value;
    if params != [] && TakeParam(p, params[0]).Some? {
      TakenInRange(TakeParam(p, params[0]).value, params[1..]);
    }
  }

  /** A hash that parses has parameters the derivation can work with. */
  lemma ParsedIsPrintable(encoded: string)
    ensures ParseHash(encoded).Ok? ==> Printable(ParseHash(encoded).value.params)
  {
    hide Split, Decode, ScanVersion, TakeParams;
    var parts := Split(encoded, '$');
    if |parts| == 6 {
      TakenInRange(Params(0, 0, 0), Split(parts[3], ','));
    }
  }

  /** Verification derives with the parameters, the salt and the key length of the stored hash: an
      attempt is accepted if and only if that gives the stored key. */
  lemma VerifyPrinted(kdf: Kdf, p: Params, salt: seq<Byte>, key: seq<Byte>, attempt: string)
    requires Printable(p)
    ensures VerifyResult(kdf, Print(Fields(p, salt, key)), attempt)
         == Ok(kdf(attempt, salt, p.time, p.memory, p.threads, |key|) == key)
  {
    hide ParseHash, Print;
    ParsePrinted(Fields(p, salt, key));
  }

  /** So a password verifies against the hash made of it, with any parameters and any key length, and
      another one exactly when it derives the same key. */
  lemma VerifyDerived(kdf: Kdf, password: string, p: Params, salt: seq<Byte>, n: nat, attempt: string)
    requires Printable(p) && |kdf(password, salt, p.time, p.memory, p.threads, n)| == n
    ensures var key := kdf(password, salt, p.time, p.memory, p.threads, n);
            && VerifyResult(kdf, Print(Fields(p, salt, key)), password) == Ok(true)
            && VerifyResult(kdf, Print(Fields(p, salt, key)), attempt)
               == Ok(kdf(attempt, salt, p.time, p.memory, p.threads, n) == key)
  {
    var key := kdf(password, salt, p.time, p.memory, p.threads, n);
    VerifyPrinted(kdf, p, salt, key, password);
    VerifyPrinted(kdf, p, salt, key, attempt);
  }

  /** The key that is derived and stored for a password. */
  function StoredKey(kdf: Kdf, password: string, salt: seq<Byte>): seq<Byte> {
    kdf(password, salt, ARGON_TIME, ARGON_MEMORY, ARGON_THREADS, ARGON_HASH_LEN)
  }

  function StoredFields(kdf: Kdf, password: string, salt: seq<Byte>): Fields {
    Fields(Params(ARGON_MEMORY, ARGON_TIME, ARGON_THREADS), salt, StoredKey(kdf, password, salt))
  }

  /** A password verifies against the hash calculated for another exactly when the key derived
      from it, with the stored salt, is the stored key. */
  lemma VerifyCalculated(kdf: Kdf, password: string, salt: seq<Byte>, attempt: string)
    requires |StoredKey(kdf, password, salt)| == ARGON_HASH_LEN
    ensures var stored := Print(StoredFields(kdf, password, salt));
            VerifyResult(kdf, stored, attempt) == Ok(StoredKey(kdf, attempt, salt) == StoredKey(kdf, password, salt))
  {
    VerifyPrinted(kdf, Params(ARGON_MEMORY, ARGON_TIME, ARGON_THREADS), salt, StoredKey(kdf, password, salt), attempt);
  }

  lemma FormatIsPrint(f: Fields)
    ensures "$argon2id$v=" + Digits(ARGON_VERSION) + "$m=" + Digits(f.params.memory) + ",t=" + Digits(f.params.time)
            + ",p=" + Digits(f.params.threads) + "$" + Encode(UrlSafe, f.salt) + "$" + Encode(UrlSafe, f.hash)
            == Print(f)
  {
    hide Digits, Encode;
    var front := "$argon2id$v=" + Digits(ARGON_VERSION) + "$";
    var m, t, p := Digits(f.params.memory), Digits(f.params.time), Digits(f.params.threads);
    assert PrintParams(f.params) == "m=" + m + ",t=" + t + ",p=" + p;
    assert "$argon2id$v=" + Digits(ARGON_VERSION) + "$m=" + m + ",t=" + t + ",p=" + p == front + PrintParams(f.params);
  }

  lemma ShippedPrefix()
    ensures "$argon2id$v=" + Digits(ARGON_VERSION) + "$m=" + Digits(ARGON_MEMORY) + ",t=" + Digits(ARGON_TIME)
            + ",p=" + Digits(ARGON_THREADS) + "$" == "$argon2id$v=19$m=65536,t=3,p=4$"
  {
    hide Digits;
    DigitNumeral(1);
    DigitNumeral(3);
    DigitNumeral(4);
    DigitNumeral(6);
    DigitsSnoc(1, 9);
    DigitsSnoc(6, 5);
    DigitsSnoc(65, 5);
    DigitsSnoc(655, 3);
    DigitsSnoc(6553, 6);
    assert Digits(ARGON_MEMORY) == "65536" && Digits(ARGON_VERSION) == "19";
  }

  /** The salt is what the random source gives, if it gives one.  The printed hash is read back as
      the shipped parameters, that salt and the derived key; so later attempts verify against it
      exactly when they derive the same key. */
  method CalculatePasswordHash(kdf: Kdf, password: string, random: Option<seq<Byte>>) returns (encoded: Option<string>)
    ensures encoded.Some? <==> random.Some?
    ensures encoded.Some? ==> ParseHash(encoded.value) == Ok(StoredFields(kdf, password, random.value))
    ensures encoded.Some? ==> encoded.value == Print(StoredFields(kdf, password, random.value))
    ensures encoded.Some? && |StoredKey(kdf, password, random.value)| == ARGON_HASH_LEN ==>
      forall attempt :: VerifyResult(kdf, encoded.value, attempt) ==
        Ok(StoredKey(kdf, attempt, random.value) == StoredKey(kdf, password, random.value))
    ensures encoded.Some? ==> HasPrefix(encoded.value, "$argon2id$v=19$m=65536,t=3,p=4$")
  {
    hide Print, ParseHash, Digits, Encode, VerifyResult;
    if random.None? {
      return None;
    }
    var salt := random.value;
    var hash := kdf(password, salt, ARGON_TIME, ARGON_MEMORY, ARGON_THREADS, ARGON_HASH_LEN);
    var b64salt, b64hash := Encode(UrlSafe, salt), Encode(UrlSafe, hash);
    FormatIsPrint(StoredFields(kdf, password, salt));
    ParsePrinted(StoredFields(kdf, password, salt));
    if |hash| == ARGON_HASH_LEN {
      forall attempt ensures VerifyResult(kdf, Print(StoredFields(kdf, password, salt)), attempt) ==
        Ok(StoredKey(kdf, attempt, salt) == StoredKey(kdf, password, salt))
      {
        VerifyCalculated(kdf, password, salt, attempt);
      }
    }
    ShippedPrefix();
    return Some("$argon2id$v=" + Digits(ARGON_VERSION) + "$m=" + Digits(ARGON_MEMORY) + ",t=" + Digits(ARGON_TIME)
                + ",p=" + Digits(ARGON_THREADS) + "$" + b64salt + "$" + b64hash);
  }
}
