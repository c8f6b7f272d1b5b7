/** Padded base64, in the standard alphabet (section 4 of RFC 4648) and the URL-safe one
    (section 5), as Go's encoding/base64 encodes and decodes it. */
module Base64 {
  import opened Wrappers
  import opened Strings

  datatype Alphabet = Standard | UrlSafe

  function Symbol(a: Alphabet, d: nat): char
    requires d < 64
  {
    if d < 26 then 'A' + d as char
    else if d < 52 then 'a' + (d - 26) as char
    else if d < 62 then '0' + (d - 52) as char
    else if d == 62 then (if a.Standard? then '+' else '-')
    else (if a.Standard? then '/' else '_')
  }

  function SymbolValue(a: Alphabet, c: char): Option<nat> {
    if 'A' <= c <= 'Z' then Some((c as int) - ('A' as int))
    else if 'a' <= c <= 'z' then Some((c as int) - ('a' as int) + 26)
    else if '0' <= c <= '9' then Some((c as int) - ('0' as int) + 52)
    else if c == (if a.Standard? then '+' else '-') then Some(62)
    else if c == (if a.Standard? then '/' else '_') then Some(63)
    else None
  }

  lemma SymbolRoundTrip(a: Alphabet, d: nat)
    requires d < 64
    ensures SymbolValue(a, Symbol(a, d)) == Some(d)
  {
  }

  function Encode(a: Alphabet, b: seq<Byte>): string
    decreases |b|
  {
    if b == [] then ""
    else if |b| == 1 then [Symbol(a, b[0] / 4), Symbol(a, b[0] % 4 * 16), '=', '=']
    else if |b| == 2 then
      [Symbol(a, b[0] / 4), Symbol(a, b[0] % 4 * 16 + b[1] / 16), Symbol(a, b[1] % 16 * 4), '=']
    else EncodeGroup(a, b[0], b[1], b[2]) + Encode(a, b[3..])
  }

  function EncodeGroup(a: Alphabet, x: Byte, y: Byte, z: Byte): string {
    [Symbol(a, x / 4), Symbol(a, x % 4 * 16 + y / 16), Symbol(a, y % 16 * 4 + z / 64), Symbol(a, z % 64)]
  }

  function WithoutNewlines(s: string): string {
    if s == "" then ""
    else if s[0] == '\n' || s[0] == '\r' then WithoutNewlines(s[1..])
    else [s[0]] + WithoutNewlines(s[1..])
  }

  /** The bytes of one full group of symbols. */
  function Group(p: nat, q: nat, r: nat, s: nat): seq<Byte>
    requires p < 64 && q < 64 && r < 64 && s < 64
  {
    [p * 4 + q / 16, q % 16 * 16 + r / 4, r % 4 * 64 + s]
  }

  /** DecodeString: newlines are skipped, padding is required, unused bits are ignored. */
  function Decode(a: Alphabet, s: string): Option<seq<Byte>> {
    DecodeGroups(a, WithoutNewlines(s))
  }

  function DecodeGroups(a: Alphabet, s: string): Option<seq<Byte>>
    decreases |s|
  {
    if s == "" then Some([])
    else if |s| < 4 then None
    else
      var p, q, r, t := SymbolValue(a, s[0]), SymbolValue(a, s[1]), SymbolValue(a, s[2]), SymbolValue(a, s[3]);
      if p.None? || q.None? then None
      else if s[2] == '=' then
        if s[3] == '=' && |s| == 4 then Some(Group(p.value, q.value, 0, 0)[..1]) else None
      else if r.None? then None
      else if s[3] == '=' then
        if |s| == 4 then Some(Group(p.value, q.value, r.value, 0)[..2]) else None
      else if t.None? then None
      else
        var rest := DecodeGroups(a, s[4..]);
        if rest.None? then None else Some(Group(p.value, q.value, r.value, t.value) + rest.value)
  }

  lemma SymbolIsNotPad(a: Alphabet, d: nat)
    requires d < 64
    ensures Symbol(a, d) != '='
  {
  }

  /** What an encoding is made of. */
  predicate IsEncodingChar(a: Alphabet, c: char) {
    SymbolValue(a, c).Some? || c == '='
  }

  lemma {:induction false} EncodeChars(a: Alphabet, b: seq<Byte>)
    ensures forall c | c in Encode(a, b) :: IsEncodingChar(a, c)
    decreases |b|
  {
    if |b| > 2 {
      EncodeChars(a, b[3..]);
    }
  }

  /** Padding is found in the last two places only, and then in the last one. */
  lemma {:induction false} PadsAtEnd(a: Alphabet, b: seq<Byte>, i: nat)
    requires i < |Encode(a, b)| && Encode(a, b)[i] == '='
    ensures i >= |Encode(a, b)| - 2 && Encode(a, b)[|Encode(a, b)| - 1] == '='
    decreases |b|
  {
    if |b| > 2 {
      hide Symbol;
      SymbolIsNotPad(a, b[0] / 4);
      SymbolIsNotPad(a, b[0] % 4 * 16 + b[1] / 16);
      SymbolIsNotPad(a, b[1] % 16 * 4 + b[2] / 64);
      SymbolIsNotPad(a, b[2] % 64);
      PadsAtEnd(a, b[3..], i - 4);
    } else if |b| > 0 {
      hide Symbol;
      SymbolIsNotPad(a, b[0] / 4);
      if |b| == 2 {
        SymbolIsNotPad(a, b[0] % 4 * 16 + b[1] / 16);
      } else {
        SymbolIsNotPad(a, b[0] % 4 * 16);
      }
    }
  }

  lemma {:induction false} NoNewlines(s: string)
    requires '\n' !in s && '\r' !in s
    ensures WithoutNewlines(s) == s
  {
    if s != "" {
      NoNewlines(s[1..]);
    }
  }

  lemma GroupRoundTrip(x: Byte, y: Byte, z: Byte)
    ensures Group(x / 4, x % 4 * 16 + y / 16, y % 16 * 4 + z / 64, z % 64) == [x, y, z]
  {
  }

  lemma {:induction false} DecodeGroupsEncode(a: Alphabet, b: seq<Byte>)
    ensures DecodeGroups(a, Encode(a, b)) == Some(b)
    decreases |b|
  {
    if |b| == 1 {
      assert b == [b[0]];
      DecodeOne(a, b[0]);
    } else if |b| == 2 {
      assert b == [b[0], b[1]];
      DecodeTwo(a, b[0], b[1]);
    } else if |b| > 2 {
      DecodeGroupsEncode(a, b[3..]);
      DecodeFullGroup(a, b[0], b[1], b[2], Encode(a, b[3..]));
      assert [b[0], b[1], b[2]] + b[3..] == b;
    }
  }

  lemma DecodeOne(a: Alphabet, x: Byte)
    ensures DecodeGroups(a, Encode(a, [x])) == Some([x])
  {
    hide SymbolValue, Symbol, Group;
    SymbolRoundTrip(a, x / 4);
    SymbolRoundTrip(a, x % 4 * 16);
    PartialGroups(x, 0);
    var s := Encode(a, [x]);
    assert s == [Symbol(a, x / 4), Symbol(a, x % 4 * 16), '=', '='];
  }

  lemma PartialGroups(x: Byte, y: Byte)
    ensures Group(x / 4, x % 4 * 16, 0, 0)[..1] == [x]
    ensures Group(x / 4, x % 4 * 16 + y / 16, y % 16 * 4, 0)[..2] == [x, y]
  {
    assert (x % 4 * 16) / 16 == x % 4;
    assert (x % 4 * 16 + y / 16) / 16 == x % 4 && (x % 4 * 16 + y / 16) % 16 == y / 16;
    assert (y % 16 * 4) / 4 == y % 16;
  }

  lemma DecodeTwo(a: Alphabet, x: Byte, y: Byte)
    ensures DecodeGroups(a, Encode(a, [x, y])) == Some([x, y])
  {
    hide SymbolValue, Symbol, Group;
    SymbolRoundTrip(a, x / 4);
    SymbolRoundTrip(a, x % 4 * 16 + y / 16);
    SymbolRoundTrip(a, y % 16 * 4);
    SymbolIsNotPad(a, y % 16 * 4);
    PartialGroups(x, y);
    var s := Encode(a, [x, y]);
    assert s == [Symbol(a, x / 4), Symbol(a, x % 4 * 16 + y / 16), Symbol(a, y % 16 * 4), '='];
  }

  lemma DecodeFullGroup(a: Alphabet, x: Byte, y: Byte, z: Byte, rest: string)
    ensures DecodeGroups(a, EncodeGroup(a, x, y, z) + rest)
         == (if DecodeGroups(a, rest).None? then None else Some([x, y, z] + DecodeGroups(a, rest).value))
  {
    hide SymbolValue, Symbol;
    SymbolIsNotPad(a, y % 16 * 4 + z / 64);
    SymbolIsNotPad(a, z % 64);
    var s := EncodeGroup(a, x, y, z) + rest;
    assert s[4..] == rest;
    SymbolRoundTrip(a, x / 4);
    SymbolRoundTrip(a, x % 4 * 16 + y / 16);
    SymbolRoundTrip(a, y % 16 * 4 + z / 64);
    SymbolRoundTrip(a, z % 64);
    GroupRoundTrip(x, y, z);
  }

  /** Decoding undoes encoding. */
  lemma {:induction false} RoundTrip(a: Alphabet, b: seq<Byte>)
    ensures Decode(a, Encode(a, b)) == Some(b)
  {
    EncodeChars(a, b);
    NoNewlines(Encode(a, b));
    DecodeGroupsEncode(a, b);
  }

  // ---------------------------------------------------------------------- against the standard

  /** The symbols are those of tables 1 and 2 of RFC 4648. */
  lemma SymbolsOfTable(a: Alphabet, d: nat)
    requires d < 64
    ensures Symbol(a, d) == (UPPER + LOWER + DIGITS + if a.Standard? then "+/" else "-_")[d]
  {
    if d < 26 {
      LetterAt(d);
    } else if d < 52 {
      LetterAt(d - 26);
    } else if d < 62 {
      DigitAt(d - 52);
    }
  }

  /** Four symbols, padding included, for every three bytes or part of them. */
  lemma {:induction false} EncodedLength(a: Alphabet, b: seq<Byte>)
    ensures |Encode(a, b)| == (|b| + 2) / 3 * 4
    decreases |b|
  {
    if |b| > 2 {
      EncodedLength(a, b[3..]);
      assert (|b| + 2) / 3 == (|b| - 3 + 2) / 3 + 1;
    }
  }

  /** Section 10 of RFC 4648: "foobar", "f" and "fo". */
  lemma Rfc4648Vectors()
    ensures Encode(Standard, [0x66, 0x6f, 0x6f, 0x62, 0x61, 0x72]) == "Zm9vYmFy"
    ensures Encode(Standard, [0x66]) == "Zg==" && Encode(Standard, [0x66, 0x6f]) == "Zm8="
  {
    var foobar: seq<Byte> := [0x66, 0x6f, 0x6f, 0x62, 0x61, 0x72];
    assert foobar[3..] == [0x62, 0x61, 0x72] && foobar[3..][3..] == [];
    assert EncodeGroup(Standard, 0x66, 0x6f, 0x6f) == "Zm9v" && EncodeGroup(Standard, 0x62, 0x61, 0x72) == "YmFy";
    assert "YmFy" + "" == "YmFy" && "Zm9v" + "YmFy" == "Zm9vYmFy";
  }

  lemma {:induction false} WithoutAppend(x: string, y: string)
    ensures WithoutNewlines(x + y) == WithoutNewlines(x) + WithoutNewlines(y)
    decreases |x|
  {
    if x == "" {
      assert x + y == y;
    } else {
      assert (x + y)[1..] == x[1..] + y;
      WithoutAppend(x[1..], y);
    }
  }

  /** Line ends in an encoding make no difference. */
  lemma NewlinesIgnored(a: Alphabet, x: string, y: string)
    ensures Decode(a, x + "\n" + y) == Decode(a, x + "\r" + y) == Decode(a, x + y)
  {
    hide DecodeGroups;
    WithoutAppend(x, y);
    EndLeftOut(x, "\n");
    EndLeftOut(x, "\r");
    WithoutAppend(x + "\n", y);
    WithoutAppend(x + "\r", y);
  }

  lemma EndLeftOut(x: string, end: string)
    requires end == "\n" || end == "\r"
    ensures WithoutNewlines(x + end) == WithoutNewlines(x)
  {
    WithoutAppend(x, end);
    assert end[1..] == "" && WithoutNewlines(end) == "";
  }

  /** What decodes has four symbols, padding included, for every three bytes or part of them. */
  lemma {:induction false} DecodedLength(a: Alphabet, s: string)
    ensures DecodeGroups(a, s).Some? ==> |s| == (|DecodeGroups(a, s).value| + 2) / 3 * 4
    decreases |s|
  {
    hide SymbolValue;
    if |s| >= 4 && DecodeGroups(a, s).Some? && s[2] != '=' && s[3] != '=' {
      DecodedLength(a, s[4..]);
      var n := |DecodeGroups(a, s[4..]).value|;
      assert (n + 3 + 2) / 3 == (n + 2) / 3 + 1;
    }
  }
}
