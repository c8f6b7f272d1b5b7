/** otpauth URLs: percent encoding, and reading a URL back. */
module OtpAuth {
  import opened Wrappers
  import opened Strings

  /** RFC 3986, section 2.3. */
  predicate IsUnreserved(c: Byte) {
    'a' as int <= c <= 'z' as int || 'A' as int <= c <= 'Z' as int || '0' as int <= c <= '9' as int ||
    c == '-' as int || c == '.' as int || c == '_' as int || c == '~' as int
  }

  function HexDigit(d: nat): char
    requires d < 16
  {
    if d < 10 then '0' + d as char else 'A' + (d - 10) as char
  }

  function HexValue(c: char): Option<nat> {
    if '0' <= c <= '9' then Some((c as int) - ('0' as int))
    else if 'A' <= c <= 'F' then Some((c as int) - ('A' as int) + 10)
    else None
  }

  function EncodeByte(c: Byte): string {
    if IsUnreserved(c) then [c as char] else ['%', HexDigit(c / 16), HexDigit(c % 16)]
  }

  function Encoded(s: seq<Byte>): string
    decreases |s|
  {
    if s == [] then "" else EncodeByte(s[0]) + Encoded(s[1..])
  }

  method PercentEncode(s: seq<Byte>) returns (b: string)
    ensures b == Encoded(s)
  {
    hide EncodeByte;
    b := "";
    for i := 0 to |s|
      invariant b + Encoded(s[i..]) == Encoded(s)
    {
      assert s[i..][1..] == s[i + 1..];
      assert b + (EncodeByte(s[i]) + Encoded(s[i + 1..])) == b + EncodeByte(s[i]) + Encoded(s[i + 1..]);
      b := b + EncodeByte(s[i]);
    }
    assert s[|s|..] == [] && b + "" == b;
  }

  /** Percent decoding, section 2.1 of RFC 3986: None for a reserved or cut-off character. */
  function Decoded(s: string): Option<seq<Byte>>
    decreases |s|
  {
    if s == "" then Some([])
    else if s[0] == '%' then
      if |s| < 3 || HexValue(s[1]).None? || HexValue(s[2]).None? then None
      else
        var rest := Decoded(s[3..]);
        if rest.None? then None else Some([HexValue(s[1]).value * 16 + HexValue(s[2]).value] + rest.value)
    else if s[0] as int < 256 && IsUnreserved(s[0] as int) then
      var rest := Decoded(s[1..]);
      if rest.None? then None else Some([s[0] as int] + rest.value)
    else None
  }

  /** Only unreserved characters and '%' occur in an encoding. */
  predicate IsEncodedChar(c: char) {
    c == '%' || (c as int < 256 && IsUnreserved(c as int))
  }

  lemma {:induction false} EncodedChars(s: seq<Byte>)
    ensures forall i | 0 <= i < |Encoded(s)| :: IsEncodedChar(Encoded(s)[i])
    decreases |s|
  {
    if s != [] {
      EncodedChars(s[1..]);
      assert forall i | 0 <= i < |EncodeByte(s[0])| :: IsEncodedChar(EncodeByte(s[0])[i]);
    }
  }

  lemma DecodeByte(c: Byte, rest: string)
    ensures Decoded(EncodeByte(c) + rest)
         == (if Decoded(rest).None? then None else Some([c] + Decoded(rest).value))
  {
    if IsUnreserved(c) {
      DecodePlain(c, rest);
    } else {
      HexRoundTrip(c);
      DecodeEscape(HexDigit(c / 16), HexDigit(c % 16), rest);
      assert EncodeByte(c) + rest == ['%', HexDigit(c / 16), HexDigit(c % 16)] + rest;
    }
  }

  lemma DecodePlain(c: Byte, rest: string)
    requires IsUnreserved(c)
    ensures Decoded([c as char] + rest)
         == (if Decoded(rest).None? then None else Some([c] + Decoded(rest).value))
  {
    var s := [c as char] + rest;
    assert s[0] == c as char && s[1..] == rest && s[0] != '%';
  }

  lemma DecodeEscape(h: char, l: char, rest: string)
    requires HexValue(h).Some? && HexValue(l).Some?
    ensures Decoded(['%', h, l] + rest)
         == (if Decoded(rest).None? then None
             else Some([HexValue(h).value * 16 + HexValue(l).value] + Decoded(rest).value))
  {
    var s := ['%', h, l] + rest;
    assert s[0] == '%' && s[1] == h && s[2] == l && s[3..] == rest by {
      hide Decoded, HexValue;
    }
  }

  lemma HexRoundTrip(c: Byte)
    ensures HexValue(HexDigit(c / 16)) == Some(c / 16) && HexValue(HexDigit(c % 16)) == Some(c % 16)
    ensures c / 16 * 16 + c % 16 == c
  {
  }

  /** Decoding undoes encoding for every byte string. */
  lemma {:induction false} DecodeEncoded(s: seq<Byte>)
    ensures Decoded(Encoded(s)) == Some(s)
    decreases |s|
  {
    hide EncodeByte, Decoded;
    if s != [] {
      DecodeEncoded(s[1..]);
      DecodeByte(s[0], Encoded(s[1..]));
      assert [s[0]] + s[1..] == s;
    } else {
      DecodeNothing();
    }
  }

  lemma DecodeNothing()
    ensures Decoded("") == Some([])
  {
  }

  const PREFIX := "otpauth://totp/"

  function Query(secret: string, issuer: seq<Byte>): string {
    "secret=" + secret + "&" + ("issuer=" + Encoded(issuer))
  }

  function URL(secret: string, account: seq<Byte>, issuer: seq<Byte>): string {
    PREFIX + (Encoded(issuer) + ":" + (Encoded(account) + "?" + Query(secret, issuer)))
  }

  /** The unreserved characters are those of section 2.3 of RFC 3986. */
  lemma UnreservedExactly(c: Byte)
    ensures IsUnreserved(c) <==> c as char in UPPER || c as char in LOWER || c as char in DIGITS || c as char in "-._~"
  {
    assert "-._~"[0] == '-' && "-._~"[1] == '.' && "-._~"[2] == '_' && "-._~"[3] == '~';
    Listed(c);
    InRange(c);
  }

  lemma InRange(c: Byte)
    ensures c as char in UPPER ==> 'A' as int <= c <= 'Z' as int
    ensures c as char in LOWER ==> 'a' as int <= c <= 'z' as int
    ensures c as char in DIGITS ==> '0' as int <= c <= '9' as int
  {
    forall k: nat | k < 26 ensures 'A' <= UPPER[k] <= 'Z' && 'a' <= LOWER[k] <= 'z' {
      LetterAt(k);
    }
    forall k: nat | k < 10 ensures '0' <= DIGITS[k] <= '9' {
      DigitAt(k);
    }
  }

  lemma Listed(c: Byte)
    ensures 'A' as int <= c <= 'Z' as int ==> c as char in UPPER
    ensures 'a' as int <= c <= 'z' as int ==> c as char in LOWER
    ensures '0' as int <= c <= '9' as int ==> c as char in DIGITS
  {
    if 'A' as int <= c <= 'Z' as int {
      LetterAt(c - 'A' as int);
    } else if 'a' as int <= c <= 'z' as int {
      LetterAt(c - 'a' as int);
    } else if '0' as int <= c <= '9' as int {
      DigitAt(c - '0' as int);
    }
  }

  /** An escape is '%' and two upper-case hexadecimal digits. */
  lemma EscapeExactly(c: Byte)
    requires !IsUnreserved(c)
    ensures EncodeByte(c) == ['%', "0123456789ABCDEF"[c / 16], "0123456789ABCDEF"[c % 16]]
  {
    HexNumeral(c / 16);
    HexNumeral(c % 16);
  }

  lemma HexNumeral(d: nat)
    requires d < 16
    ensures HexDigit(d) == "0123456789ABCDEF"[d]
  {
  }

  datatype Enrolment = Enrolment(secret: string, account: seq<Byte>, issuer: seq<Byte>)

  /** Everything before and everything after the first occurrence of a character. */
  datatype Halves = Uncut | Halves(before: string, after: string)

  function Cut(s: string, c: char): Halves {
    var i := IndexOf(s, c);
    if i == |s| then Uncut else Halves(s[..i], s[i + 1..])
  }

  /** Reading a URL as an authenticator does: path before '?', issuer before ':', parameters
      between '&', values after '='. */
  function Read(url: string): Option<Enrolment> {
    if !HasPrefix(url, PREFIX) then None
    else
      match Cut(url[|PREFIX|..], '?')
      case Uncut => None
      case Halves(path, query) =>
        match Cut(path, ':')
        case Uncut => None
        case Halves(_, account) =>
          match Cut(query, '&')
          case Uncut => None
          case Halves(first, second) =>
            if !HasPrefix(first, "secret=") || !HasPrefix(second, "issuer=") then None
            else
              var a, i := Decoded(account), Decoded(TrimPrefix(second, "issuer="));
              if a.None? || i.None? then None else Some(Enrolment(TrimPrefix(first, "secret="), a.value, i.value))
  }

  lemma CutAt(a: string, c: char, b: string)
    requires c !in a
    ensures Cut(a + [c] + b, c) == Halves(a, b)
  {
    var s := a + [c] + b;
    assert forall k | 0 <= k < |a| :: s[k] == a[k] && a[k] in a;
    IndexOfFirst(s, c, |a|);
    assert s[..|a|] == a && s[|a| + 1..] == b;
  }

  lemma NotInEncoding(s: seq<Byte>, c: char)
    requires !IsEncodedChar(c)
    ensures c !in Encoded(s)
  {
    EncodedChars(s);
  }

  /** An otpauth URL is uniquely readable: for every secret without '&' (base32 has none) a
      reader recovers the secret, the account and the issuer. */
  lemma ReadURL(secret: string, account: seq<Byte>, issuer: seq<Byte>)
    requires '&' !in secret
    ensures Read(URL(secret, account, issuer)) == Some(Enrolment(secret, account, issuer))
  {
    hide Encoded, Decoded, Cut;
    var i, a := Encoded(issuer), Encoded(account);
    var first, second := "secret=" + secret, "issuer=" + i;
    var query := first + "&" + second;
    var path := i + ":" + a;
    assert query == Query(secret, issuer);
    NotInEncoding(issuer, '?');
    NotInEncoding(account, '?');
    NotInEncoding(issuer, ':');
    assert i + ":" + (a + "?" + query) == path + "?" + query;
    var url := URL(secret, account, issuer);
    assert url[|PREFIX|..] == path + "?" + query;
    CutAt(path, '?', query);
    CutAt(i, ':', a);
    CutAt(first, '&', second);
    assert TrimPrefix(first, "secret=") == secret && TrimPrefix(second, "issuer=") == i;
    DecodeEncoded(issuer);
    DecodeEncoded(account);
  }

  /** Whatever the account and the issuer are, a reader gets them back from the URL. */
  method GenerateOTPAuthURL(secret: string, account: seq<Byte>, issuer: seq<Byte>) returns (url: string)
    ensures url == URL(secret, account, issuer)
    ensures '&' !in secret ==> Read(url) == Some(Enrolment(secret, account, issuer))
  {
    hide Read, Encoded;
    var i := PercentEncode(issuer);
    var a := PercentEncode(account);
    url := "otpauth://totp/" + (i + ":" + (a + "?" + ("secret=" + secret + "&" + ("issuer=" + i))));
    if '&' !in secret {
      ReadURL(secret, account, issuer);
    }
  }
}
