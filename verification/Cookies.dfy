/** Cookie names, values and lookup in a raw cookie header. */
module Cookies {
  import opened Wrappers
  import opened Strings
  import opened Base64

  function FullCookieName(namespace: string, name: string): string {
    if namespace == "" then name else namespace + "." + name
  }

  /** Name and value of a server cookie. */
  datatype Cookie = Cookie(name: string, value: string)

  function NewServerCookie(namespace: string, name: string, data: seq<Byte>): Cookie {
    Cookie(FullCookieName(namespace, name), Encode(Standard, data))
  }

  /** The first piece that starts with `key=`, without that prefix. */
  function FindValue(parts: seq<string>, key: string): Option<string>
    decreases |parts|
  {
    if parts == [] then None
    else
      var c := TrimSpace(parts[0]);
      if HasPrefix(c, key + "=") then Some(TrimPrefix(c, key + "=")) else FindValue(parts[1..], key)
  }

  function Lookup(header: string, key: string): Option<seq<Byte>> {
    match FindValue(Split(header, ';'), key)
    case None => None
    case Some(value) => Decode(Standard, value)
  }

  method GetCookie(header: string, fullKey: string) returns (r: Option<seq<Byte>>)
    ensures r == Lookup(header, fullKey)
  {
    hide TrimSpace, Split, Decode;
    var parts := Split(header, ';');
    for i := 0 to |parts|
      invariant FindValue(parts, fullKey) == FindValue(parts[i..], fullKey)
    {
      var c := TrimSpace(parts[i]);
      assert parts[i..][1..] == parts[i + 1..];
      if HasPrefix(c, fullKey + "=") {
        var encVal := TrimPrefix(c, fullKey + "=");
        return Decode(Standard, encVal);
      }
    }
    return None;
  }

  // ----------------------------------------------------------------------------- round trip

  function Pair(c: Cookie): string {
    c.name + "=" + c.value
  }

  /** A cookie header: pairs joined by "; ". */
  function Header(cookies: seq<Cookie>): string
    decreases |cookies|
  {
    if cookies == [] then ""
    else if |cookies| == 1 then Pair(cookies[0])
    else Pair(cookies[0]) + ";" + (" " + Header(cookies[1..]))
  }

  /** A name without '=', ';' and white space. */
  ghost predicate GoodName(name: string) {
    '=' !in name && ';' !in name && NoSpace(name)
  }

  /** The name is good, and the value has no ';' and no white space. */
  ghost predicate Sendable(c: Cookie) {
    GoodName(c.name) && ';' !in c.value && NoSpace(c.value)
  }

  ghost predicate AllSendable(cookies: seq<Cookie>) {
    forall i | 0 <= i < |cookies| :: Sendable(cookies[i])
  }

  /** What follows `key=` in the first pair that starts with it. */
  function FirstMatch(cookies: seq<Cookie>, key: string): Option<string>
    decreases |cookies|
  {
    if cookies == [] then None
    else if HasPrefix(Pair(cookies[0]), key + "=") then Some(TrimPrefix(Pair(cookies[0]), key + "="))
    else FirstMatch(cookies[1..], key)
  }

  lemma EncodedIsSendable(data: seq<Byte>)
    ensures ';' !in Encode(Standard, data) && NoSpace(Encode(Standard, data))
  {
    EncodeChars(Standard, data);
    var s := Encode(Standard, data);
    assert forall i | 0 <= i < |s| :: s[i] in s;
  }

  lemma PairFacts(c: Cookie)
    requires Sendable(c)
    ensures ';' !in Pair(c) && NoSpace(Pair(c)) && Pair(c) != ""
    ensures TrimSpace(Pair(c)) == Pair(c) && TrimSpace(" " + Pair(c)) == Pair(c)
  {
    TrimNothing(Pair(c));
    assert (" " + Pair(c))[1..] == Pair(c);
  }

  /** What the pieces of a header are, first without and then with the blank of "; ". */
  lemma {:induction false} FindInHeader(cookies: seq<Cookie>, key: string, blank: string)
    requires AllSendable(cookies) && (blank == "" || blank == " ")
    ensures FindValue(Split(blank + Header(cookies), ';'), key) == FirstMatch(cookies, key)
    decreases |cookies|
  {
    hide Split, TrimSpace, FindValue, Pair, Sendable;
    if cookies == [] {
      FindNothing(key, blank);
    } else if |cookies| == 1 {
      FindOne(cookies[0], None, key, blank);
      assert cookies[1..] == [];
    } else {
      var rest := cookies[1..];
      assert AllSendable(rest);
      FindInHeader(rest, key, " ");
      FindOne(cookies[0], Some(" " + Header(rest)), key, blank);
      assert blank + Header(cookies) == blank + Pair(cookies[0]) + ";" + (" " + Header(rest));
    }
  }

  lemma FindOne(c: Cookie, rest: Option<string>, key: string, blank: string)
    requires Sendable(c) && (blank == "" || blank == " ")
    ensures var first := blank + Pair(c);
            FindValue(Split(if rest.None? then first else first + ";" + rest.value, ';'), key) ==
            if HasPrefix(Pair(c), key + "=") then Some(TrimPrefix(Pair(c), key + "="))
            else if rest.None? then None else FindValue(Split(rest.value, ';'), key)
  {
    hide Split, TrimSpace, FindValue, Pair;
    PairFacts(c);
    assert blank == "" ==> blank + Pair(c) == Pair(c);
    FindFirst(blank + Pair(c), rest, key);
  }

  lemma FindNothing(key: string, blank: string)
    requires blank == "" || blank == " "
    ensures FindValue(Split(blank + "", ';'), key) == None
  {
    assert blank + "" == blank;
    SplitNone(blank, ';');
    assert " "[1..] == "" && TrimLeft("") == "" && TrimRight("") == "";
    assert TrimSpace(blank) == "";
    assert [blank][1..] == [];
  }

  lemma FindFirst(first: string, rest: Option<string>, key: string)
    requires ';' !in first
    ensures var c := TrimSpace(first);
            FindValue(Split(if rest.None? then first else first + ";" + rest.value, ';'), key) ==
            if HasPrefix(c, key + "=") then Some(TrimPrefix(c, key + "="))
            else if rest.None? then None else FindValue(Split(rest.value, ';'), key)
  {
    hide TrimSpace;
    if rest.None? {
      SplitNone(first, ';');
      assert [first][1..] == [];
    } else {
      SplitCons(first, rest.value, ';');
      assert ([first] + Split(rest.value, ';'))[1..] == Split(rest.value, ';');
    }
  }

  // ------------------------------------------------------------------- which pairs a key hits

  /** The part of a key before its first '=', and the part after it. */
  function KeyName(key: string): string {
    key[..IndexOf(key, '=')]
  }

  function KeyTail(key: string): string {
    if '=' in key then key[IndexOf(key, '=') + 1..] else ""
  }

  lemma KeyParts(key: string)
    ensures '=' !in KeyName(key)
    ensures if '=' in key then key == KeyName(key) + "=" + KeyTail(key) else key == KeyName(key)
  {
    var i := IndexOf(key, '=');
    assert forall k | 0 <= k < i :: key[k] == key[..i][k];
  }

  /** A pair starts with `key=` when it has that name, or when the key itself is a name, '=' and
      the start of a value that goes on with '='. */
  lemma PairMatches(c: Cookie, key: string)
    requires '=' !in c.name
    ensures HasPrefix(Pair(c), key + "=") <==>
      c.name == KeyName(key) && ('=' in key ==> HasPrefix(c.value, KeyTail(key) + "="))
    ensures HasPrefix(Pair(c), key + "=") ==>
      TrimPrefix(Pair(c), key + "=") == if '=' in key then TrimPrefix(c.value, KeyTail(key) + "=") else c.value
  {
    hide Split;
    KeyParts(key);
    var n, w := KeyName(key), KeyTail(key);
    if '=' in key {
      assert key + "=" == n + "=" + (w + "=");
      NameFirst(c.name, c.value, n, w + "=");
    } else {
      assert key + "=" == n + "=" + "";
      NameFirst(c.name, c.value, n, "");
      assert TrimPrefix(c.value, "") == c.value;
    }
  }

  lemma NameFirst(name: string, value: string, n: string, w: string)
    requires '=' !in name && '=' !in n
    ensures HasPrefix(name + "=" + value, n + "=" + w) <==> name == n && HasPrefix(value, w)
    ensures name == n && HasPrefix(value, w) ==>
      TrimPrefix(name + "=" + value, n + "=" + w) == TrimPrefix(value, w)
  {
    var pair, p := name + "=" + value, n + "=" + w;
    if name == n {
      assert pair == (n + "=") + value && p == (n + "=") + w;
      assert HasPrefix(pair, p) ==> value[..|w|] == pair[|n| + 1..|p|] == w;
      assert HasPrefix(value, w) ==> pair[..|p|] == p && pair[|p|..] == value[|w|..];
    }
    assert forall k | 0 <= k < |name| :: pair[k] == name[k];
    assert forall k | 0 <= k < |n| :: p[k] == n[k];
    IndexOfFirst(pair, '=', |name|);
    IndexOfFirst(p, '=', |n|);
    assert HasPrefix(pair, p) ==> pair[..|n|] == p[..|n|] == n && pair[|n|] == '=' && pair[..|name|] == name;
  }

  /** A key that is a good name, '=', and a padded value but for its last '='. */
  ghost predicate PaddedKey(key: string) {
    var value := KeyTail(key) + "=";
    && '=' in key && GoodName(KeyName(key))
    && Decode(Standard, value).Some?
    && Encode(Standard, Decode(Standard, value).value) == value
  }

  /** A key with '=' only ever hits the padding of a value: nothing or one '=' is left of it. */
  lemma OddKeyHitsPadding(name: string, data: seq<Byte>, key: string)
    requires GoodName(name) && '=' in key
    requires HasPrefix(Pair(Cookie(name, Encode(Standard, data))), key + "=")
    ensures var rest := TrimPrefix(Pair(Cookie(name, Encode(Standard, data))), key + "=");
            (rest == "" && PaddedKey(key)) || rest == "="
  {
    hide Encode, Decode, Pair;
    var v, w := Encode(Standard, data), KeyTail(key);
    PairMatches(Cookie(name, v), key);
    assert v[|w|] == (w + "=")[|w|];
    PadsAtEnd(Standard, data, |w|);
    if |w| == |v| - 1 {
      assert v == w + "=";
      Base64.RoundTrip(Standard, data);
    } else {
      assert v[|w| + 1..] == "=";
    }
  }

  lemma DecodeRests()
    ensures Decode(Standard, "") == Some([]) && Decode(Standard, "=") == None
  {
    NoNewlines("");
    NoNewlines("=");
  }

  // ------------------------------------------------------------------------ the main results

  /** A piece of data kept in a cookie. */
  datatype Item = Item(name: string, data: seq<Byte>)

  /** The cookies a server makes of its items. */
  function Jar(namespace: string, items: seq<Item>): seq<Cookie> {
    seq(|items|, i requires 0 <= i < |items| => NewServerCookie(namespace, items[i].name, items[i].data))
  }

  ghost predicate GoodItems(namespace: string, items: seq<Item>) {
    forall i | 0 <= i < |items| :: GoodName(FullCookieName(namespace, items[i].name))
  }

  function FirstItem(items: seq<Item>, name: string): Option<seq<Byte>>
    decreases |items|
  {
    if items == [] then None
    else if items[0].name == name then Some(items[0].data)
    else FirstItem(items[1..], name)
  }

  /** Names of one namespace stay apart. */
  lemma FullNamesDistinct(namespace: string, a: string, b: string)
    ensures FullCookieName(namespace, a) == FullCookieName(namespace, b) <==> a == b
  {
    var full := FullCookieName(namespace, a);
    if namespace != "" {
      assert full[|namespace| + 1..] == a;
      assert FullCookieName(namespace, b)[|namespace| + 1..] == b;
    }
  }

  /** The namespace is what comes before the first dot of a full name. */
  lemma NamespaceFirst(namespace: string, name: string)
    requires namespace != "" && '.' !in namespace
    ensures Split(FullCookieName(namespace, name), '.') == [namespace] + Split(name, '.')
  {
    SplitCons(namespace, name, '.');
  }

  /** Names of different namespaces stay apart. */
  lemma NamespacesApart(a: string, x: string, b: string, y: string)
    requires a != "" && b != "" && '.' !in a && '.' !in b
    ensures FullCookieName(a, x) == FullCookieName(b, y) <==> a == b && x == y
  {
    hide Split, FullCookieName;
    NamespaceFirst(a, x);
    NamespaceFirst(b, y);
    assert ([a] + Split(x, '.'))[0] == a && ([b] + Split(y, '.'))[0] == b;
    FullNamesDistinct(a, x, y);
  }

  /** The first match of a name is the first item of that name; other keys match padding only. */
  lemma {:induction false} FirstInJar(namespace: string, items: seq<Item>, name: string)
    requires GoodItems(namespace, items)
    ensures var key := FullCookieName(namespace, name);
            var c, d := FirstMatch(Jar(namespace, items), key), FirstItem(items, name);
            if '=' in key then d.None? && (c.Some? ==> (c.value == "" && PaddedKey(key)) || c.value == "=")
            else c == if d.None? then None else Some(Encode(Standard, d.value))
    decreases |items|
  {
    hide Encode, Decode, PaddedKey, Pair, FullCookieName;
    if items != [] {
      var key, c := FullCookieName(namespace, name), Jar(namespace, items)[0];
      assert GoodItems(namespace, items[1..]);
      assert Jar(namespace, items)[1..] == Jar(namespace, items[1..]);
      FirstInJar(namespace, items[1..], name);
      FullNamesDistinct(namespace, items[0].name, name);
      PairMatches(c, key);
      KeyParts(key);
      if '=' in key && HasPrefix(Pair(c), key + "=") {
        OddKeyHitsPadding(c.name, items[0].data, key);
      }
    }
  }

  /** Looking up a name in the header of any list of server cookies returns exactly the data of
      the first cookie of that name, and nothing when there is none. */
  lemma {:induction false} CookieRoundTrip(namespace: string, items: seq<Item>, name: string)
    requires GoodItems(namespace, items)
    ensures var key := FullCookieName(namespace, name);
            !PaddedKey(key) ==> Lookup(Header(Jar(namespace, items)), key) == FirstItem(items, name)
  {
    hide Decode, Encode, Split, PaddedKey, FullCookieName;
    var jar, key := Jar(namespace, items), FullCookieName(namespace, name);
    forall i | 0 <= i < |jar| ensures Sendable(jar[i]) {
      EncodedIsSendable(items[i].data);
    }
    FindInHeader(jar, key, "");
    assert "" + Header(jar) == Header(jar);
    FirstInJar(namespace, items, name);
    DecodeRests();
    var d := FirstItem(items, name);
    if d.Some? {
      Base64.RoundTrip(Standard, d.value);
    }
  }

  /** A lookup of this key is right for every list of cookies. */
  ghost predicate LookupRight(key: string) {
    forall items :: GoodItems("", items) ==> Lookup(Header(Jar("", items)), key) == FirstItem(items, key)
  }

  /** A padded key finds empty data in a header that has no cookie of that name. */
  lemma PaddedKeyFindsNothing(key: string)
    ensures PaddedKey(key) ==>
      var items := [Item(KeyName(key), Decode(Standard, KeyTail(key) + "=").value)];
      && GoodItems("", items) && FirstItem(items, key) == None
      && Lookup(Header(Jar("", items)), key) == Some([])
  {
    hide Decode, Encode, Split;
    if PaddedKey(key) {
      var name, value := KeyName(key), KeyTail(key) + "=";
      var items := [Item(name, Decode(Standard, value).value)];
      var jar := Jar("", items);
      EncodedIsSendable(items[0].data);
      KeyParts(key);
      assert Sendable(jar[0]) && items[1..] == [];
      FindInHeader(jar, key, "");
      assert "" + Header(jar) == Header(jar);
      PairMatches(jar[0], key);
      DecodeRests();
    }
  }

  /** Lookups are right for exactly the keys that are not padded. */
  lemma LookupRightExactly(key: string)
    ensures LookupRight(key) <==> !PaddedKey(key)
  {
    hide Lookup, Header, Jar, GoodItems, FirstItem, Decode;
    assert FullCookieName("", key) == key;
    if PaddedKey(key) {
      PaddedKeyFindsNothing(key);
      var items := [Item(KeyName(key), Decode(Standard, KeyTail(key) + "=").value)];
      assert GoodItems("", items) && Lookup(Header(Jar("", items)), key) != FirstItem(items, key);
    } else {
      forall items | GoodItems("", items) ensures Lookup(Header(Jar("", items)), key) == FirstItem(items, key) {
        CookieRoundTrip("", items, key);
      }
    }
  }

  lemma EncodedA()
    ensures Encode(Standard, ['A' as int]) == "QQ==" && Decode(Standard, "QQ==") == Some(['A' as int])
  {
    assert Encode(Standard, ['A' as int]) == "QQ==";
    Base64.RoundTrip(Standard, ['A' as int]);
  }

  lemma KeyPartsA()
    ensures var key := "a=QQ=";
            '=' in key && KeyName(key) == "a" && KeyTail(key) + "=" == "QQ==" && GoodName("a")
  {
    var key := "a=QQ=";
    assert key[1] == '=';
    IndexOfFirst(key, '=', 1);
    assert "QQ=" + "=" == "QQ==";
  }

  /** One such key, for a cookie "a" that holds a single byte. */
  lemma PaddedKeyWitness()
    ensures var items := [Item("a", ['A' as int])];
            && Header(Jar("", items)) == "a=QQ==" && FirstItem(items, "a=QQ=") == None
            && Lookup("a=QQ==", "a=QQ=") == Some([])
  {
    hide Encode, Decode, Lookup, KeyName, KeyTail, GoodName;
    var items := [Item("a", ['A' as int])];
    EncodedA();
    KeyPartsA();
    PaddedKeyFindsNothing("a=QQ=");
    assert Jar("", items) == [Cookie("a", "QQ==")];
    assert "a" + "=" + "QQ==" == "a=QQ==";
  }
}
