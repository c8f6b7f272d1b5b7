/** Backup codes: drawing until enough different ones are there. */
module BackupCodes {
  import opened Wrappers
  import opened Division

  const ALPHABET := "0123456789ABCDEFGHJKMNPQRSTVWXYZ"

  /** The random source: the i-th read gives a byte or fails. */
  type Source = nat -> Option<Byte>

  datatype Error = BadLength | ReadFailed

  /** A byte masked to its low five bits selects a symbol. */
  function SymbolOf(b: Byte): char {
    ALPHABET[b % 32]
  }

  /** The code read from position `at`; None when a read fails. */
  function CodeAt(src: Source, at: nat, length: nat): Option<string>
    decreases length
  {
    if length == 0 then Some("")
    else
      match src(at)
      case None => None
      case Some(b) =>
        var rest := CodeAt(src, at + 1, length - 1);
        if rest.None? then None else Some([SymbolOf(b)] + rest.value)
  }

  method RandomBackupCode(src: Source, at: nat, length: nat) returns (code: Option<string>)
    ensures code == CodeAt(src, at, length)
  {
    var b := "";
    assert CodeAt(src, at, length).Some? ==> "" + CodeAt(src, at, length).value == CodeAt(src, at, length).value;
    for i := 0 to length
      invariant CodeAt(src, at, length) ==
        if CodeAt(src, at + i, length - i).None? then None else Some(b + CodeAt(src, at + i, length - i).value)
    {
      var buf := src(at + i);
      if buf.None? {
        return None;
      }
      var rest := CodeAt(src, at + i + 1, length - i - 1);
      if rest.Some? {
        assert b + ([SymbolOf(buf.value)] + rest.value) == b + [SymbolOf(buf.value)] + rest.value;
      }
      b := b + [SymbolOf(buf.value)];
    }
    assert b + "" == b;
    return Some(b);
  }

  function Position(k: nat, length: nat): nat {
    if k == 0 then 0 else Position(k - 1, length) + length
  }

  /** The k-th draw. */
  function Draw(src: Source, length: nat, k: nat): Option<string> {
    CodeAt(src, Position(k, length), length)
  }

  /** The different codes among the first k draws, in the order of their first appearance. */
  function Distinct(src: Source, length: nat, k: nat): seq<string> {
    if k == 0 then []
    else
      var before := Distinct(src, length, k - 1);
      match Draw(src, length, k - 1)
      case None => before
      case Some(code) => if code in before then before else before + [code]
  }

  /** The loop ends after k draws: it has its codes, or the next read fails. */
  ghost predicate EndsAt(src: Source, n: nat, length: nat, k: nat) {
    && (forall j | 0 <= j < k :: Draw(src, length, j).Some?)
    && (|Distinct(src, length, k)| >= n || Draw(src, length, k).None?)
  }

  function SetOf(codes: seq<string>): set<string> {
    set c | c in codes
  }

  ghost predicate NoDuplicates(codes: seq<string>) {
    forall i, j | 0 <= i < j < |codes| :: codes[i] != codes[j]
  }

  // ------------------------------------------------------------------ the space of all codes

  function Pow32(n: nat): (p: nat)
    ensures p > 0
  {
    if n == 0 then 1 else 32 * Pow32(n - 1)
  }

  function Prefixed(c: char, codes: set<string>): set<string> {
    set s | s in codes :: [c] + s
  }

  /** The strings that start with one of the symbols and go on with one of `tails`. */
  function StartingWith(symbols: seq<char>, tails: set<string>): set<string> {
    if symbols == [] then {}
    else StartingWith(symbols[..|symbols| - 1], tails) + Prefixed(symbols[|symbols| - 1], tails)
  }

  /** All strings of this length over the alphabet. */
  function StringsOver(symbols: seq<char>, length: nat): set<string> {
    if length == 0 then {""} else StartingWith(symbols, StringsOver(symbols, length - 1))
  }

  function AllCodes(length: nat): set<string> {
    StringsOver(ALPHABET, length)
  }

  lemma {:induction false} SymbolsAscend(i: nat, j: nat)
    requires i < j < 32
    ensures ALPHABET[i] < ALPHABET[j]
    decreases j - i
  {
    assert ALPHABET[j - 1] < ALPHABET[j];
    if i < j - 1 {
      SymbolsAscend(i, j - 1);
    }
  }

  lemma {:induction false} PrefixedSize(c: char, codes: set<string>)
    ensures |Prefixed(c, codes)| == |codes|
    decreases |codes|
  {
    if codes != {} {
      var s :| s in codes;
      var rest := codes - {s};
      PrefixedSize(c, rest);
      assert [c] + s !in Prefixed(c, rest) by {
        forall t | t in rest ensures [c] + t != [c] + s {
          assert ([c] + t)[1..] == t && ([c] + s)[1..] == s;
        }
      }
      assert Prefixed(c, codes) == Prefixed(c, rest) + {[c] + s};
    }
  }

  ghost predicate AllDistinct(symbols: seq<char>) {
    forall i, j | 0 <= i < j < |symbols| :: symbols[i] != symbols[j]
  }

  lemma AlphabetDistinct()
    ensures AllDistinct(ALPHABET) && |ALPHABET| == 32
  {
    forall i, j | 0 <= i < j < |ALPHABET| ensures ALPHABET[i] != ALPHABET[j] {
      SymbolsAscend(i, j);
    }
  }

  predicate StartsIn(s: string, symbols: seq<char>, tails: set<string>) {
    s != "" && s[0] in symbols && s[1..] in tails
  }

  lemma PrefixedMembers(c: char, tails: set<string>, s: string)
    ensures s in Prefixed(c, tails) <==> StartsIn(s, [c], tails)
  {
    if StartsIn(s, [c], tails) {
      assert s == [c] + s[1..];
    }
  }

  lemma {:induction false} StartingMembers(symbols: seq<char>, tails: set<string>, s: string)
    ensures s in StartingWith(symbols, tails) <==> StartsIn(s, symbols, tails)
    decreases |symbols|
  {
    if symbols != [] {
      var front, last := symbols[..|symbols| - 1], symbols[|symbols| - 1];
      StartingMembers(front, tails, s);
      PrefixedMembers(last, tails, s);
      assert symbols == front + [last];
    }
  }

  lemma {:induction false} StartingSize(symbols: seq<char>, tails: set<string>)
    requires AllDistinct(symbols)
    ensures |StartingWith(symbols, tails)| == |symbols| * |tails|
    decreases |symbols|
  {
    if symbols != [] {
      var front, last := symbols[..|symbols| - 1], symbols[|symbols| - 1];
      StartingSize(front, tails);
      PrefixedSize(last, tails);
      forall s | s in Prefixed(last, tails) ensures s !in StartingWith(front, tails) {
        PrefixedMembers(last, tails, s);
        StartingMembers(front, tails, s);
      }
      DisjointSize(StartingWith(front, tails), Prefixed(last, tails));
    }
  }

  lemma DisjointSize(a: set<string>, b: set<string>)
    requires forall s | s in b :: s !in a
    ensures |a + b| == |a| + |b|
  {
    assert a !! b;
  }

  predicate Over(s: string, symbols: seq<char>) {
    forall i | 0 <= i < |s| :: s[i] in symbols
  }

  lemma {:induction false} StringsOverMembers(symbols: seq<char>, length: nat, s: string)
    ensures s in StringsOver(symbols, length) <==> |s| == length && Over(s, symbols)
    decreases length
  {
    if length > 0 {
      StartingMembers(symbols, StringsOver(symbols, length - 1), s);
      if s != "" {
        StringsOverMembers(symbols, length - 1, s[1..]);
        assert s == [s[0]] + s[1..];
      }
    }
  }

  lemma {:induction false} StringsOverSize(symbols: seq<char>, length: nat)
    requires AllDistinct(symbols) && |symbols| == 32
    ensures |StringsOver(symbols, length)| == Pow32(length)
  {
    if length > 0 {
      StringsOverSize(symbols, length - 1);
      StartingSize(symbols, StringsOver(symbols, length - 1));
    }
  }

  /** There are 32^length codes, each of them `length` symbols of the alphabet. */
  lemma {:induction false} AllCodesFacts(length: nat)
    ensures |AllCodes(length)| == Pow32(length)
    ensures forall s :: s in AllCodes(length) <==> |s| == length && Over(s, ALPHABET)
  {
    AlphabetDistinct();
    StringsOverSize(ALPHABET, length);
    forall s ensures s in AllCodes(length) <==> |s| == length && Over(s, ALPHABET) {
      StringsOverMembers(ALPHABET, length, s);
    }
  }

  lemma {:induction false} CodeIsOver(src: Source, at: nat, length: nat)
    requires CodeAt(src, at, length).Some?
    ensures var code := CodeAt(src, at, length).value; |code| == length && Over(code, ALPHABET)
    decreases length
  {
    if length > 0 {
      CodeIsOver(src, at + 1, length - 1);
      assert SymbolOf(src(at).value) in ALPHABET;
    }
  }

  lemma CodeIsValid(src: Source, at: nat, length: nat)
    ensures CodeAt(src, at, length).Some? ==> CodeAt(src, at, length).value in AllCodes(length)
  {
    if CodeAt(src, at, length).Some? {
      CodeIsOver(src, at, length);
      StringsOverMembers(ALPHABET, length, CodeAt(src, at, length).value);
    }
  }

  // ------------------------------------------------------------------------- the main results

  lemma {:induction false} DistinctFacts(src: Source, length: nat, k: nat)
    ensures NoDuplicates(Distinct(src, length, k))
    ensures forall c | c in Distinct(src, length, k) :: c in AllCodes(length)
    decreases k
  {
    hide CodeAt, AllCodes;
    if k > 0 {
      DistinctFacts(src, length, k - 1);
      CodeIsValid(src, Position(k - 1, length), length);
    }
  }

  /** The codes returned are those drawn. */
  lemma {:induction false} DistinctDrawn(src: Source, length: nat, k: nat, c: string)
    ensures c in Distinct(src, length, k) <==> exists i :: 0 <= i < k && Draw(src, length, i) == Some(c)
    decreases k
  {
    hide Draw;
    if k > 0 {
      DistinctDrawn(src, length, k - 1, c);
    }
  }

  /** They come in the order in which they were first drawn: later draws only add codes at the end. */
  lemma {:induction false} DrawnFirst(src: Source, length: nat, j: nat, k: nat)
    requires j <= k
    ensures Distinct(src, length, j) <= Distinct(src, length, k)
    decreases k
  {
    hide Draw;
    if j < k {
      DrawnFirst(src, length, j, k - 1);
    }
  }

  lemma {:induction false} SizeOfSet(codes: seq<string>)
    requires NoDuplicates(codes)
    ensures |SetOf(codes)| == |codes|
  {
    if codes != [] {
      var front, last := codes[..|codes| - 1], codes[|codes| - 1];
      SizeOfSet(front);
      assert SetOf(codes) == SetOf(front) + {last};
      assert last !in SetOf(front);
    }
  }

  lemma SubsetSize(a: set<string>, b: set<string>)
    requires a <= b
    ensures |a| <= |b| && (|a| == |b| ==> a == b)
  {
    assert b == a + (b - a);
  }

  /** By the pigeonhole principle no run of the loop ever has more than 32^length codes. */
  lemma NeverMoreThanAll(src: Source, length: nat, k: nat)
    ensures |Distinct(src, length, k)| <= Pow32(length)
  {
    hide AllCodes;
    DistinctFacts(src, length, k);
    SizeOfSet(Distinct(src, length, k));
    AllCodesFacts(length);
    SubsetSize(SetOf(Distinct(src, length, k)), AllCodes(length));
  }

  /** While the loop wants more codes and there are enough of them, an unseen one is left. */
  lemma UnseenRemains(src: Source, length: nat, k: nat)
    requires |Distinct(src, length, k)| < Pow32(length)
    ensures exists c :: c in AllCodes(length) && c !in Distinct(src, length, k)
  {
    hide AllCodes;
    var codes := Distinct(src, length, k);
    DistinctFacts(src, length, k);
    SizeOfSet(codes);
    AllCodesFacts(length);
    if forall c | c in AllCodes(length) :: c in codes {
      SubsetSize(AllCodes(length), SetOf(codes));
    }
  }

  /** Every code is drawn again and again, and no read fails. */
  ghost predicate Fair(src: Source, length: nat) {
    && (forall i :: src(i).Some?)
    && (forall c, k: nat | c in AllCodes(length) :: DrawnFrom(src, length, c, k))
  }

  ghost predicate DrawnFrom(src: Source, length: nat, c: string, k: nat) {
    exists j: nat :: j >= k && Draw(src, length, j) == Some(c)
  }

  lemma {:induction false} DistinctGrows(src: Source, length: nat, k: nat, j: nat)
    requires k <= j
    ensures |Distinct(src, length, k)| <= |Distinct(src, length, j)|
    ensures forall c | c in Distinct(src, length, k) :: c in Distinct(src, length, j)
    decreases j
  {
    hide Draw;
    if k < j {
      DistinctGrows(src, length, k, j - 1);
    }
  }

  /** With a fair source the loop gets any number of codes up to 32^length. */
  lemma {:induction false} EventuallyEnough(src: Source, length: nat, n: nat) returns (k: nat)
    requires Fair(src, length) && n <= Pow32(length)
    ensures |Distinct(src, length, k)| >= n
    decreases n
  {
    hide Draw, AllCodes, Pow32;
    if n == 0 {
      k := 0;
    } else {
      var before := EventuallyEnough(src, length, n - 1);
      if |Distinct(src, length, before)| >= n {
        k := before;
      } else {
        UnseenRemains(src, length, before);
        var c :| c in AllCodes(length) && c !in Distinct(src, length, before);
        assert DrawnFrom(src, length, c, before);
        var j: nat :| j >= before && Draw(src, length, j) == Some(c);
        DistinctGrows(src, length, before, j);
        DistinctGrows(src, length, j, j + 1);
        SomethingNew(src, length, before, j + 1, c);
        k := j + 1;
      }
    }
  }

  lemma SomethingNew(src: Source, length: nat, k: nat, j: nat, c: string)
    requires k <= j && c !in Distinct(src, length, k) && c in Distinct(src, length, j)
    ensures |Distinct(src, length, j)| > |Distinct(src, length, k)|
  {
    var a, b := Distinct(src, length, k), Distinct(src, length, j);
    DistinctGrows(src, length, k, j);
    DistinctFacts(src, length, k);
    DistinctFacts(src, length, j);
    SizeOfSet(a);
    SizeOfSet(b);
    assert SetOf(a) + {c} <= SetOf(b);
    SubsetSize(SetOf(a) + {c}, SetOf(b));
  }

  lemma {:induction false} DrawNeverFails(src: Source, at: nat, length: nat)
    requires forall i :: src(i).Some?
    ensures CodeAt(src, at, length).Some?
    decreases length
  {
    if length > 0 {
      DrawNeverFails(src, at + 1, length - 1);
    }
  }

  /** With a fair source the loop of a call ends exactly when the asked number of codes exists. */
  lemma LoopEndsExactly(src: Source, n: nat, length: nat)
    requires Fair(src, length)
    ensures (exists k: nat :: EndsAt(src, n, length, k)) <==> n <= Pow32(length)
  {
    hide CodeAt, AllCodes, Pow32, Distinct;
    forall j: nat ensures Draw(src, length, j).Some? {
      DrawNeverFails(src, Position(j, length), length);
    }
    if n <= Pow32(length) {
      var k := EventuallyEnough(src, length, n);
      assert EndsAt(src, n, length, k);
    }
    forall k: nat | EndsAt(src, n, length, k) ensures n <= Pow32(length) {
      NeverMoreThanAll(src, length, k);
    }
  }

  // ---------------------------------------------------------------------- the choice of symbols

  /** Crockford's alphabet: the digits and the capital letters but I, L, O and U. */
  predicate IsCrockford(c: char) {
    '0' <= c <= '9' || ('A' <= c <= 'Z' && c != 'I' && c != 'L' && c != 'O' && c != 'U')
  }

  lemma SymbolsAreCrockford(i: nat)
    requires i < 32
    ensures IsCrockford(ALPHABET[i])
  {
  }

  lemma CrockfordPlace(c: char) returns (i: nat)
    requires IsCrockford(c)
    ensures i < 32 && ALPHABET[i] == c
  {
    i := if c <= '9' then (c - '0') as nat
         else if c <= 'H' then 10 + (c - 'A') as nat
         else if c <= 'K' then 18 + (c - 'J') as nat
         else if c <= 'N' then 20 + (c - 'M') as nat
         else if c <= 'T' then 22 + (c - 'P') as nat
         else 27 + (c - 'V') as nat;
  }

  lemma AlphabetIsCrockford(c: char)
    ensures c in ALPHABET <==> IsCrockford(c)
  {
    hide IsCrockford;
    if IsCrockford(c) {
      var i := CrockfordPlace(c);
    }
    if c in ALPHABET {
      var i :| 0 <= i < |ALPHABET| && ALPHABET[i] == c;
      SymbolsAreCrockford(i);
    }
  }

  /** The bytes that select a symbol. */
  function BytesOf(symbol: char): set<nat> {
    set b: nat | b < 256 && SymbolOf(b) == symbol
  }

  /** Every symbol is selected by exactly 8 of the 256 bytes, so the choice is unbiased. */
  lemma SymbolsUnbiased(i: nat)
    requires i < 32
    ensures |BytesOf(ALPHABET[i])| == 8
  {
    hide SymbolOf;
    var eight := {i, i + 32, i + 64, i + 96, i + 128, i + 160, i + 192, i + 224};
    forall b: nat | b < 256 ensures b in BytesOf(ALPHABET[i]) <==> b in eight {
      SelectsExactly(b, i);
    }
    assert BytesOf(ALPHABET[i]) == eight;
  }

  lemma SelectsExactly(b: Byte, i: nat)
    requires i < 32
    ensures SymbolOf(b) == ALPHABET[i] <==> b % 32 == i
    ensures b % 32 == i <==> b in {i, i + 32, i + 64, i + 96, i + 128, i + 160, i + 192, i + 224}
  {
    OneOfEight(b, i);
    DifferentSymbols(b % 32, i);
  }

  lemma DifferentSymbols(i: nat, j: nat)
    requires i < 32 && j < 32
    ensures ALPHABET[i] == ALPHABET[j] <==> i == j
  {
    if i < j {
      SymbolsAscend(i, j);
    } else if j < i {
      SymbolsAscend(j, i);
    }
  }

  lemma OneOfEight(b: nat, i: nat)
    requires b < 256 && i < 32
    ensures b % 32 == i <==> b in {i, i + 32, i + 64, i + 96, i + 128, i + 160, i + 192, i + 224}
  {
    var q := b / 32;
    assert b == 32 * q + b % 32 && q < 8;
  }

  // ------------------------------------------------------------------------- a fair source exists

  /** The r-th of `length` digits of k to base 32. */
  function DigitOf(k: nat, length: nat, r: nat): (d: nat)
    requires r < length
    ensures d < 32
    decreases length
  {
    if r == length - 1 then k % 32 else DigitOf(k / 32, length - 1, r)
  }

  function CodeNumber(k: nat, length: nat): string
    decreases length
  {
    if length == 0 then "" else CodeNumber(k / 32, length - 1) + [ALPHABET[k % 32]]
  }

  /** A source that counts: the k-th draw has the digits of k. */
  function Counting(length: nat): Source {
    (at: nat) => if length == 0 then Some(0) else Some(DigitOf(at / length, length, at % length))
  }

  lemma {:induction false} CodeNumberAt(k: nat, length: nat, r: nat)
    requires r < length
    ensures |CodeNumber(k, length)| == length && CodeNumber(k, length)[r] == ALPHABET[DigitOf(k, length, r)]
    decreases length
  {
    CodeNumberLength(k / 32, length - 1);
    if r < length - 1 {
      CodeNumberAt(k / 32, length - 1, r);
    }
  }

  lemma {:induction false} CodeNumberLength(k: nat, length: nat)
    ensures |CodeNumber(k, length)| == length
    decreases length
  {
    if length > 0 {
      CodeNumberLength(k / 32, length - 1);
    }
  }

  lemma {:induction false} PositionTimes(k: nat, length: nat)
    ensures Position(k, length) == length * k
  {
    if k > 0 {
      PositionTimes(k - 1, length);
      assert length * (k - 1) + length == length * k;
    }
  }

  lemma PositionDivides(k: nat, length: nat, r: nat)
    requires r < length
    ensures (Position(k, length) + r) / length == k && (Position(k, length) + r) % length == r
  {
    PositionTimes(k, length);
    QuotientUnique(Position(k, length) + r, length, k, r);
  }

  lemma CountingReads(k: nat, length: nat, r: nat)
    requires r < length
    ensures Counting(length)(Position(k, length) + r) == Some(DigitOf(k, length, r))
  {
    hide Position, DigitOf;
    PositionDivides(k, length, r);
  }

  lemma FirstRead(src: Source, at: nat, length: nat, d: nat)
    requires length > 0 && d < 32 && src(at) == Some(d)
    ensures var rest := CodeAt(src, at + 1, length - 1);
            CodeAt(src, at, length) == if rest.None? then None else Some([ALPHABET[d]] + rest.value)
  {
  }

  lemma {:induction false} CountingDraws(k: nat, length: nat, r: nat)
    requires r <= length
    ensures |CodeNumber(k, length)| == length
    ensures CodeAt(Counting(length), Position(k, length) + r, length - r) == Some(CodeNumber(k, length)[r..])
    decreases length - r
  {
    hide Counting, DigitOf, CodeNumber, Position, SymbolOf;
    CodeNumberLength(k, length);
    var code := CodeNumber(k, length);
    if r < length {
      hide CodeAt;
      CountingDraws(k, length, r + 1);
      CountingReads(k, length, r);
      CodeNumberAt(k, length, r);
      FirstRead(Counting(length), Position(k, length) + r, length - r, DigitOf(k, length, r));
      assert code[r..] == [code[r]] + code[r + 1..];
    } else {
      assert code[r..] == "";
    }
  }

  /** Every code has a number, as late as one likes. */
  lemma {:induction false} NumberOf(code: string, from: nat) returns (k: nat)
    requires Over(code, ALPHABET)
    ensures k >= from && CodeNumber(k, |code|) == code
    decreases |code|
  {
    if code == "" {
      k := from;
    } else {
      var front, last := code[..|code| - 1], code[|code| - 1];
      var high := NumberOf(front, from);
      var d :| 0 <= d < 32 && ALPHABET[d] == last;
      k := high * 32 + d;
      assert k / 32 == high && k % 32 == d;
      assert code == front + [last];
    }
  }

  lemma CountingDrawsCode(k: nat, length: nat)
    ensures Draw(Counting(length), length, k) == Some(CodeNumber(k, length))
  {
    hide CodeAt, Counting, CodeNumber, Position;
    CountingDraws(k, length, 0);
    assert CodeNumber(k, length)[0..] == CodeNumber(k, length);
  }

  /** For every length there is a fair source: one that counts through all codes. */
  lemma CountingIsFair(length: nat)
    ensures Fair(Counting(length), length)
  {
    hide AllCodes, Draw, Counting, CodeNumber;
    forall i: nat ensures Counting(length)(i).Some? {
      CountingNeverFails(length, i);
    }
    AllCodesFacts(length);
    forall c, k: nat | c in AllCodes(length) ensures DrawnFrom(Counting(length), length, c, k) {
      var j := NumberOf(c, k);
      CountingDrawsCode(j, length);
    }
  }

  lemma CountingNeverFails(length: nat, i: nat)
    ensures Counting(length)(i).Some?
  {
  }

  function Later(src: Source, shift: nat): Source {
    (i: nat) => src(shift + i)
  }

  /** Every code is drawn by some source, at the first draw. */
  lemma EveryCodeIsDrawn(length: nat, code: string) returns (src: Source)
    requires code in AllCodes(length)
    ensures Draw(src, length, 0) == Some(code)
  {
    hide AllCodes, Counting, CodeNumber, CodeAt, Later;
    AllCodesFacts(length);
    var k := NumberOf(code, 0);
    CountingDrawsCode(k, length);
    src := Later(Counting(length), Position(k, length));
    Shifted(Counting(length), Position(k, length), 0, length);
  }

  lemma {:induction false} Shifted(src: Source, shift: nat, at: nat, length: nat)
    ensures CodeAt(Later(src, shift), at, length) == CodeAt(src, shift + at, length)
    decreases length
  {
    if length > 0 {
      Shifted(src, shift, at + 1, length - 1);
    }
  }

  /** What the loop needs in order to end at all is the only thing asked of a call. */
  method GenerateBackupCodes(src: Source, n: int, length: int) returns (r: Result<seq<string>, Error>)
    requires n > 0 && length > 0 ==> exists k: nat :: EndsAt(src, n, length, k)
    ensures n <= 0 ==> r == Ok([])
    ensures n > 0 && length <= 0 ==> r == Err(BadLength)
    ensures n > 0 && length > 0 && r.Ok? ==>
      |r.value| == n <= Pow32(length) && NoDuplicates(r.value) && forall c | c in r.value :: c in AllCodes(length)
    ensures n > 0 && length > 0 && r.Ok? ==> exists k: nat :: r.value == Distinct(src, length, k)
    ensures n > 0 && length > 0 && r.Err? ==> r.error == ReadFailed && exists k: nat :: Draw(src, length, k).None?
  {
    hide CodeAt, AllCodes, Pow32;
    if n <= 0 {
      return Ok([]);
    }
    if length <= 0 {
      return Err(BadLength);
    }
    ghost var last: nat :| EndsAt(src, n, length, last);
    var codes: seq<string> := [];
    var seen: set<string> := {};
    var drawn := 0;
    while |codes| < n
      invariant drawn <= last
      invariant codes == Distinct(src, length, drawn) && |codes| <= n
      invariant seen == SetOf(codes) && NoDuplicates(codes)
      invariant forall c | c in codes :: c in AllCodes(length)
      decreases last - drawn
    {
      var code := RandomBackupCode(src, Position(drawn, length), length);
      assert code == Draw(src, length, drawn);
      if code.None? {
        return Err(ReadFailed);
      }
      assert drawn < last;
      CodeIsValid(src, Position(drawn, length), length);
      drawn := drawn + 1;
      if code.value in seen {
        continue;
      }
      seen := seen + {code.value};
      codes := codes + [code.value];
    }
    NeverMoreThanAll(src, length, drawn);
    return Ok(codes);
  }
}
