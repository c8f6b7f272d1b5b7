/** Time-based one-time passwords.  HMAC-SHA1 and the decoding of the secret are parameters;
    times and durations are nanoseconds. */
module Totp {
  import opened Wrappers
  import opened Decimal
  import opened Division

  const SECOND := 1_000_000_000
  const TWO_32 := 0x1_0000_0000
  const TWO_63 := 0x8000_0000_0000_0000
  const TWO_64 := 0x1_0000_0000_0000_0000

  const DEFAULT_SECRET_SIZE := 20
  const DEFAULT_CODE_LENGTH := 6
  const DEFAULT_TIME_STEP := 30 * SECOND
  const MAX_CODE_LENGTH := 8
  const MAC_SIZE := 20

  datatype Config = Config(secretSize: int, codeLength: int, timeStep: int, gracePeriod: int)

  /** An error of the source, or the run-time panic of a division by zero. */
  datatype Error = InvalidSecret | DivideByZero

  type SecretDecoder = string -> Option<seq<Byte>>

  /** key and message; the result has MAC_SIZE bytes */
  type Mac = (seq<Byte>, seq<Byte>) -> seq<Byte>

  /** Whole seconds of a positive duration, as they come out of a conversion through float64. */
  type Seconds = int -> int

  /** The conversion is exact for whole seconds and below one second; above, the rounding of the
      fraction may reach the next whole second. */
  ghost predicate IsSeconds(seconds: Seconds) {
    forall d :: d > 0 ==> SecondsOf(d, seconds(d))
  }

  ghost predicate SecondsOf(d: int, whole: int) {
    && d / SECOND <= whole <= d / SECOND + 1
    && (d % SECOND == 0 || d < SECOND ==> whole == d / SECOND)
  }

  ghost predicate IsSha1Mac(mac: Mac) {
    forall key, msg :: |mac(key, msg)| == MAC_SIZE
  }

  function WithDefaults(c: Config): (r: Config)
    ensures r.secretSize > 0 && 1 <= r.codeLength <= MAX_CODE_LENGTH && r.timeStep > 0 && r.gracePeriod >= 0
    ensures c.secretSize <= 0 ==> r.secretSize == 20
    ensures c.codeLength < 1 ==> r.codeLength == 6
    ensures c.codeLength > 8 ==> r.codeLength == 8
    ensures c.timeStep <= 0 ==> r.timeStep == 30 * SECOND
    ensures c.gracePeriod < 0 ==> r.gracePeriod == 0
    ensures c.secretSize > 0 && 1 <= c.codeLength <= MAX_CODE_LENGTH && c.timeStep > 0 && c.gracePeriod >= 0 ==> r == c
  {
    var size := if c.secretSize <= 0 then DEFAULT_SECRET_SIZE else c.secretSize;
    var length := if c.codeLength < 1 then DEFAULT_CODE_LENGTH
                  else if c.codeLength > MAX_CODE_LENGTH then MAX_CODE_LENGTH else c.codeLength;
    var step := if c.timeStep <= 0 then DEFAULT_TIME_STEP else c.timeStep;
    Config(size, length, step, if c.gracePeriod < 0 then 0 else c.gracePeriod)
  }

  // ------------------------------------------------------------------ bits of unsigned words

  function And(x: nat, y: nat): nat {
    if x == 0 || y == 0 then 0 else 2 * And(x / 2, y / 2) + x % 2 * (y % 2)
  }

  function Or(x: nat, y: nat): nat
    decreases x + y
  {
    if x == 0 then y
    else if y == 0 then x
    else 2 * Or(x / 2, y / 2) + (if x % 2 == 0 && y % 2 == 0 then 0 else 1)
  }

  function Pow2(k: nat): (p: nat)
    ensures p > 0
  {
    if k == 0 then 1 else 2 * Pow2(k - 1)
  }

  /** A shift of a 32-bit word. */
  function Shl32(x: nat, k: nat): nat {
    x * Pow2(k) % TWO_32
  }

  /** Masking the low bits takes the remainder. */
  lemma {:induction false} AndMask(x: nat, k: nat)
    ensures And(x, Pow2(k) - 1) == x % Pow2(k)
    decreases k
  {
    if k > 0 && x > 0 {
      var p := Pow2(k - 1);
      AndMask(x / 2, k - 1);
      assert (2 * p - 1) / 2 == p - 1 && (2 * p - 1) % 2 == 1;
      HalfRemainder(x, p);
    } else if x == 0 {
      assert 0 % Pow2(k) == 0;
    } else {
      assert x % 1 == 0;
    }
  }

  lemma HalfRemainder(x: nat, p: nat)
    requires p > 0
    ensures x % (2 * p) == 2 * (x / 2 % p) + x % 2
  {
    var h := x / 2;
    assert x == 2 * h + x % 2 && h == p * (h / p) + h % p;
    var r := 2 * (h % p) + x % 2;
    assert x == 2 * p * (h / p) + r by {
      assert 2 * (p * (h / p)) == 2 * p * (h / p);
    }
    QuotientUnique(x, 2 * p, h / p, r);
  }

  /** Or of a shifted word and a word below the shift is their sum. */
  lemma {:induction false} OrDisjoint(x: nat, y: nat, k: nat)
    requires y < Pow2(k)
    ensures Or(x * Pow2(k), y) == x * Pow2(k) + y
    decreases k
  {
    if k > 0 && x > 0 && y > 0 {
      var p := x * Pow2(k - 1);
      assert x * Pow2(k) == 2 * p;
      OrDisjoint(x, y / 2, k - 1);
      assert 2 * p / 2 == p && 2 * p % 2 == 0;
      assert p > 0;
    } else if x == 0 {
      assert x * Pow2(k) == 0;
    }
  }

  // -------------------------------------------------------------------------- truncation

  /** Dynamic truncation by shifts and masks, as section 5.4 of RFC 4226 writes it. */
  function Truncate(sum: seq<Byte>): nat
    requires |sum| == MAC_SIZE
  {
    var offset := Offset(sum);
    Or(Or(Or(Shl32(And(sum[offset], 127), 24), Shl32(sum[offset + 1], 16)), Shl32(sum[offset + 2], 8)), sum[offset + 3])
  }

  /** The low four bits of the last byte: all four indices stay inside the MAC. */
  function Offset(sum: seq<Byte>): (offset: nat)
    requires |sum| == MAC_SIZE
    ensures offset + 3 < |sum|
  {
    AndMask(sum[MAC_SIZE - 1], 4);
    assert Pow2(4) == 16;
    And(sum[MAC_SIZE - 1], 15)
  }

  /** The 31-bit big-endian number in four bytes of the MAC. */
  function BigEndian31(sum: seq<Byte>, offset: nat): nat
    requires offset + 3 < |sum|
  {
    var a: nat, b: nat, c: nat, d: nat := sum[offset] % 128, sum[offset + 1], sum[offset + 2], sum[offset + 3];
    a * 0x100_0000 + b * 0x1_0000 + c * 0x100 + d
  }

  lemma Powers()
    ensures Pow2(4) == 16 && Pow2(7) == 128 && Pow2(8) == 0x100 && Pow2(16) == 0x1_0000 && Pow2(24) == 0x100_0000
  {
    assert Pow2(4) == 16 && Pow2(8) == 16 * Pow2(4) && Pow2(12) == 16 * Pow2(8);
    assert Pow2(16) == 16 * Pow2(12) && Pow2(20) == 16 * Pow2(16) && Pow2(24) == 16 * Pow2(20);
  }

  /** Four digits to base 256, put together by or. */
  lemma OrDigits(a: nat, b: nat, c: nat, d: nat)
    requires b < 0x100 && c < 0x100 && d < 0x100
    ensures Or(Or(Or(a * 0x100_0000, b * 0x1_0000), c * 0x100), d) == a * 0x100_0000 + b * 0x1_0000 + c * 0x100 + d
  {
    hide Or, Pow2;
    Powers();
    OrDisjoint(a, b * 0x1_0000, 24);
    var ab := a * 0x100 + b;
    OrDisjoint(ab, c * 0x100, 16);
    OrDisjoint(ab * 0x100 + c, d, 8);
  }

  /** Shift-and-or gives the 31-bit number at the offset, without overflow. */
  lemma TruncateIsBigEndian(sum: seq<Byte>)
    requires |sum| == MAC_SIZE
    ensures Offset(sum) == sum[MAC_SIZE - 1] % 16
    ensures Truncate(sum) == BigEndian31(sum, Offset(sum)) < 0x8000_0000
  {
    hide Or, And, Pow2;
    Powers();
    AndMask(sum[MAC_SIZE - 1], 4);
    var o := Offset(sum);
    AndMask(sum[o], 7);
    OrDigits(sum[o] % 128, sum[o + 1], sum[o + 2], sum[o + 3]);
  }

  // ------------------------------------------------------------------------------- codes

  function Pow10(n: nat): (p: nat)
    ensures p > 0
  {
    if n == 0 then 1 else 10 * Pow10(n - 1)
  }

  /** A decimal numeral of at least `width` digits. */
  function ZeroPadded(v: nat, width: nat): string {
    Zeros(if |Digits(v)| < width then width - |Digits(v)| else 0) + Digits(v)
  }

  function Zeros(n: nat): (s: string)
    ensures |s| == n && AllDigits(s)
  {
    if n == 0 then "" else "0" + Zeros(n - 1)
  }

  function BigEndianBytes(v: nat, n: nat): (b: seq<Byte>)
    ensures |b| == n
  {
    if n == 0 then [] else BigEndianBytes(v / 256, n - 1) + [v % 256]
  }

  function Unix(t: int): int {
    t / SECOND
  }

  /** uint64 of the Unix time, divided by the whole seconds of the step. */
  function Counter(t: int, divisor: nat): nat
    requires divisor > 0
  {
    Unix(t) % TWO_64 / divisor
  }

  /** The code of a counter: HMAC of its eight bytes, truncated, modulo 10^length. */
  function CodeOf(mac: Mac, key: seq<Byte>, counter: nat, length: nat): string
    requires |mac(key, BigEndianBytes(counter, 8))| == MAC_SIZE
  {
    var sum := mac(key, BigEndianBytes(counter, 8));
    ZeroPadded(BigEndian31(sum, sum[MAC_SIZE - 1] % 16) % Pow10(length), length)
  }

  method GenerateCode(decode: SecretDecoder, mac: Mac, seconds: Seconds, secret: string, t: int, config: Config)
    returns (r: Result<string, Error>)
    requires IsSha1Mac(mac) && IsSeconds(seconds)
    ensures var cfg := WithDefaults(config);
            r == if decode(secret).None? then Err(InvalidSecret)
                 else if cfg.timeStep < SECOND then Err(DivideByZero)
                 else Ok(CodeOf(mac, decode(secret).value, Counter(t, seconds(cfg.timeStep)), cfg.codeLength))
  {
    hide Truncate, BigEndian31, ZeroPadded, BigEndianBytes;
    var cfg := WithDefaults(config);
    var key := decode(secret);
    if key.None? {
      return Err(InvalidSecret);
    }
    var divisor := seconds(cfg.timeStep);
    assert SecondsOf(cfg.timeStep, divisor);
    if divisor == 0 {
      return Err(DivideByZero);
    }
    var counter := Unix(t) % TWO_64 / divisor;
    var sum := mac(key.value, BigEndianBytes(counter, 8));
    var bin := Truncate(sum);
    TruncateIsBigEndian(sum);
    var mod := 1;
    for i := 0 to cfg.codeLength
      invariant mod == Pow10(i)
    {
      PowerFits(i + 1);
      mod := mod * 10 % TWO_32;
    }
    return Ok(ZeroPadded(bin % mod, cfg.codeLength));
  }

  /** 10^CodeLength fits a uint32. */
  lemma PowerFits(n: nat)
    requires n <= MAX_CODE_LENGTH
    ensures Pow10(n) <= 1_0000_0000 < TWO_32
  {
    assert Pow10(4) == 1_0000;
    assert Pow10(8) == 1_0000 * Pow10(4);
  }

  /** The counter `i` windows away from time `t`. */
  function WindowCounter(t: int, i: int, timeStep: int, divisor: nat): nat
    requires divisor > 0
  {
    Counter(t + i * timeStep, divisor)
  }

  /** The code `i` windows away from time `t`. */
  function CodeInWindow(mac: Mac, key: seq<Byte>, t: int, cfg: Config, divisor: nat, i: int): string
    requires IsSha1Mac(mac) && divisor > 0 && cfg.codeLength >= 0
  {
    CodeOf(mac, key, WindowCounter(t, i, cfg.timeStep, divisor), cfg.codeLength)
  }

  ghost predicate Accepted(mac: Mac, key: seq<Byte>, code: string, t: int, cfg: Config, divisor: nat)
    requires IsSha1Mac(mac) && divisor > 0 && cfg.codeLength >= 0
  {
    exists i :: -cfg.gracePeriod <= i <= cfg.gracePeriod && code == CodeInWindow(mac, key, t, cfg, divisor, i)
  }

  method Validate(decode: SecretDecoder, mac: Mac, seconds: Seconds, secret: string, code: string, t: int,
                  config: Config)
    returns (r: Result<bool, Error>)
    requires IsSha1Mac(mac) && IsSeconds(seconds)
    ensures var cfg := WithDefaults(config);
            if decode(secret).None? then r == Err(InvalidSecret)
            else if cfg.timeStep < SECOND then r == Err(DivideByZero)
            else
              SecondsOf(cfg.timeStep, seconds(cfg.timeStep)) &&
              r == Ok(Accepted(mac, decode(secret).value, code, t, cfg, seconds(cfg.timeStep)))
  {
    hide CodeOf, Counter;
    var cfg := WithDefaults(config);
    var divisor := seconds(cfg.timeStep);
    assert SecondsOf(cfg.timeStep, divisor);
    var i := -cfg.gracePeriod;
    while i <= cfg.gracePeriod
      invariant -cfg.gracePeriod <= i <= cfg.gracePeriod + 1
      invariant i > -cfg.gracePeriod ==> decode(secret).Some? && cfg.timeStep >= SECOND
      invariant forall j | -cfg.gracePeriod <= j < i ::
        code != CodeInWindow(mac, decode(secret).value, t, cfg, divisor, j)
    {
      var candidate := GenerateCode(decode, mac, seconds, secret, t + i * cfg.timeStep, cfg);
      if candidate.Err? {
        return Err(candidate.error);
      }
      assert candidate.value == CodeInWindow(mac, decode(secret).value, t, cfg, divisor, i);
      if candidate.value == code {
        return Ok(true);
      }
      i := i + 1;
    }
    return Ok(false);
  }

  // ------------------------------------------------------------------------- the main results

  lemma ShiftedQuotient(u: nat, s: nat, i: int)
    requires s > 0 && u + i * s >= 0
    ensures (u + i * s) / s == u / s + i
  {
    var q, r := u / s, u % s;
    assert u + i * s == s * (q + i) + r;
    ScaleOrder(q + i, -1, s);
    QuotientUnique(u + i * s, s, q + i, r);
  }

  /** With whole-second steps the windows are consecutive counters. */
  lemma WindowIsCounter(t: int, timeStep: int, i: int)
    requires timeStep >= SECOND && timeStep % SECOND == 0
    requires InEpoch(t, i, timeStep)
    ensures WindowCounter(t, i, timeStep, timeStep / SECOND) == Counter(t, timeStep / SECOND) + i
  {
    hide Unix;
    var s := timeStep / SECOND;
    StepsAreSeconds(timeStep, i);
    UnixShift(t, i * s);
    ShiftedQuotient(Unix(t), s, i);
  }

  lemma UnixShift(t: int, k: int)
    ensures Unix(t + k * SECOND) == Unix(t) + k
  {
  }

  lemma StepsAreSeconds(timeStep: int, i: int)
    requires timeStep % SECOND == 0
    ensures i * timeStep == i * (timeStep / SECOND) * SECOND
  {
    assert timeStep == timeStep / SECOND * SECOND;
  }

  /** Validate accepts exactly the codes of the counters from c - G to c + G, for steps of whole
      seconds and times at least G steps after the epoch. */
  lemma ValidateExactly(mac: Mac, key: seq<Byte>, code: string, t: int, cfg: Config)
    requires IsSha1Mac(mac) && cfg.codeLength >= 0 && cfg.gracePeriod >= 0
    requires cfg.timeStep >= SECOND && cfg.timeStep % SECOND == 0
    requires t >= cfg.gracePeriod * cfg.timeStep && Unix(t) + cfg.gracePeriod * (cfg.timeStep / SECOND) < TWO_64
    ensures var c := Unix(t) / (cfg.timeStep / SECOND);
            Accepted(mac, key, code, t, cfg, cfg.timeStep / SECOND) <==>
            exists n: nat ::
              c - cfg.gracePeriod <= n <= c + cfg.gracePeriod && code == CodeOf(mac, key, n, cfg.codeLength)
  {
    hide CodeOf;
    var g, s, u := cfg.gracePeriod, cfg.timeStep / SECOND, Unix(t);
    var c := u / s;
    TimeAfterGrace(t, g, cfg.timeStep);
    forall i | -g <= i <= g
      ensures WindowCounter(t, i, cfg.timeStep, s) == c + i >= 0
    {
      GraceRange(u, g, s, i);
      StepsAreSeconds(cfg.timeStep, i);
      UnixShift(t, i * s);
      WindowIsCounter(t, cfg.timeStep, i);
    }
    if Accepted(mac, key, code, t, cfg, s) {
      var i :| -g <= i <= g && code == CodeInWindow(mac, key, t, cfg, s, i);
      assert code == CodeOf(mac, key, c + i, cfg.codeLength);
    }
    forall n: nat | c - g <= n <= c + g && code == CodeOf(mac, key, n, cfg.codeLength)
      ensures Accepted(mac, key, code, t, cfg, s)
    {
      assert code == CodeInWindow(mac, key, t, cfg, s, n - c);
    }
  }

  lemma TimeAfterGrace(t: int, g: nat, timeStep: int)
    requires timeStep >= SECOND && timeStep % SECOND == 0 && t >= g * timeStep
    ensures Unix(t) >= g * (timeStep / SECOND) >= 0
  {
    var s := timeStep / SECOND;
    assert g * timeStep == g * s * SECOND;
    assert (Unix(t) + 1) * SECOND > t;
    ScaleOrder(Unix(t) + 1, g * s, SECOND);
  }

  lemma GraceRange(u: int, g: int, s: int, i: int)
    requires s >= 0 && u >= g * s && -g <= i <= g && u + g * s < TWO_64
    ensures 0 <= u + i * s < TWO_64
  {
    assert (g + i) * s >= 0 && (g - i) * s >= 0;
  }

  /** Time `t`, and `i` steps away from it, are after the epoch. */
  predicate InEpoch(t: int, i: int, timeStep: int) {
    0 <= Unix(t) < TWO_64 && 0 <= Unix(t + i * timeStep) < TWO_64
  }

  ghost predicate WindowsAreCounters(timeStep: int, divisor: nat)
    requires divisor > 0
  {
    forall t, i :: InEpoch(t, i, timeStep) ==>
      WindowCounter(t, i, timeStep, divisor) == Counter(t, divisor) + i
  }

  /** The windows around a time are consecutive counters for exactly the steps that are whole
      seconds, of all steps a time.Duration can hold: the divisor is truncated, the offset of a
      window is not. */
  lemma WindowsAreCountersExactly(seconds: Seconds, timeStep: int)
    requires IsSeconds(seconds) && SECOND <= timeStep <= MAX_INT64
    ensures SecondsOf(timeStep, seconds(timeStep))
    ensures WindowsAreCounters(timeStep, seconds(timeStep)) <==> timeStep % SECOND == 0
  {
    assert SecondsOf(timeStep, seconds(timeStep));
    var s, divisor := timeStep / SECOND, seconds(timeStep);
    if timeStep % SECOND == 0 {
      forall t, i | InEpoch(t, i, timeStep)
        ensures WindowCounter(t, i, timeStep, divisor) == Counter(t, divisor) + i
      {
        WindowIsCounter(t, timeStep, i);
      }
    } else if divisor == s {
      FractionSkips(s, timeStep % SECOND, timeStep);
    } else {
      FractionStays(s, timeStep);
    }
  }

  /** A fraction of a second in the step carries one window into the next but one. */
  lemma FractionSkips(s: nat, f: nat, timeStep: int)
    requires 0 < s < TWO_63 && 0 < f < SECOND && timeStep == s * SECOND + f
    ensures var t := s * SECOND - f;
            InEpoch(t, 1, timeStep) && WindowCounter(t, 1, timeStep, s) == 2 && Counter(t, s) == 0
  {
    var t := s * SECOND - f;
    assert Unix(t) == s - 1 && Unix(t + 1 * timeStep) == 2 * s;
    QuotientUnique(2 * s, s, 2, 0);
    QuotientUnique(s - 1, s, 0, s - 1);
  }

  /** With a divisor that was rounded up, one window on may be the same counter. */
  lemma FractionStays(s: nat, timeStep: int)
    requires 0 < s < TWO_63 && timeStep / SECOND == s
    ensures InEpoch(0, 1, timeStep) && WindowCounter(0, 1, timeStep, s + 1) == Counter(0, s + 1) == 0
  {
    assert Unix(0 + 1 * timeStep) == s;
    QuotientUnique(s, s + 1, 0, s);
    QuotientUnique(0, s + 1, 0, 0);
  }

  lemma {:induction false} ValueZeros(n: nat, s: string)
    requires AllDigits(s)
    ensures AllDigits(Zeros(n) + s) && Value(Zeros(n) + s) == Value(s)
    decreases |s|, n
  {
    var all := Zeros(n) + s;
    if s == "" {
      assert all == Zeros(n);
      if n > 0 {
        assert Zeros(n)[..n - 1] == Zeros(n - 1) by { ZerosSnoc(n - 1); }
        assert Zeros(n - 1) + "" == Zeros(n - 1);
        ZerosSnoc(n - 1);
        ValueZeros(n - 1, "");
      }
    } else {
      assert all[..|all| - 1] == Zeros(n) + s[..|s| - 1];
      ValueZeros(n, s[..|s| - 1]);
    }
  }

  lemma {:induction false} ZerosSnoc(n: nat)
    ensures Zeros(n + 1) == Zeros(n) + "0"
  {
    if n > 0 {
      ZerosSnoc(n - 1);
    }
  }

  lemma {:induction false} DigitsLength(v: nat, n: nat)
    requires v < Pow10(n) && n > 0
    ensures |Digits(v)| <= n
  {
    if v >= 10 {
      DigitsLength(v / 10, n - 1);
    }
  }

  /** A code has exactly the configured number of digits, and its value is the truncated MAC
      modulo 10^length: section 5.3 of RFC 4226. */
  lemma {:induction false} CodeShape(mac: Mac, key: seq<Byte>, counter: nat, length: nat)
    requires IsSha1Mac(mac) && length > 0
    ensures var sum := mac(key, BigEndianBytes(counter, 8));
            var code := CodeOf(mac, key, counter, length);
            && |code| == length && AllDigits(code)
            && Value(code) == BigEndian31(sum, sum[MAC_SIZE - 1] % 16) % Pow10(length)
  {
    hide BigEndian31, BigEndianBytes;
    var sum := mac(key, BigEndianBytes(counter, 8));
    var v := BigEndian31(sum, sum[MAC_SIZE - 1] % 16) % Pow10(length);
    DigitsLength(v, length);
    ValueDigits(v);
    ValueZeros(length - |Digits(v)|, Digits(v));
  }

  function FromBigEndian(b: seq<Byte>): nat {
    if b == [] then 0 else FromBigEndian(b[..|b| - 1]) * 256 + b[|b| - 1]
  }

  function Pow256(n: nat): nat {
    if n == 0 then 1 else 256 * Pow256(n - 1)
  }

  /** Different counters are hashed as different messages. */
  lemma {:induction false} CounterBytes(v: nat, n: nat)
    requires v < Pow256(n)
    ensures FromBigEndian(BigEndianBytes(v, n)) == v
    decreases n
  {
    if n > 0 {
      CounterBytes(v / 256, n - 1);
      assert BigEndianBytes(v, n)[..n - 1] == BigEndianBytes(v / 256, n - 1);
    }
  }

  // --------------------------------------------------------------- codes without remainders

  function Tail(s: string, n: nat): string {
    if n <= |s| then s[|s| - n..] else s
  }

  lemma TailSnoc(s: string, c: char, n: nat)
    ensures Tail(s + [c], n + 1) == Tail(s, n) + [c]
  {
  }

  /** Zeros in front play no part in the last n characters of what has n. */
  lemma TailAfter(zeros: string, s: string, n: nat)
    requires n <= |s|
    ensures Tail(zeros + s, n) == Tail(s, n)
  {
  }

  lemma ZerosMore(n: nat)
    ensures Zeros(n + 1) == "0" + Zeros(n)
  {
  }

  lemma PowStep(v: nat, n: nat)
    ensures v % Pow10(n + 1) == 10 * (v / 10 % Pow10(n)) + v % 10
  {
    var p := Pow10(n);
    var high, low := v / 10, v % 10;
    var q, m := high / p, high % p;
    assert v == 10 * high + low && high == p * q + m;
    assert 10 * (p * q) == 10 * p * q;
    QuotientUnique(v, 10 * p, q, 10 * m + low);
  }

  /** One digit more in front of the last one. */
  lemma PaddedSnoc(a: nat, d: nat, n: nat)
    requires d < 10 && a < Pow10(n) && n > 0
    ensures ZeroPadded(10 * a + d, n + 1) == ZeroPadded(a, n) + ["0123456789"[d]]
  {
    hide Pow10;
    DigitsLength(a, n);
    var c := ["0123456789"[d]];
    if a > 0 {
      DigitsSnoc(a, d);
      assert Zeros(n - |Digits(a)|) + (Digits(a) + c) == Zeros(n - |Digits(a)|) + Digits(a) + c;
    } else {
      DigitNumeral(d);
      DigitNumeral(0);
      ZerosSnoc(n - 1);
    }
  }

  lemma PadDigit(v: nat)
    requires v < 10
    ensures ZeroPadded(v, 1) == ["0123456789"[v]]
  {
    DigitNumeral(v);
    assert Zeros(0) == "";
  }

  lemma DigitsTail(v: nat)
    ensures Tail(Digits(v), 1) == ["0123456789"[v % 10]]
    ensures v >= 10 ==> Digits(v) == Digits(v / 10) + ["0123456789"[v % 10]]
  {
    DigitNumeral(v % 10);
    if v >= 10 {
      DigitsSnoc(v / 10, v % 10);
    }
  }

  /** Padding the remainder modulo 10^n is cutting off all but the last n digits. */
  lemma {:induction false} RemainderIsTail(v: nat, n: nat)
    requires n > 0
    ensures ZeroPadded(v % Pow10(n), n) == Tail(Zeros(n) + Digits(v), n)
    decreases n
  {
    hide ZeroPadded, Tail, Digits, Zeros;
    DigitsTail(v);
    if n == 1 {
      assert Pow10(1) == 10;
      PadDigit(v % 10);
      LastOfZeros(1, v);
    } else {
      RemainderIsTail(v / 10, n - 1);
      PowStep(v, n - 1);
      PaddedSnoc(v / 10 % Pow10(n - 1), v % 10, n - 1);
      CutLast(v, n - 1);
    }
  }

  lemma LastOfZeros(n: nat, v: nat)
    ensures Tail(Zeros(n) + Digits(v), 1) == Tail(Digits(v), 1)
  {
    TailAfter(Zeros(n), Digits(v), 1);
  }

  /** The last n + 1 digits are the last n of a tenth, and the last one. */
  lemma CutLast(v: nat, n: nat)
    requires n > 0
    ensures Tail(Zeros(n + 1) + Digits(v), n + 1) == Tail(Zeros(n) + Digits(v / 10), n) + ["0123456789"[v % 10]]
  {
    hide Tail, Digits, Zeros;
    DigitsTail(v);
    var c := ["0123456789"[v % 10]];
    ZerosMore(n);
    if v >= 10 {
      assert Zeros(n + 1) + Digits(v) == (Zeros(n + 1) + Digits(v / 10)) + c;
      TailSnoc(Zeros(n + 1) + Digits(v / 10), c[0], n);
      assert Zeros(n + 1) + Digits(v / 10) == "0" + (Zeros(n) + Digits(v / 10));
      TailAfter("0", Zeros(n) + Digits(v / 10), n);
    } else {
      DigitNumeral(v);
      DigitNumeral(0);
      TailSnoc(Zeros(n + 1), c[0], n);
      ZerosSnoc(n);
    }
  }

  /** A code is the last digits of the 31-bit number, with zeros in front where it has fewer. */
  lemma CodeIsTail(mac: Mac, key: seq<Byte>, counter: nat, length: nat)
    requires IsSha1Mac(mac) && length > 0
    ensures var sum := mac(key, BigEndianBytes(counter, 8));
            CodeOf(mac, key, counter, length)
            == Tail(Zeros(length) + Digits(BigEndian31(sum, sum[MAC_SIZE - 1] % 16)), length)
  {
    hide BigEndian31, BigEndianBytes, Tail, ZeroPadded;
    var sum := mac(key, BigEndianBytes(counter, 8));
    RemainderIsTail(BigEndian31(sum, sum[MAC_SIZE - 1] % 16), length);
  }

  /** The modulus is a one and as many zeros as the code has digits. */
  lemma {:induction false} PowIsOneAndZeros(n: nat)
    ensures AllDigits("1" + Zeros(n)) && Value("1" + Zeros(n)) == Pow10(n)
  {
    if n > 0 {
      PowIsOneAndZeros(n - 1);
      ZerosSnoc(n - 1);
      assert ("1" + Zeros(n))[..n] == "1" + Zeros(n - 1);
    } else {
      assert "1" + Zeros(0) == "1" && "1"[..0] == "";
    }
  }

  lemma FromSnoc(front: seq<Byte>, last: Byte)
    ensures FromBigEndian(front + [last]) == FromBigEndian(front) * 256 + last
  {
    assert (front + [last])[..|front|] == front;
  }

  lemma FromFour(x: Byte, y: Byte, z: Byte, w: Byte)
    ensures FromBigEndian([x, y, z, w]) == 0x100_0000 * x + 0x1_0000 * y + 0x100 * z + w
  {
    hide FromBigEndian;
    FromSnoc([], x);
    FromSnoc([x], y);
    FromSnoc([x, y], z);
    FromSnoc([x, y, z], w);
    assert [] + [x] == [x] && [x] + [y] == [x, y] && [x, y] + [z] == [x, y, z] && [x, y, z] + [w] == [x, y, z, w];
    FromNothing();
  }

  lemma FromNothing()
    ensures FromBigEndian([]) == 0
  {
  }

  /** The 31-bit number is the big-endian value of its four bytes, but for the highest bit. */
  lemma BigEndianIsValue(sum: seq<Byte>, offset: nat)
    requires offset + 3 < |sum|
    ensures BigEndian31(sum, offset) == FromBigEndian(sum[offset..offset + 4]) % 0x8000_0000
  {
    hide FromBigEndian;
    FromFour(sum[offset], sum[offset + 1], sum[offset + 2], sum[offset + 3]);
    assert sum[offset..offset + 4] == [sum[offset], sum[offset + 1], sum[offset + 2], sum[offset + 3]];
    var x: nat := sum[offset];
    assert 0x100_0000 * x == 0x8000_0000 * (x / 128) + 0x100_0000 * (x % 128);
  }

  /** Appendix D of RFC 4226: the MAC for count 1 gives the code 287082. */
  lemma Rfc4226Code(mac: Mac, key: seq<Byte>)
    requires IsSha1Mac(mac)
    requires mac(key, [0, 0, 0, 0, 0, 0, 0, 1]) ==
      [0x75, 0xa4, 0x8a, 0x19, 0xd4, 0xcb, 0xe1, 0x00, 0x64, 0x4e,
       0x8a, 0xc1, 0x39, 0x7e, 0xea, 0x74, 0x7a, 0x2d, 0x33, 0xab]
    ensures CodeOf(mac, key, 1, 6) == "287082"
  {
    hide Tail, Zeros, Digits;
    CounterOne();
    CodeIsTail(mac, key, 1, 6);
    NumeralOfCount1();
  }

  lemma CounterOne()
    ensures BigEndianBytes(1, 8) == [0, 0, 0, 0, 0, 0, 0, 1]
  {
    assert BigEndianBytes(0, 3) == [0, 0, 0];
    assert BigEndianBytes(0, 7) == [0, 0, 0, 0, 0, 0, 0];
  }

  lemma NumeralOfCount1()
    ensures Tail(Zeros(6) + Digits(1094287082), 6) == "287082"
  {
    hide Digits;
    DigitNumeral(1);
    DigitsSnoc(1, 0);
    DigitsSnoc(10, 9);
    DigitsSnoc(109, 4);
    DigitsSnoc(1094, 2);
    DigitsSnoc(10942, 8);
    DigitsSnoc(109428, 7);
    DigitsSnoc(1094287, 0);
    DigitsSnoc(10942870, 8);
    DigitsSnoc(109428708, 2);
    assert Digits(1094287082) == "1094287082";
    TailAfter(Zeros(6), "1094287082", 6);
  }
}
