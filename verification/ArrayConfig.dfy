/** Array-valued configuration: flag values, environment variables, and the precedence among
    flags, environment and default. */
module ArrayConfig {
  import opened Wrappers
  import opened Strings
  import opened Decimal

  // --------------------------------------------------------------------------- int arrays

  /** What a list of pieces adds to an int array, up to the first that is no number, and
      whether there was none. */
  function TakeInts(parts: seq<string>): (seq<int>, bool)
    decreases |parts|
  {
    if parts == [] then ([], true)
    else
      var trimmed := TrimSpace(parts[0]);
      if trimmed == "" then TakeInts(parts[1..])
      else
        match Atoi(trimmed)
        case None => ([], false)
        case Some(v) => var (vs, ok) := TakeInts(parts[1..]); ([v] + vs, ok)
  }

  function IntsOf(value: string): (seq<int>, bool) {
    if ',' in value then TakeInts(Split(value, ','))
    else
      match Atoi(value)
      case None => ([], false)
      case Some(v) => ([v], true)
  }

  function Numerals(vs: seq<int>): seq<string>
    decreases |vs|
  {
    if vs == [] then [] else [Itoa(vs[0])] + Numerals(vs[1..])
  }

  function IntsString(vs: seq<int>): string {
    Join(Numerals(vs), ',')
  }

  class IntArr {
    var items: seq<int>

    constructor ()
      ensures items == []
    {
      items := [];
    }

    /** flag.Value's Set: numbers before a bad one stay appended. */
    method Set(value: string) returns (ok: bool)
      modifies this
      ensures (items, ok) == (old(items) + IntsOf(value).0, IntsOf(value).1)
    {
      hide TrimSpace, Atoi;
      if ',' !in value {
        var v := Atoi(value);
        if v.None? {
          assert items + [] == items;
          return false;
        }
        items := items + [v.value];
        return true;
      }
      var parts := Split(value, ',');
      ghost var all := old(items) + TakeInts(parts).0;
      for k := 0 to |parts|
        invariant items + TakeInts(parts[k..]).0 == all && TakeInts(parts[k..]).1 == TakeInts(parts).1
      {
        assert parts[k..][1..] == parts[k + 1..];
        var trimmed := TrimSpace(parts[k]);
        if trimmed != "" {
          var v := Atoi(trimmed);
          if v.None? {
            assert items + [] == items;
            return false;
          }
          assert items + ([v.value] + TakeInts(parts[k + 1..]).0) == items + [v.value] + TakeInts(parts[k + 1..]).0;
          items := items + [v.value];
        }
      }
      assert parts[|parts|..] == [] && items + [] == items;
      return true;
    }

    method String() returns (s: string)
      ensures s == IntsString(items)
    {
      var strArr: seq<string> := [];
      for k := 0 to |items|
        invariant strArr + Numerals(items[k..]) == Numerals(items)
      {
        assert items[k..][1..] == items[k + 1..];
        strArr := strArr + [Itoa(items[k])];
      }
      assert items[|items|..] == [] && strArr + [] == strArr;
      s := Join(strArr, ',');
    }
  }

  /** env.GetAsStringArr, given the variable's value; "" when unset. */
  function GetAsStringArr(env: string, fallback: string): seq<string> {
    if env != "" then Split(env, ',') else Split(fallback, ',')
  }

  /** The pieces that are numbers. */
  function Parseable(parts: seq<string>): seq<int>
    decreases |parts|
  {
    if parts == [] then []
    else
      match Atoi(parts[0])
      case None => Parseable(parts[1..])
      case Some(v) => [v] + Parseable(parts[1..])
  }

  method GetAsIntArr(env: string, fallback: string) returns (ints: seq<int>)
    ensures ints == Parseable(GetAsStringArr(env, fallback))
  {
    hide Atoi;
    var strArr := GetAsStringArr(env, fallback);
    ints := [];
    for k := 0 to |strArr|
      invariant ints + Parseable(strArr[k..]) == Parseable(strArr)
    {
      assert strArr[k..][1..] == strArr[k + 1..];
      var v := Atoi(strArr[k]);
      if v.Some? {
        assert ints + ([v.value] + Parseable(strArr[k + 1..])) == ints + [v.value] + Parseable(strArr[k + 1..]);
        ints := ints + [v.value];
      }
    }
    assert strArr[|strArr|..] == [];
  }

  ghost predicate AllInt64(vs: seq<int>) {
    forall k | 0 <= k < |vs| :: MIN_INT64 <= vs[k] <= MAX_INT64
  }

  lemma {:induction false} NumeralsPlain(vs: seq<int>)
    ensures |Numerals(vs)| == |vs|
    ensures NoneHas(Numerals(vs), ',') && (forall k | 0 <= k < |vs| :: Numerals(vs)[k] == Itoa(vs[k]) != "")
    decreases |vs|
  {
    hide Itoa;
    if vs != [] {
      ItoaPlain(vs[0], ',');
      NumeralsPlain(vs[1..]);
    }
  }

  lemma {:induction false} ParseNumerals(vs: seq<int>)
    requires AllInt64(vs)
    ensures Parseable(Numerals(vs)) == vs
    decreases |vs|
  {
    hide Itoa, Atoi;
    if vs != [] {
      AtoiItoa(vs[0]);
      ParseNumerals(vs[1..]);
      assert Numerals(vs)[1..] == Numerals(vs[1..]);
    }
  }

  /** Printing a default as text and reading it back gives exactly the default, for the empty
      list too. */
  lemma IntDefaultSurvives(vs: seq<int>)
    requires AllInt64(vs)
    ensures Parseable(GetAsStringArr("", IntsString(vs))) == vs
  {
    if vs == [] {
      SplitNone("", ',');
      assert [""][1..] == [] && Atoi("") == None;
    } else {
      NumeralsPlain(vs);
      SplitJoin(Numerals(vs), ',');
      ParseNumerals(vs);
    }
  }

  /** The numbers of all occurrences of a flag; None when one of them is rejected. */
  function AllInts(occurrences: seq<string>): Option<seq<int>>
    decreases |occurrences|
  {
    if occurrences == [] then Some([])
    else
      var (vs, ok) := IntsOf(occurrences[0]);
      var rest := AllInts(occurrences[1..]);
      if !ok || rest.None? then None else Some(vs + rest.value)
  }

  class IntArrField {
    var defaultValue: seq<int>
    var value: seq<int>
    var flagValue: IntArr

    constructor (defaultValue: seq<int>)
      ensures this.defaultValue == defaultValue && fresh(flagValue)
    {
      this.defaultValue := defaultValue;
      value := [];
      flagValue := new IntArr();
    }

    /** configureFlag: the environment replaces the default; the flag starts empty. */
    method ConfigureFlag(env: string)
      modifies this
      ensures defaultValue == Parseable(GetAsStringArr(env, IntsString(old(defaultValue))))
      ensures flagValue.items == [] && fresh(flagValue)
    {
      defaultValue := GetAsIntArr(env, IntsString(defaultValue));
      flagValue := new IntArr();
    }

    /** setFlagValue: a flag that got anything wins. */
    method SetFlagValue()
      modifies this`value
      ensures value == if flagValue.items != [] then flagValue.items else defaultValue
    {
      if |flagValue.items| > 0 {
        value := flagValue.items;
        return;
      }
      value := defaultValue;
    }

    /** Configuring the field, parsing the command line, and fixing the value. */
    method Resolve(env: string, occurrences: seq<string>) returns (ok: bool)
      requires AllInt64(defaultValue)
      modifies this
      ensures var flags := AllInts(occurrences);
              ok == flags.Some? &&
              (ok ==> value == if flags.value != [] then flags.value
                               else if env != "" then Parseable(Split(env, ','))
                               else old(defaultValue))
    {
      hide IntsOf, Parseable;
      IntDefaultSurvives(defaultValue);
      ConfigureFlag(env);
      var flag := flagValue;
      for k := 0 to |occurrences|
        invariant flag == flagValue && fresh(flag)
        invariant defaultValue == if env != "" then Parseable(Split(env, ',')) else old(defaultValue)
        invariant AllInts(occurrences).Some? <==> AllInts(occurrences[k..]).Some?
        invariant AllInts(occurrences).Some? ==>
          flag.items + AllInts(occurrences[k..]).value == AllInts(occurrences).value
      {
        assert occurrences[k..][1..] == occurrences[k + 1..];
        ghost var before := flag.items;
        ok := flag.Set(occurrences[k]);
        if !ok {
          return;
        }
        if AllInts(occurrences).Some? {
          assert before + (IntsOf(occurrences[k]).0 + AllInts(occurrences[k + 1..]).value)
              == before + IntsOf(occurrences[k]).0 + AllInts(occurrences[k + 1..]).value;
        }
      }
      assert occurrences[|occurrences|..] == [];
      SetFlagValue();
      ok := true;
    }
  }

  // ------------------------------------------------------------------------ string arrays

  function StringsOf(value: string): seq<string> {
    if ',' in value then NonBlank(Split(value, ',')) else [value]
  }

  function NonBlank(parts: seq<string>): seq<string>
    decreases |parts|
  {
    if parts == [] then []
    else
      var trimmed := TrimSpace(parts[0]);
      if trimmed == "" then NonBlank(parts[1..]) else [trimmed] + NonBlank(parts[1..])
  }

  class StringArr {
    var items: seq<string>

    constructor ()
      ensures items == []
    {
      items := [];
    }

    method Set(value: string)
      modifies this
      ensures items == old(items) + StringsOf(value)
    {
      hide TrimSpace;
      if ',' !in value {
        items := items + [value];
        return;
      }
      var parts := Split(value, ',');
      for k := 0 to |parts|
        invariant items + NonBlank(parts[k..]) == old(items) + NonBlank(parts)
      {
        assert parts[k..][1..] == parts[k + 1..];
        var trimmed := TrimSpace(parts[k]);
        if trimmed != "" {
          assert items + ([trimmed] + NonBlank(parts[k + 1..])) == items + [trimmed] + NonBlank(parts[k + 1..]);
          items := items + [trimmed];
        }
      }
      assert parts[|parts|..] == [];
    }
  }

  /** The default of a string array after configureFlag, given the environment. */
  function StringDefault(env: string, defaultValue: seq<string>): seq<string> {
    GetAsStringArr(env, Join(defaultValue, ','))
  }

  // ------------------------------------------------------------------------- the main results

  lemma NumeralTrimmed(v: int)
    ensures TrimSpace(Itoa(v)) == Itoa(v)
  {
    assert forall k | 0 <= k < |Itoa(v)| :: Itoa(v)[k] == '-' || IsDigit(Itoa(v)[k]);
    TrimNothing(Itoa(v));
  }

  lemma {:induction false} TakeNumerals(vs: seq<int>)
    requires AllInt64(vs)
    ensures TakeInts(Numerals(vs)) == (vs, true)
    decreases |vs|
  {
    hide Itoa, Atoi, TrimSpace;
    if vs != [] {
      NumeralTrimmed(vs[0]);
      ItoaPlain(vs[0], ',');
      AtoiItoa(vs[0]);
      TakeNumerals(vs[1..]);
      assert Numerals(vs)[1..] == Numerals(vs[1..]) && Numerals(vs)[0] == Itoa(vs[0]);
      assert [vs[0]] + vs[1..] == vs;
    }
  }

  /** A flag given the printed form of a non-empty list appends exactly that list. */
  lemma SetPrinted(vs: seq<int>)
    requires AllInt64(vs) && vs != []
    ensures IntsOf(IntsString(vs)) == (vs, true)
  {
    hide Itoa, Atoi, TrimSpace, Split;
    NumeralsPlain(vs);
    if |vs| == 1 {
      AtoiItoa(vs[0]);
      assert vs == [vs[0]] && Numerals(vs) == [Itoa(vs[0])];
    } else {
      CommaBetween(Numerals(vs));
      SplitJoin(Numerals(vs), ',');
      TakeNumerals(vs);
    }
  }

  lemma CommaBetween(parts: seq<string>)
    requires |parts| > 1
    ensures ',' in Join(parts, ',')
  {
    assert Join(parts, ',')[|parts[0]|] == ',';
  }

  /** The default of a string array survives its way through text exactly when it is not empty
      and none of its elements contains a comma. */
  lemma StringDefaultSurvivesExactly(vs: seq<string>)
    ensures StringDefault("", vs) == vs <==> vs != [] && NoneHas(vs, ',')
  {
    if vs != [] && NoneHas(vs, ',') {
      SplitJoin(vs, ',');
    }
    JoinSplit(Join(vs, ','), ',');
  }

  // ------------------------------------------------------------------------------ white space

  /** A piece of a list as it may be written: what counts, with white space around it. */
  datatype Piece = Piece(before: string, core: string, after: string)

  ghost predicate WellSpaced(ps: seq<Piece>) {
    forall i | 0 <= i < |ps| :: AllSpace(ps[i].before) && AllSpace(ps[i].after) && Trimmed(ps[i].core)
  }

  function Written(ps: seq<Piece>): seq<string>
    decreases |ps|
  {
    if ps == [] then [] else [ps[0].before + ps[0].core + ps[0].after] + Written(ps[1..])
  }

  /** What counts, without the blank pieces. */
  function Cores(ps: seq<Piece>): seq<string>
    decreases |ps|
  {
    if ps == [] then [] else (if ps[0].core == "" then [] else [ps[0].core]) + Cores(ps[1..])
  }

  lemma WrittenHead(ps: seq<Piece>)
    requires ps != [] && WellSpaced(ps)
    ensures Written(ps)[0] == ps[0].before + ps[0].core + ps[0].after && Written(ps)[1..] == Written(ps[1..])
    ensures TrimSpace(Written(ps)[0]) == ps[0].core && WellSpaced(ps[1..])
  {
    TrimAround(ps[0].before, ps[0].core, ps[0].after);
  }

  /** White space around the pieces of a list, and blank pieces, make no difference to a string array. */
  lemma {:induction false} SpaceIgnored(ps: seq<Piece>)
    requires WellSpaced(ps)
    ensures NonBlank(Written(ps)) == Cores(ps)
    decreases |ps|
  {
    hide TrimSpace;
    if ps != [] {
      WrittenHead(ps);
      SpaceIgnored(ps[1..]);
    }
  }

  lemma CoresHead(ps: seq<Piece>)
    requires ps != []
    ensures Cores(ps) == if ps[0].core == "" then Cores(ps[1..]) else [ps[0].core] + Cores(ps[1..])
  {
  }

  /** Nor to an int array: it takes the numbers of what counts, up to the first that is none. */
  lemma {:induction false} SpaceIgnoredInts(ps: seq<Piece>)
    requires WellSpaced(ps)
    ensures TakeInts(Written(ps)) == TakeCores(Cores(ps))
    decreases |ps|
  {
    hide TrimSpace, Atoi, Cores;
    CoresNothing();
    if ps != [] {
      WrittenHead(ps);
      CoresHead(ps);
      SpaceIgnoredInts(ps[1..]);
      assert ps[0].core != "" ==> ([ps[0].core] + Cores(ps[1..]))[1..] == Cores(ps[1..]);
    }
  }

  lemma CoresNothing()
    ensures Cores([]) == []
  {
  }

  /** The numbers in front of the first piece that is no number. */
  function TakeCores(cores: seq<string>): (seq<int>, bool)
    decreases |cores|
  {
    if cores == [] then ([], true)
    else
      match Atoi(cores[0])
      case None => ([], false)
      case Some(v) => var (vs, ok) := TakeCores(cores[1..]); ([v] + vs, ok)
  }

  /** A list of numbers may be written with white space around them and with blank pieces: a flag takes
      the same numbers. */
  lemma SetSpaced(ps: seq<Piece>, vs: seq<int>)
    requires WellSpaced(ps) && AllInt64(vs) && Cores(ps) == Numerals(vs)
    ensures TakeInts(Written(ps)) == (vs, true)
  {
    SpaceIgnoredInts(ps);
    CoresAreNumbers(vs);
  }

  lemma {:induction false} CoresAreNumbers(vs: seq<int>)
    requires AllInt64(vs)
    ensures TakeCores(Numerals(vs)) == (vs, true)
    decreases |vs|
  {
    hide Itoa, Atoi;
    if vs != [] {
      AtoiItoa(vs[0]);
      CoresAreNumbers(vs[1..]);
      assert Numerals(vs)[1..] == Numerals(vs[1..]) && Numerals(vs)[0] == Itoa(vs[0]);
      assert [vs[0]] + vs[1..] == vs;
    }
  }

  // ------------------------------------------------------------------- lists, piece by piece

  lemma {:induction false} ParseableAppend(a: seq<string>, b: seq<string>)
    ensures Parseable(a + b) == Parseable(a) + Parseable(b)
    decreases |a|
  {
    hide Atoi;
    if a == [] {
      assert a + b == b;
    } else {
      assert (a + b)[1..] == a[1..] + b;
      ParseableAppend(a[1..], b);
    }
  }

  /** A piece of an environment list counts when it is a number, whatever the others are. */
  lemma PieceCounts(a: seq<string>, piece: string, b: seq<string>)
    ensures Parseable(a + [piece] + b) ==
      Parseable(a) + (if Atoi(piece).None? then [] else [Atoi(piece).value]) + Parseable(b)
  {
    hide Atoi;
    ParseableAppend(a + [piece], b);
    ParseableAppend(a, [piece]);
    assert [piece][1..] == [];
  }

  /** The values of a flag's occurrences come in their order. */
  lemma {:induction false} OccurrencesInOrder(a: seq<string>, b: seq<string>)
    ensures AllInts(a + b) ==
      if AllInts(a).None? || AllInts(b).None? then None else Some(AllInts(a).value + AllInts(b).value)
    decreases |a|
  {
    hide IntsOf;
    if a == [] {
      assert a + b == b;
      assert AllInts(b).Some? ==> [] + AllInts(b).value == AllInts(b).value;
    } else {
      assert (a + b)[1..] == a[1..] + b;
      OccurrencesInOrder(a[1..], b);
      if AllInts(a).Some? && AllInts(b).Some? {
        var x, y, z := IntsOf(a[0]).0, AllInts(a[1..]).value, AllInts(b).value;
        assert (x + y) + z == x + (y + z);
      }
    }
  }

  ghost predicate AllPlain(vs: seq<string>) {
    forall i | 0 <= i < |vs| :: vs[i] != "" && TrimSpace(vs[i]) == vs[i]
  }

  lemma {:induction false} NonBlankExactly(vs: seq<string>)
    ensures |NonBlank(vs)| <= |vs| && (NonBlank(vs) == vs <==> AllPlain(vs))
    decreases |vs|
  {
    hide TrimSpace;
    if vs != [] {
      var head, rest := TrimSpace(vs[0]), vs[1..];
      NonBlankExactly(rest);
      if AllPlain(vs) {
        assert AllPlain(rest);
        assert [vs[0]] + rest == vs;
      }
      if NonBlank(vs) == vs {
        NonBlankHead(vs);
        assert forall i | 0 < i < |vs| :: vs[i] == rest[i - 1];
      }
    }
  }

  lemma NonBlankHead(vs: seq<string>)
    requires vs != [] && NonBlank(vs) == vs && |NonBlank(vs[1..])| <= |vs| - 1
    ensures TrimSpace(vs[0]) == vs[0] != "" && NonBlank(vs[1..]) == vs[1..]
  {
    hide TrimSpace;
    var head := TrimSpace(vs[0]);
    if head != "" {
      assert ([head] + NonBlank(vs[1..]))[0] == head && ([head] + NonBlank(vs[1..]))[1..] == NonBlank(vs[1..]);
    }
  }

  /** A string-array flag given the printed form of a list without commas appends exactly that list if
      and only if it has one element, or none that is blank or has white space at its ends. */
  lemma StringSetPrintedExactly(vs: seq<string>)
    requires vs != [] && NoneHas(vs, ',')
    ensures StringsOf(Join(vs, ',')) == vs <==> |vs| == 1 || AllPlain(vs)
  {
    hide TrimSpace, NonBlank;
    if |vs| > 1 {
      CommaBetween(vs);
      SplitJoin(vs, ',');
      NonBlankExactly(vs);
    }
  }
}
