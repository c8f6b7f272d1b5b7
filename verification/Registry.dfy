/** The registry of endpoint profiles, built by any sequence of registrations. */
module Registry {
  import opened Wrappers
  import opened Strings
  import opened Endpoints
  import opened Jwt

  /** The registration functions. */
  datatype Op =
    | SetProfile(profile: Profile)
    | Public | SkipRateLimit | Admin | Unverified | DenyVerified | AllowExpiredJwt
    | ServiceClient(scopes: seq<string>)
    | UserOrService(scopes: seq<string>)

  /** One call: an operation, an endpoint, and the methods given, possibly none. */
  datatype Call = Call(op: Op, endpoint: string, methods: seq<string>)

  function UpperChar(c: char): char {
    if 'a' <= c <= 'z' then c - ('a' - 'A') else c
  }

  function ToUpper(s: string): (u: string)
    ensures |u| == |s|
  {
    if s == "" then "" else [UpperChar(s[0])] + ToUpper(s[1..])
  }

  /** The key of an endpoint under an upper-case method, or under none. */
  function KeyOf(endpoint: string, upper: string): string {
    if upper == "" then endpoint else upper + " " + endpoint
  }

  /** Methods a call names: none given means the method-less registration. */
  function MethodsOf(methods: seq<string>): seq<string> {
    if methods == [] then [""] else Uppers(methods)
  }

  function Uppers(methods: seq<string>): (u: seq<string>)
    ensures |u| == |methods|
    ensures forall i | 0 <= i < |u| :: u[i] == ToUpper(methods[i])
  {
    if methods == [] then [] else [ToUpper(methods[0])] + Uppers(methods[1..])
  }

  function ScopesOrAny(scopes: seq<string>): seq<string> {
    if scopes == [] then ["*"] else scopes
  }

  /** What an operation makes of a registered profile, or of the default one. */
  function Apply(op: Op, p: Profile): Profile {
    match op
    case SetProfile(profile) => profile
    case Public => p.(allowPublic := true)
    case SkipRateLimit => p.(skipRateLimit := true)
    case Admin => p.(requiresAdmin := true)
    case Unverified => p.(allowUnverified := true)
    case DenyVerified => p.(denyVerified := true)
    case AllowExpiredJwt => p.(allowExpiredJwt := true)
    case ServiceClient(scopes) => p.(allowService := true, allowedScopes := ScopesOrAny(scopes))
    case UserOrService(scopes) => p.(allowService := true, allowedScopes := ScopesOrAny(scopes), allowUser := true)
  }

  type Profiles = map<string, Profile>

  function Find(m: Profiles, key: string): Profile {
    if key in m then m[key] else DEFAULT_PROFILE
  }

  function RegisterOne(m: Profiles, op: Op, endpoint: string, upper: string): Profiles {
    var key := KeyOf(endpoint, upper);
    m[key := Apply(op, Find(m, key)).(httpMethod := upper)]
  }

  function RegisterAll(m: Profiles, op: Op, endpoint: string, uppers: seq<string>): Profiles
    decreases |uppers|
  {
    if uppers == [] then m else RegisterAll(RegisterOne(m, op, endpoint, uppers[0]), op, endpoint, uppers[1..])
  }

  function Lookup(m: Profiles, endpoint: string, method': string): Profile {
    var key := ToUpper(method') + " " + endpoint;
    if key in m then m[key] else Find(m, endpoint)
  }

  class EndpointRegistry {
    var profiles: Profiles

    constructor ()
      ensures profiles == map[]
    {
      profiles := map[];
    }

    /** Any of the registration functions: update a registered profile, or make a new one. */
    method Register(op: Op, endpoint: string, methods: seq<string>)
      modifies this
      ensures profiles == RegisterAll(old(profiles), op, endpoint, MethodsOf(methods))
    {
      hide ToUpper;
      var uppers := MethodsOf(methods);
      for i := 0 to |uppers|
        invariant RegisterAll(profiles, op, endpoint, uppers[i..]) == RegisterAll(old(profiles), op, endpoint, uppers)
      {
        assert uppers[i..][1..] == uppers[i + 1..];
        var key := KeyOf(endpoint, uppers[i]);
        if key in profiles {
          var p := Apply(op, profiles[key]);
          profiles := profiles[key := p.(httpMethod := uppers[i])];
        } else {
          profiles := profiles[key := Apply(op, DEFAULT_PROFILE).(httpMethod := uppers[i])];
        }
      }
      assert uppers[|uppers|..] == [];
    }

    method GetEndpointProfileForMethod(endpoint: string, method': string) returns (p: Profile)
      ensures p == Lookup(profiles, endpoint, method')
    {
      var methodEndpoint := ToUpper(method') + " " + endpoint;
      if methodEndpoint in profiles {
        return profiles[methodEndpoint];
      }
      if endpoint in profiles {
        return profiles[endpoint];
      }
      return DEFAULT_PROFILE;
    }
  }

  function Run(calls: seq<Call>): Profiles {
    if calls == [] then map[]
    else
      var last := calls[|calls| - 1];
      RegisterAll(Run(calls[..|calls| - 1]), last.op, last.endpoint, MethodsOf(last.methods))
  }

  // ----------------------------------------------------------------------- keys do not clash

  ghost predicate GoodEndpoint(endpoint: string) {
    endpoint != "" && endpoint[0] == '/'
  }

  /** A space that a path follows, as in a key. */
  ghost predicate CutAt(s: string, i: int) {
    0 <= i < |s| - 1 && s[i] == ' ' && s[i + 1] == '/'
  }

  /** A method name does not start like a path and holds no space that a path follows. */
  ghost predicate GoodMethod(upper: string) {
    (upper != "" ==> upper[0] != '/') && forall i :: !CutAt(upper, i)
  }

  /** A key is cut after its method, and not before. */
  lemma KeyCut(e: string, m: string, i: int)
    requires GoodEndpoint(e) && GoodMethod(m) && m != ""
    ensures CutAt(KeyOf(e, m), |m|) && (i < |m| ==> !CutAt(KeyOf(e, m), i))
  {
    var key := KeyOf(e, m);
    assert forall k | 0 <= k < |m| :: key[k] == m[k];
    assert !CutAt(m, i);
  }

  /** Keys of endpoints and good methods tell both. */
  lemma KeysDiffer(e1: string, m1: string, e2: string, m2: string)
    requires GoodEndpoint(e1) && GoodEndpoint(e2) && GoodMethod(m1) && GoodMethod(m2)
    ensures KeyOf(e1, m1) == KeyOf(e2, m2) <==> e1 == e2 && m1 == m2
  {
    var k1, k2 := KeyOf(e1, m1), KeyOf(e2, m2);
    if k1 == k2 {
      if m1 != "" && m2 != "" {
        KeyCut(e1, m1, |m2|);
        KeyCut(e2, m2, |m1|);
        assert k1[..|m1|] == m1 && k2[..|m2|] == m2;
        assert k1[|m1| + 1..] == e1 && k2[|m2| + 1..] == e2;
      } else {
        assert k1[0] == k2[0];
      }
    }
  }

  /** A method shares a key with some method-less registration if and only if it starts like a
      path. */
  lemma KeysClashExactly(m: string)
    requires m != ""
    ensures m[0] == '/' <==> exists e1, e2 :: GoodEndpoint(e1) && GoodEndpoint(e2) && KeyOf(e1, "") == KeyOf(e2, m)
  {
    if m[0] == '/' {
      var e1, e2 := m + " /", "/";
      assert GoodEndpoint(e1) && GoodEndpoint(e2) && KeyOf(e1, "") == KeyOf(e2, m);
    } else {
      forall e1, e2 | GoodEndpoint(e1) && GoodEndpoint(e2) ensures KeyOf(e1, "") != KeyOf(e2, m) {
        assert KeyOf(e2, m)[0] == m[0];
      }
    }
  }

  /** A registration for method `m` is seen by no lookup of an endpoint with another method. */
  ghost predicate KeptApart(m: string) {
    forall profiles, op, e, e2, m2 :: GoodEndpoint(e) && GoodEndpoint(e2) && GoodMethod(ToUpper(m2)) && ToUpper(m2) != m
      ==> Unseen(profiles, op, e, m, e2, m2)
  }

  ghost predicate Unseen(profiles: Profiles, op: Op, e: string, m: string, e2: string, m2: string) {
    Lookup(RegisterOne(profiles, op, e, m), e2, m2) == Lookup(profiles, e2, m2)
  }

  /** What a lookup asks for: with the empty method too it asks for a key with a space. */
  lemma AskedKeys(e: string, m: string, e2: string, upper: string)
    requires GoodEndpoint(e) && GoodEndpoint(e2) && GoodMethod(m) && GoodMethod(upper) && m != "" && upper != m
    ensures KeyOf(e, m) != e2 && KeyOf(e, m) != upper + " " + e2
  {
    KeyCut(e, m, 0);
    assert KeyOf(e, m)[0] == m[0];
    if upper == "" {
      assert CutAt("" + " " + e2, 0);
    } else {
      KeysDiffer(e, m, e2, upper);
    }
  }

  /** The first space of `m` that a path follows. */
  lemma {:induction false} FirstCut(m: string, i: int) returns (j: int)
    requires CutAt(m, i)
    ensures CutAt(m, j) && forall k | k < j :: !CutAt(m, k)
    decreases i
  {
    if k :| k < i && CutAt(m, k) {
      j := FirstCut(m, k);
    } else {
      j := i;
    }
  }

  lemma GetIsGood()
    ensures ToUpper("GET") == "GET" && GoodMethod("GET")
  {
    assert ToUpper("T") == "T" && ToUpper("ET") == "ET";
    assert forall i :: !CutAt("GET", i);
  }

  /** A lookup that finds the key of a registration sees it. */
  lemma KeyIsSeen(m: string, e2: string, m2: string)
    requires KeyOf("/", m) == ToUpper(m2) + " " + e2 || (KeyOf("/", m) == e2 && ToUpper(m2) + " " + e2 != e2)
    ensures !Unseen(map[], Public, "/", m, e2, m2)
  {
    hide ToUpper, KeyOf;
    assert Lookup(map[], e2, m2) == DEFAULT_PROFILE;
    assert Lookup(RegisterOne(map[], Public, "/", m), e2, m2).allowPublic;
  }

  /** A method that starts like a path is taken for an endpoint. */
  lemma PathIsSeen(m: string)
    requires m != "" && m[0] == '/'
    ensures !Unseen(map[], Public, "/", m, m + " /", "GET")
  {
    var e := m + " /";
    GetIsGood();
    assert KeyOf("/", m) == e;
    assert ("GET" + " " + e)[0] != e[0];
    KeyIsSeen(m, e, "GET");
  }

  lemma {:induction false} UpperPart(m: string, i: nat)
    requires ToUpper(m) == m && i <= |m|
    ensures ToUpper(m[..i]) == m[..i]
  {
    if i > 0 {
      assert m[..i][1..] == m[1..][..i - 1];
      UpperTail(m);
      UpperPart(m[1..], i - 1);
    }
  }

  lemma UpperTail(m: string)
    requires m != "" && ToUpper(m) == m
    ensures ToUpper(m[1..]) == m[1..] && UpperChar(m[0]) == m[0]
  {
    assert ToUpper(m)[0] == UpperChar(m[0]) && ToUpper(m)[1..] == ToUpper(m[1..]);
  }

  /** A method that is cut at `i` is taken for the part before the cut. */
  lemma CutIsSeen(m: string, i: int)
    requires ToUpper(m) == m && CutAt(m, i)
    ensures !Unseen(map[], Public, "/", m, m[i + 1..] + " /", m[..i])
  {
    hide ToUpper;
    UpperPart(m, i);
    assert m[..i] + " " + m[i + 1..] == m;
    assert m[..i] + " " + (m[i + 1..] + " /") == m + " /";
    KeyIsSeen(m, m[i + 1..] + " /", m[..i]);
  }

  /** The condition on methods is the exact one: registrations for an upper-case method are kept
      apart from all others if and only if it is good. */
  lemma KeptApartExactly(m: string)
    requires m != "" && ToUpper(m) == m
    ensures KeptApart(m) <==> GoodMethod(m)
  {
    hide ToUpper, Apply;
    if GoodMethod(m) {
      forall profiles, op, e, e2, m2
        | GoodEndpoint(e) && GoodEndpoint(e2) && GoodMethod(ToUpper(m2)) && ToUpper(m2) != m
        ensures Unseen(profiles, op, e, m, e2, m2)
      {
        AskedKeys(e, m, e2, ToUpper(m2));
      }
    } else if m[0] == '/' {
      PathIsSeen(m);
      GetIsGood();
      assert GoodEndpoint("/") && GoodEndpoint(m + " /");
    } else {
      var some :| CutAt(m, some);
      var i := FirstCut(m, some);
      CutIsSeen(m, i);
      UpperPart(m, i);
      assert forall k :: CutAt(m[..i], k) ==> CutAt(m, k) && k < i;
      assert GoodEndpoint("/") && GoodEndpoint(m[i + 1..] + " /") && GoodMethod(m[..i]);
    }
  }

  // ------------------------------------------------------------- what a lookup depends on

  ghost predicate GoodCall(c: Call) {
    GoodEndpoint(c.endpoint) && forall i | 0 <= i < |c.methods| :: GoodMethod(ToUpper(c.methods[i]))
  }

  ghost predicate GoodCalls(calls: seq<Call>) {
    forall i | 0 <= i < |calls| :: GoodCall(calls[i])
  }

  /** How often a list of methods names this one. */
  function Times(uppers: seq<string>, upper: string): nat {
    if uppers == [] then 0 else (if uppers[0] == upper then 1 else 0) + Times(uppers[1..], upper)
  }

  function Repeat(op: Op, n: nat): seq<Op> {
    if n == 0 then [] else [op] + Repeat(op, n - 1)
  }

  /** The operations that name the endpoint and the method, in the order of the calls. */
  function Naming(calls: seq<Call>, endpoint: string, upper: string): seq<Op> {
    if calls == [] then []
    else
      var last := calls[|calls| - 1];
      var n := if last.endpoint == endpoint then Times(MethodsOf(last.methods), upper) else 0;
      Naming(calls[..|calls| - 1], endpoint, upper) + Repeat(last.op, n)
  }

  function ApplyAll(ops: seq<Op>, p: Profile): Profile
    decreases |ops|
  {
    if ops == [] then p else ApplyAll(ops[1..], Apply(ops[0], p))
  }

  lemma {:induction false} ApplyAllAppend(a: seq<Op>, b: seq<Op>, p: Profile)
    ensures ApplyAll(a + b, p) == ApplyAll(b, ApplyAll(a, p))
    decreases |a|
  {
    hide Apply;
    if a == [] {
      assert a + b == b;
    } else {
      assert (a + b)[1..] == a[1..] + b;
      ApplyAllAppend(a[1..], b, Apply(a[0], p));
    }
  }

  /** A registered profile is the outcome of the operations that named it. */
  ghost predicate Holds(m: Profiles, endpoint: string, upper: string, ops: seq<Op>) {
    var key := KeyOf(endpoint, upper);
    (key in m <==> ops != []) &&
    (key in m ==> m[key] == ApplyAll(ops, DEFAULT_PROFILE).(httpMethod := upper))
  }

  predicate IsScopeOp(op: Op) {
    op.ServiceClient? || op.UserOrService?
  }

  /** What an operation that sets a flag does, told without cases. */
  lemma DeclareFlag(d: Profile, last: Op)
    requires !last.SetProfile? && !IsScopeOp(last)
    ensures Apply(last, d) == d.(
      allowPublic := d.allowPublic || last == Public,
      allowUnverified := d.allowUnverified || last == Unverified,
      denyVerified := d.denyVerified || last == DenyVerified,
      allowExpiredJwt := d.allowExpiredJwt || last == AllowExpiredJwt,
      requiresAdmin := d.requiresAdmin || last == Admin,
      skipRateLimit := d.skipRateLimit || last == SkipRateLimit)
  {
  }

  lemma ScopesMethodIrrelevant(p: Profile, scopes: seq<string>, upper: string)
    ensures var q := p.(httpMethod := upper);
            && Apply(ServiceClient(scopes), q) == Apply(ServiceClient(scopes), p).(httpMethod := upper)
            && Apply(UserOrService(scopes), q) == Apply(UserOrService(scopes), p).(httpMethod := upper)
  {
  }

  lemma FlagMethodIrrelevant(op: Op, p: Profile, upper: string)
    requires !op.SetProfile? && !IsScopeOp(op)
    ensures Apply(op, p.(httpMethod := upper)) == Apply(op, p).(httpMethod := upper)
  {
    hide Apply;
    DeclareFlag(p, op);
    DeclareFlag(p.(httpMethod := upper), op);
  }

  lemma SetMethodIrrelevant(profile: Profile, p: Profile, q: Profile)
    ensures Apply(SetProfile(profile), p) == Apply(SetProfile(profile), q)
  {
  }

  /** No operation looks at the stored method. */
  lemma MethodIrrelevant(op: Op, p: Profile, upper: string)
    ensures Apply(op, p.(httpMethod := upper)).(httpMethod := upper) == Apply(op, p).(httpMethod := upper)
  {
    hide Apply;
    if op.SetProfile? {
      SetMethodIrrelevant(op.profile, p, p.(httpMethod := upper));
    } else if IsScopeOp(op) {
      ScopesMethodIrrelevant(p, op.scopes, upper);
    } else {
      FlagMethodIrrelevant(op, p, upper);
    }
  }

  lemma RegisterOneHolds(m: Profiles, op: Op, e: string, u: string, endpoint: string, upper: string, ops: seq<Op>)
    requires Holds(m, endpoint, upper, ops)
    requires GoodEndpoint(e) && GoodEndpoint(endpoint) && GoodMethod(u) && GoodMethod(upper)
    ensures Holds(RegisterOne(m, op, e, u), endpoint, upper, if e == endpoint && u == upper then ops + [op] else ops)
  {
    hide Apply, KeyOf, ApplyAll;
    KeysDiffer(e, u, endpoint, upper);
    if e == endpoint && u == upper {
      ApplyAllAppend(ops, [op], DEFAULT_PROFILE);
      ApplyOne(op, ApplyAll(ops, DEFAULT_PROFILE));
      ApplyNone();
      MethodIrrelevant(op, ApplyAll(ops, DEFAULT_PROFILE), upper);
    }
  }

  lemma ApplyOne(op: Op, p: Profile)
    ensures ApplyAll([op], p) == Apply(op, p)
  {
    hide Apply;
    assert [op][1..] == [];
  }

  lemma ApplyNone()
    ensures ApplyAll([], DEFAULT_PROFILE) == DEFAULT_PROFILE
  {
  }

  lemma {:induction false} RegisterAllHolds(m: Profiles, op: Op, e: string, uppers: seq<string>,
                                            endpoint: string, upper: string, ops: seq<Op>)
    requires Holds(m, endpoint, upper, ops)
    requires GoodEndpoint(e) && GoodEndpoint(endpoint) && GoodMethod(upper)
    requires forall i | 0 <= i < |uppers| :: GoodMethod(uppers[i])
    ensures Holds(RegisterAll(m, op, e, uppers), endpoint, upper,
                  ops + Repeat(op, if e == endpoint then Times(uppers, upper) else 0))
    decreases |uppers|
  {
    hide Holds, RegisterOne;
    var n := if e == endpoint then Times(uppers, upper) else 0;
    if uppers == [] {
      assert ops + Repeat(op, n) == ops;
    } else {
      var hit := e == endpoint && uppers[0] == upper;
      var ops' := if hit then ops + [op] else ops;
      RegisterOneHolds(m, op, e, uppers[0], endpoint, upper, ops);
      RegisterAllHolds(RegisterOne(m, op, e, uppers[0]), op, e, uppers[1..], endpoint, upper, ops');
      if hit {
        assert ops + [op] + Repeat(op, n - 1) == ops + ([op] + Repeat(op, n - 1));
      }
    }
  }

  lemma {:induction false} RunHolds(calls: seq<Call>, endpoint: string, upper: string)
    requires GoodCalls(calls) && GoodEndpoint(endpoint) && GoodMethod(upper)
    ensures Holds(Run(calls), endpoint, upper, Naming(calls, endpoint, upper))
    decreases |calls|
  {
    hide RegisterAll, ToUpper, Apply;
    if calls != [] {
      var front, last := calls[..|calls| - 1], calls[|calls| - 1];
      RunHolds(front, endpoint, upper);
      assert GoodCall(last);
      var uppers := MethodsOf(last.methods);
      assert forall i | 0 <= i < |uppers| :: GoodMethod(uppers[i]);
      RegisterAllHolds(Run(front), last.op, last.endpoint, uppers, endpoint, upper, Naming(front, endpoint, upper));
    }
  }

  /** A lookup depends only on the calls that name the endpoint with this method, or, when there
      is none, on the method-less ones. */
  lemma {:induction false} LookupExactly(calls: seq<Call>, endpoint: string, method': string)
    requires GoodCalls(calls) && GoodEndpoint(endpoint) && GoodMethod(ToUpper(method'))
    ensures var own := Naming(calls, endpoint, ToUpper(method'));
            var general := Naming(calls, endpoint, "");
            Lookup(Run(calls), endpoint, method') ==
            if own != [] then ApplyAll(own, DEFAULT_PROFILE).(httpMethod := ToUpper(method'))
            else ApplyAll(general, DEFAULT_PROFILE).(httpMethod := "")
  {
    hide ToUpper, Apply, Run, Naming, ApplyAll;
    ApplyNone();
    RunHolds(calls, endpoint, ToUpper(method'));
    RunHolds(calls, endpoint, "");
    KeysStart(calls);
    assert CutAt("" + " " + endpoint, 0);
  }

  /** No registration makes a key that a lookup with the empty method asks for first. */
  ghost predicate NoSpaceKeys(m: Profiles) {
    forall k :: k in m ==> !CutAt(k, 0)
  }

  lemma {:induction false} RegisterAllStart(m: Profiles, op: Op, e: string, uppers: seq<string>)
    requires NoSpaceKeys(m) && GoodEndpoint(e) && forall i | 0 <= i < |uppers| :: GoodMethod(uppers[i])
    ensures NoSpaceKeys(RegisterAll(m, op, e, uppers))
    decreases |uppers|
  {
    hide Apply;
    if uppers != [] {
      var key := KeyOf(e, uppers[0]);
      assert key[0] == if uppers[0] == "" then e[0] else uppers[0][0];
      if uppers[0] != "" {
        KeyCut(e, uppers[0], 0);
      }
      RegisterAllStart(RegisterOne(m, op, e, uppers[0]), op, e, uppers[1..]);
    }
  }

  lemma {:induction false} KeysStart(calls: seq<Call>)
    requires GoodCalls(calls)
    ensures NoSpaceKeys(Run(calls))
    decreases |calls|
  {
    hide RegisterAll, ToUpper;
    if calls != [] {
      var front, last := calls[..|calls| - 1], calls[|calls| - 1];
      KeysStart(front);
      assert GoodCall(last);
      RegisterAllStart(Run(front), last.op, last.endpoint, MethodsOf(last.methods));
    }
  }

  // ---------------------------------------------------- what a sequence of operations means

  ghost predicate Occurs(op: Op, ops: seq<Op>) {
    op in ops
  }

  ghost predicate AnyScopeOp(ops: seq<Op>) {
    exists op :: op in ops && IsScopeOp(op)
  }

  ghost predicate AnyUserOp(ops: seq<Op>) {
    exists op :: op in ops && op.UserOrService?
  }

  /** The scopes of the last operation that registers any. */
  function LastScopes(ops: seq<Op>, default: seq<string>): seq<string> {
    if ops == [] then default
    else
      var last := ops[|ops| - 1];
      if IsScopeOp(last) then ScopesOrAny(last.scopes) else LastScopes(ops[..|ops| - 1], default)
  }

  /** The profile that operations other than SetProfile make of `p`, told without an order: each
      flag is set when its operation occurs, and the last scopes win. */
  ghost function Declared(ops: seq<Op>, p: Profile): Profile {
    Profile(
      p.httpMethod,
      p.allowPublic || Occurs(Public, ops),
      p.allowUnverified || Occurs(Unverified, ops),
      p.denyVerified || Occurs(DenyVerified, ops),
      p.allowExpiredJwt || Occurs(AllowExpiredJwt, ops),
      p.requiresAdmin || Occurs(Admin, ops),
      p.allowedAccountTypes,
      p.allowService || AnyScopeOp(ops),
      LastScopes(ops, p.allowedScopes),
      p.allowUser || AnyUserOp(ops),
      p.skipRateLimit || Occurs(SkipRateLimit, ops))
  }

  /** One more operation at the end, against the declared profile. */
  lemma DeclareStep(front: seq<Op>, last: Op, p: Profile)
    requires !last.SetProfile?
    ensures Apply(last, Declared(front, p)) == Declared(front + [last], p)
  {
    hide LastScopes, Occurs, AnyScopeOp, AnyUserOp;
    OccursAfter(front, last);
    LastScopesAfter(front, last, p.allowedScopes);
    if !IsScopeOp(last) {
      hide Apply;
      DeclareFlag(Declared(front, p), last);
    }
  }

  lemma OccursAfter(front: seq<Op>, last: Op)
    ensures forall op :: Occurs(op, front + [last]) <==> Occurs(op, front) || op == last
    ensures AnyScopeOp(front + [last]) <==> AnyScopeOp(front) || IsScopeOp(last)
    ensures AnyUserOp(front + [last]) <==> AnyUserOp(front) || last.UserOrService?
  {
  }

  lemma LastScopesAfter(front: seq<Op>, last: Op, default: seq<string>)
    ensures LastScopes(front + [last], default) ==
      if IsScopeOp(last) then ScopesOrAny(last.scopes) else LastScopes(front, default)
  {
    assert (front + [last])[..|front|] == front;
  }

  lemma {:induction false} OperationsDeclare(ops: seq<Op>, p: Profile)
    requires forall op | op in ops :: !op.SetProfile?
    ensures ApplyAll(ops, p) == Declared(ops, p)
    decreases |ops|
  {
    hide Apply;
    if ops == [] {
      DeclareNothing(p);
    } else {
      hide ApplyAll, Declared;
      var front, last := ops[..|ops| - 1], ops[|ops| - 1];
      assert ops == front + [last];
      OperationsDeclare(front, p);
      ApplyAllAppend(front, [last], p);
      ApplyOne(last, ApplyAll(front, p));
      DeclareStep(front, last, p);
    }
  }

  lemma DeclareNothing(p: Profile)
    ensures ApplyAll([], p) == Declared([], p) == p
  {
  }

  /** Flags can be set in any order and any number of times: only which ones occur, and the last
      scopes, matter. */
  lemma OrderOfFlagsIrrelevant(a: seq<Op>, b: seq<Op>, p: Profile)
    requires forall op | op in a :: !op.SetProfile?
    requires forall op :: op in a <==> op in b
    requires LastScopes(a, p.allowedScopes) == LastScopes(b, p.allowedScopes)
    ensures ApplyAll(a, p) == ApplyAll(b, p)
  {
    OperationsDeclare(a, p);
    OperationsDeclare(b, p);
  }

  // ------------------------------------------------------------------------ whole profiles

  /** The operations after the last SetProfile. */
  function AfterSet(ops: seq<Op>): seq<Op> {
    if ops == [] then []
    else if ops[|ops| - 1].SetProfile? then []
    else AfterSet(ops[..|ops| - 1]) + [ops[|ops| - 1]]
  }

  /** The profile of the last SetProfile, or the one before all operations. */
  function SetBase(ops: seq<Op>, p: Profile): Profile {
    if ops == [] then p
    else if ops[|ops| - 1].SetProfile? then ops[|ops| - 1].profile
    else SetBase(ops[..|ops| - 1], p)
  }

  lemma {:induction false} AfterSetHasNone(ops: seq<Op>)
    ensures forall op | op in AfterSet(ops) :: !op.SetProfile?
  {
    if ops != [] {
      AfterSetHasNone(ops[..|ops| - 1]);
    }
  }

  lemma SetReplaces(q: Profile, p: Profile)
    ensures Apply(SetProfile(q), p) == q
  {
  }

  /** For every list of operations: what is before the last SetProfile is forgotten, and what is after
      it is declared on top of its profile. */
  lemma {:induction false} OutcomeDeclared(ops: seq<Op>, p: Profile)
    ensures ApplyAll(ops, p) == Declared(AfterSet(ops), SetBase(ops, p))
    decreases |ops|
  {
    hide Apply, Declared;
    if ops == [] {
      DeclareNothing(p);
    } else {
      var front, last := ops[..|ops| - 1], ops[|ops| - 1];
      assert ops == front + [last];
      ApplyAllAppend(front, [last], p);
      ApplyOne(last, ApplyAll(front, p));
      if last.SetProfile? {
        SetReplaces(last.profile, ApplyAll(front, p));
        DeclareNothing(last.profile);
      } else {
        OutcomeDeclared(front, p);
        DeclareStep(AfterSet(front), last, SetBase(front, p));
      }
    }
  }

  /** After any sequence of calls, a lookup is the profile of the last SetEndpointProfile that named
      it, else the default one, with the flags and scopes registered since declared on top. */
  lemma LookupDeclared(calls: seq<Call>, endpoint: string, method': string)
    requires GoodCalls(calls) && GoodEndpoint(endpoint) && GoodMethod(ToUpper(method'))
    ensures var own := Naming(calls, endpoint, ToUpper(method'));
            var ops := if own != [] then own else Naming(calls, endpoint, "");
            Lookup(Run(calls), endpoint, method') ==
            Declared(AfterSet(ops), SetBase(ops, DEFAULT_PROFILE)).(
              httpMethod := if own != [] then ToUpper(method') else "")
  {
    hide ToUpper, Lookup, Run, Naming, ApplyAll, Declared, AfterSet, SetBase;
    LookupExactly(calls, endpoint, method');
    OutcomeDeclared(Naming(calls, endpoint, ToUpper(method')), DEFAULT_PROFILE);
    OutcomeDeclared(Naming(calls, endpoint, ""), DEFAULT_PROFILE);
  }

  /** A profile set for an endpoint is what a lookup of it finds, when nothing names it afterwards. */
  lemma SetIsFound(calls: seq<Call>, profile: Profile, endpoint: string, method': string)
    requires GoodCalls(calls) && GoodEndpoint(endpoint) && GoodMethod(ToUpper(method'))
    ensures Lookup(Run(calls + [Call(SetProfile(profile), endpoint, [method'])]), endpoint, method')
         == profile.(httpMethod := ToUpper(method'))
  {
    hide ToUpper, Apply, Lookup, Run;
    var last := Call(SetProfile(profile), endpoint, [method']);
    var all := calls + [last];
    assert all[..|all| - 1] == calls && all[|all| - 1] == last;
    assert forall i | 0 <= i < |all| :: GoodCall(all[i]);
    var upper := ToUpper(method');
    assert MethodsOf([method']) == [upper];
    assert [upper][1..] == [];
    assert Times(MethodsOf([method']), upper) == 1;
    assert Repeat(SetProfile(profile), 1) == [SetProfile(profile)];
    var ops := Naming(all, endpoint, upper);
    assert ops == Naming(calls, endpoint, upper) + [SetProfile(profile)];
    LookupDeclared(all, endpoint, method');
    assert AfterSet(ops) == [] && SetBase(ops, DEFAULT_PROFILE) == profile;
    DeclareNothing(profile);
  }

  // ------------------------------------------------------------------- which methods a call names

  lemma {:induction false} TimesPositive(uppers: seq<string>, upper: string)
    ensures Times(uppers, upper) > 0 <==> exists i :: 0 <= i < |uppers| && uppers[i] == upper
  {
    if uppers != [] {
      TimesPositive(uppers[1..], upper);
      assert forall i | 0 < i < |uppers| :: uppers[i] == uppers[1..][i - 1];
    }
  }

  /** A call names a method when it is given in any case, and the empty one also when none is given. */
  lemma CallNames(methods: seq<string>, upper: string)
    ensures Times(MethodsOf(methods), upper) > 0 <==>
      (methods == [] && upper == "") || exists i :: 0 <= i < |methods| && ToUpper(methods[i]) == upper
  {
    TimesPositive(MethodsOf(methods), upper);
    if methods != [] {
      assert forall i | 0 <= i < |methods| :: MethodsOf(methods)[i] == ToUpper(methods[i]);
    } else {
      assert MethodsOf(methods)[0] == "";
    }
  }

  lemma LetterUp(k: nat)
    requires k < 26
    ensures UpperChar(LOWER[k]) == UPPER[k]
  {
    LetterAt(k);
  }

  lemma OthersStay(c: char)
    ensures c !in LOWER ==> UpperChar(c) == c
  {
    if 'a' <= c <= 'z' {
      assert LOWER[(c - 'a') as int] == c;
    }
  }

  /** Each lower-case letter has its upper-case one; all else stays. */
  lemma UpperExactly(s: string, i: nat)
    requires i < |s|
    ensures forall k | 0 <= k < 26 :: s[i] == LOWER[k] ==> ToUpper(s)[i] == UPPER[k]
    ensures s[i] !in LOWER ==> ToUpper(s)[i] == s[i]
  {
    hide UpperChar, ToUpper;
    UpperEach(s, i);
    OthersStay(s[i]);
    forall k | 0 <= k < 26 && s[i] == LOWER[k] ensures ToUpper(s)[i] == UPPER[k] {
      LetterUp(k);
    }
  }

  lemma {:induction false} UpperEach(s: string, i: nat)
    requires i < |s|
    ensures ToUpper(s)[i] == UpperChar(s[i])
  {
    if i > 0 {
      UpperEach(s[1..], i - 1);
    }
  }

  lemma {:induction false} ScopesNeverEmpty(ops: seq<Op>, op: Op)
    requires op in ops && IsScopeOp(op)
    ensures LastScopes(ops, []) != []
  {
    if ops != [] && !IsScopeOp(ops[|ops| - 1]) {
      var front := ops[..|ops| - 1];
      assert ops == front + [ops[|ops| - 1]];
      ScopesNeverEmpty(front, op);
    }
  }

  lemma {:induction false} NamingOps(calls: seq<Call>, endpoint: string, upper: string, op: Op)
    requires op in Naming(calls, endpoint, upper)
    ensures exists i :: 0 <= i < |calls| && calls[i].op == op
    decreases |calls|
  {
    if calls != [] {
      var front, last := calls[..|calls| - 1], calls[|calls| - 1];
      var n := if last.endpoint == endpoint then Times(MethodsOf(last.methods), upper) else 0;
      RepeatOps(last.op, n);
      if op in Naming(front, endpoint, upper) {
        NamingOps(front, endpoint, upper, op);
        var i :| 0 <= i < |front| && front[i].op == op;
        assert calls[i].op == op;
      } else {
        assert calls[|calls| - 1].op == op;
      }
    }
  }

  lemma {:induction false} RepeatOps(op: Op, n: nat)
    ensures forall o | o in Repeat(op, n) :: o == op
  {
    if n > 0 {
      RepeatOps(op, n - 1);
    }
  }

  /** Without SetEndpointProfile every lookup that allows services has scopes to check, and they
      are those of the last registration of scopes. */
  lemma ServicesHaveScopes(calls: seq<Call>, endpoint: string, method': string)
    requires GoodCalls(calls) && GoodEndpoint(endpoint) && GoodMethod(ToUpper(method'))
    requires forall i | 0 <= i < |calls| :: !calls[i].op.SetProfile?
    ensures var p := Lookup(Run(calls), endpoint, method');
            var own := Naming(calls, endpoint, ToUpper(method'));
            var ops := if own != [] then own else Naming(calls, endpoint, "");
            (p.allowService ==> p.allowedScopes != []) && p.allowedScopes == LastScopes(ops, [])
  {
    hide ToUpper, Lookup, Run, Naming, ApplyAll, LastScopes;
    LookupExactly(calls, endpoint, method');
    var own := Naming(calls, endpoint, ToUpper(method'));
    var upper := if own != [] then ToUpper(method') else "";
    var ops := Naming(calls, endpoint, upper);
    forall op | op in ops ensures !op.SetProfile? {
      NamingOps(calls, endpoint, upper, op);
    }
    OperationsDeclare(ops, DEFAULT_PROFILE);
    if AnyScopeOp(ops) {
      var op :| op in ops && IsScopeOp(op);
      ScopesNeverEmpty(ops, op);
    }
  }

  /** What the scopes of a service registration mean: none given, or "*" among them, opens the endpoint
      to every service; else a service needs all of them. */
  lemma ScopesMean(scopes: seq<string>, p: Profile, claims: Claims)
    requires claims.swayRider.ServiceClaims?
    ensures var q := Apply(ServiceClient(scopes), p);
            ServiceAuthorized(q, claims) <==>
            scopes == [] || (exists i :: 0 <= i < |scopes| && scopes[i] == "*") ||
            (forall i :: 0 <= i < |scopes| ==> scopes[i] in claims.swayRider.scopes)
  {
    var allowed := ScopesOrAny(scopes);
    assert Apply(ServiceClient(scopes), p).allowedScopes == allowed;
    if scopes == [] {
      assert allowed[0] == "*";
    }
    assert forall i | 0 <= i < |scopes| :: scopes[i] in scopes;
  }

  /** An endpoint for which neither scopes nor a whole profile were registered is closed to services. */
  lemma ClosedToServices(calls: seq<Call>, endpoint: string, method': string, claims: Claims)
    requires GoodCalls(calls) && GoodEndpoint(endpoint) && GoodMethod(ToUpper(method'))
    requires claims.swayRider.ServiceClaims?
    requires forall i | 0 <= i < |calls| && calls[i].endpoint == endpoint ::
      !calls[i].op.SetProfile? && !IsScopeOp(calls[i].op)
    ensures !ServiceAuthorized(Lookup(Run(calls), endpoint, method'), claims)
  {
    hide ToUpper, Lookup, Run, Naming, ApplyAll, LastScopes, ServiceAuthorized;
    LookupExactly(calls, endpoint, method');
    var own := Naming(calls, endpoint, ToUpper(method'));
    var upper := if own != [] then ToUpper(method') else "";
    var ops := Naming(calls, endpoint, upper);
    forall op | op in ops ensures !op.SetProfile? && !IsScopeOp(op) {
      NamingOfEndpoint(calls, endpoint, upper, op);
    }
    OperationsDeclare(ops, DEFAULT_PROFILE);
    ServiceTable(Lookup(Run(calls), endpoint, method'), claims);
  }

  lemma {:induction false} NamingOfEndpoint(calls: seq<Call>, endpoint: string, upper: string, op: Op)
    requires op in Naming(calls, endpoint, upper)
    ensures exists i :: 0 <= i < |calls| && calls[i].endpoint == endpoint && calls[i].op == op
    decreases |calls|
  {
    if calls != [] {
      var front, last := calls[..|calls| - 1], calls[|calls| - 1];
      var n := if last.endpoint == endpoint then Times(MethodsOf(last.methods), upper) else 0;
      RepeatOps(last.op, n);
      if op in Naming(front, endpoint, upper) {
        NamingOfEndpoint(front, endpoint, upper, op);
        var i :| 0 <= i < |front| && front[i].endpoint == endpoint && front[i].op == op;
        assert calls[i].op == op;
      } else {
        assert n > 0 && calls[|calls| - 1].op == op;
      }
    }
  }
}
