/** Cache keys: cache/key.go. SHA-256 (in
    hexadecimal) is a parameter; what is assumed of it is stated where it is used. */
module Keys {
  import opened Text

  /** Go's int64. */
  type UnixSecond = n: int | -0x8000_0000_0000_0000 <= n < 0x8000_0000_0000_0000

  datatype Settings = Settings(uid: string, updatedUnix: UnixSecond)
  datatype User = User(login: string, email: string, name: string)
  datatype PluginContext =
    PluginContext(namespace: string, settings: Option<Settings>, user: Option<User>, proxyHash: string)

  /** Go's `Scope` is an int; every value but ScopeUser behaves like ScopeDatasource. */
  type Scope = int
  const SCOPE_USER: Scope := 0

  datatype KeyError = MissingSettings | MissingUID | MissingNamespace | MissingUser | MissingUserIdentity

  datatype Key = Key(prefix: string, body: string)

  datatype KeyInput = KeyInput(context: PluginContext, scope: Scope, cacheNamespace: string, parts: seq<string>)

  type Hash = string -> string

  function Raw(k: Key): string {
    k.prefix + "|" + k.body
  }

  // ----- numbers -----

  function Digits(n: nat): string {
    if n < 10 then [('0' as int + n) as char] else Digits(n / 10) + [('0' as int + n % 10) as char]
  }

  /** `strconv.FormatInt(n, 10)`. */
  function Decimal(n: int): string {
    if n < 0 then "-" + Digits(-n) else Digits(n)
  }

  ghost predicate IsDigit(c: char) {
    '0' <= c <= '9'
  }

  ghost function Value(s: string): int {
    if s == "" then 0 else Value(s[..|s| - 1]) * 10 + (s[|s| - 1] as int - '0' as int)
  }

  lemma {:induction false} DigitsSpellTheNumber(n: nat)
    ensures Value(Digits(n)) == n && Digits(n) != "" && forall i :: 0 <= i < |Digits(n)| ==> IsDigit(Digits(n)[i])
  {
    if n >= 10 {
      DigitsSpellTheNumber(n / 10);
      assert Digits(n)[..|Digits(n)| - 1] == Digits(n / 10);
    } else {
      assert Digits(n)[..0] == "";
    }
  }

  /** The sign and the magnitude can be read off. */
  lemma DecimalShows(n: int)
    ensures Decimal(n) != "" && '#' !in Decimal(n) && (Decimal(n)[0] == '-' <==> n < 0)
    ensures n == if n < 0 then -Value(Decimal(n)[1..]) else Value(Decimal(n))
  {
    hide Digits, Value;
    var digits := Digits(if n < 0 then -n else n);
    DigitsSpellTheNumber(if n < 0 then -n else n);
    assert n < 0 ==> Decimal(n)[1..] == digits;
    assert IsDigit(digits[0]);
    assert forall i :: 0 <= i < |digits| ==> digits[i] != '#';
  }

  lemma DecimalIsInjective(a: int, b: int)
    ensures Decimal(a) == Decimal(b) <==> a == b
    ensures '#' !in Decimal(a)
  {
    hide Decimal, Value;
    DecimalShows(a);
    DecimalShows(b);
  }

  // ----- hashing -----

  function Concat(parts: seq<string>): string {
    if parts == [] then "" else parts[0] + Concat(parts[1..])
  }

  /** What `hashParts` feeds to the hash: namespace and parts, back to back. */
  function HashInput(cacheNamespace: string, parts: seq<string>): string {
    cacheNamespace + Concat(parts)
  }

  lemma {:induction false} ConcatSnoc(parts: seq<string>, p: string)
    ensures Concat(parts + [p]) == Concat(parts) + p
  {
    if parts == [] {
      assert parts + [p] == [p] && [p][1..] == [];
      assert p + "" == p && "" + p == p;
    } else {
      assert (parts + [p])[1..] == parts[1..] + [p];
      ConcatSnoc(parts[1..], p);
    }
  }

  method HashParts(sha: Hash, cacheNamespace: string, parts: seq<string>) returns (digest: string)
    ensures digest == sha(HashInput(cacheNamespace, parts))
  {
    var written := cacheNamespace;
    assert cacheNamespace + "" == cacheNamespace;
    for i := 0 to |parts|
      invariant written == cacheNamespace + Concat(parts[..i])
    {
      assert parts[..i + 1] == parts[..i] + [parts[i]];
      ConcatSnoc(parts[..i], parts[i]);
      written := written + parts[i];
    }
    assert parts[..|parts|] == parts;
    digest := sha(written);
  }

  /** Sixty-four hexadecimal digits (section 6.2 of FIPS 180-4, written as `hex.EncodeToString` does). */
  ghost predicate IsHexDigest(d: string) {
    |d| == 64 && forall i :: 0 <= i < |d| ==> '0' <= d[i] <= '9' || 'a' <= d[i] <= 'f'
  }

  /** The hash tells these two inputs apart. */
  ghost predicate NoCollision(sha: Hash, a: string, b: string) {
    sha(a) == sha(b) ==> a == b
  }

  // ----- building the key -----

  function UserIdentity(u: User): Option<string> {
    if u.login != "" then Some(u.login)
    else if u.email != "" then Some(u.email)
    else if u.name != "" then Some(u.name)
    else None
  }

  function Problem(i: KeyInput): Option<KeyError> {
    if i.context.settings.None? then Some(MissingSettings)
    else if i.context.settings.value.uid == "" then Some(MissingUID)
    else if i.context.namespace == "" then Some(MissingNamespace)
    else if i.scope == SCOPE_USER && i.context.user.None? then Some(MissingUser)
    else if i.scope == SCOPE_USER && UserIdentity(i.context.user.value).None? then Some(MissingUserIdentity)
    else None
  }

  /** The identity a user-scoped key is for. */
  function Identity(i: KeyInput): string
    requires Problem(i).None? && i.scope == SCOPE_USER
  {
    UserIdentity(i.context.user.value).value
  }

  function BodyInput(i: KeyInput): string {
    HashInput(i.cacheNamespace, i.parts)
  }

  /** The fields that both scopes put into a key. */
  datatype Fields = Fields(namespace: string, uid: string, updated: UnixSecond, proxyHash: string)

  function FieldsOf(i: KeyInput): Fields
    requires Problem(i).None?
  {
    Fields(i.context.namespace, i.context.settings.value.uid, i.context.settings.value.updatedUnix, i.context.proxyHash)
  }

  function Front(f: Fields): string {
    "ns:" + f.namespace + "#dsuid:" + f.uid + "#u:" + Decimal(f.updated) + "#ph:" + f.proxyHash
  }

  function UserTail(sha: Hash, identity: string): string {
    "#usr:" + sha(HashInput("user", [identity]))
  }

  /** The user part of the prefix, the separator and the body. */
  function Ending(sha: Hash, i: KeyInput): string
    requires Problem(i).None?
  {
    (if i.scope == SCOPE_USER then UserTail(sha, Identity(i)) else "") + ("|" + sha(BodyInput(i)))
  }

  /** The key string, field by field. */
  function KeyText(sha: Hash, i: KeyInput): string
    requires Problem(i).None?
  {
    Front(FieldsOf(i)) + Ending(sha, i)
  }

  lemma RegroupKey(prefix: string, usr: string, body: string)
    ensures prefix + usr + "|" + body == prefix + (usr + ("|" + body))
  {
  }

  /** `KeyFromPluginContext`. */
  method KeyFromPluginContext(sha: Hash, i: KeyInput) returns (r: Result<Key, KeyError>)
    ensures Problem(i).Some? ==> r == Err(Problem(i).value)
    ensures Problem(i).None? ==> r.Ok? && Raw(r.value) == KeyText(sha, i) && r.value.body == sha(BodyInput(i))
  {
    var pc := i.context;
    if pc.settings.None? {
      return Err(MissingSettings);
    }
    if pc.settings.value.uid == "" {
      return Err(MissingUID);
    }
    if pc.namespace == "" {
      return Err(MissingNamespace);
    }
    if i.scope == SCOPE_USER && pc.user.None? {
      return Err(MissingUser);
    }
    var userID := "";
    if i.scope == SCOPE_USER {
      var identity := UserIdentity(pc.user.value);
      if identity.None? {
        return Err(MissingUserIdentity);
      }
      userID := identity.value;
    }
    var sb := "ns:" + pc.namespace + "#dsuid:" + pc.settings.value.uid;
    sb := sb + "#u:" + Decimal(pc.settings.value.updatedUnix) + "#ph:" + pc.proxyHash;
    var usr := "";
    if i.scope == SCOPE_USER {
      var digest := HashParts(sha, "user", [userID]);
      usr := "#usr:" + digest;
    }
    var body := HashParts(sha, i.cacheNamespace, i.parts);
    RegroupKey(sb, usr, body);
    return Ok(Key(sb + usr, body));
  }

  // ----- reading the fields off a key -----

  /** Texts of equal length at the end are determined by the whole. */
  lemma SplitFromEnd(x: string, a: string, y: string, b: string)
    requires |a| == |b|
    ensures x + a == y + b <==> x == y && a == b
  {
    if x + a == y + b {
      assert |x| == |y|;
      assert x == (x + a)[..|x|] && y == (y + b)[..|y|];
      assert a == (x + a)[|x|..] && b == (y + b)[|y|..];
    }
  }

  /** A label between two fields: its only hash sign is in front. */
  ghost predicate IsLabel(m: string) {
    |m| >= 2 && m[0] == '#' && forall i :: 1 <= i < |m| ==> m[i] != '#'
  }

  /** If the text can be split at two labels, the one further back lies entirely behind the other. */
  lemma LabelBehind(a: string, m: string, x: string, b: string, n: string, y: string) returns (z: string)
    requires a + (m + x) == b + (n + y) && IsLabel(m) && IsLabel(n)
    requires |a| < |b|
    ensures b == a + (m + z) && x == z + (n + y)
  {
    var whole := a + (m + x);
    assert whole[|b|] == n[0];
    assert forall i :: |a| < i < |a| + |m| ==> whole[i] == m[i - |a|];
    z := b[|a| + |m|..];
    assert b == whole[..|b|] && whole[..|a| + |m|] == a + m;
    assert x == whole[|a| + |m|..] && n + y == whole[|b|..];
  }

  /** Splits at the same place are at the same label. */
  lemma LabelsMeet(a: string, m: string, x: string, b: string, n: string, y: string)
    requires a + (m + x) == b + (n + y) && |a| == |b| && |m| >= 2 && |n| >= 2
    ensures a == b && m + x == n + y && m[1] == n[1]
  {
    SplitFromEnd(a, m + x, b, n + y);
    assert (m + x)[1] == m[1] && (n + y)[1] == n[1];
  }

  lemma FirstHash(d: string, x: string)
    requires '#' !in d && x != "" && x[0] == '#'
    ensures (d + x)[|d|] == '#' && forall i :: 0 <= i < |d| ==> (d + x)[i] != '#'
  {
    assert forall i :: 0 <= i < |d| ==> (d + x)[i] == d[i];
  }

  /** Behind a field without a hash sign, the second of two labels lies behind the first. */
  lemma LabelAfterPlain(d: string, m: string, x: string, b: string, n: string, y: string) returns (z: string)
    requires d + (m + x) == b + (n + y) && IsLabel(m) && IsLabel(n) && m[1] != n[1] && '#' !in d
    ensures b == d + (m + z) && x == z + (n + y)
  {
    FirstHash(d, m + x);
    assert (b + (n + y))[|b|] == n[0];
    if |b| == |d| {
      LabelsMeet(d, m, x, b, n, y);
    }
    z := LabelBehind(d, m, x, b, n, y);
  }

  lemma FrontNested(f: Fields)
    ensures Front(f) == "ns:" + (f.namespace + ("#dsuid:" + Rest(f)))
  {
    hide Decimal;
  }

  /** The front of a key behind the label of the datasource. */
  function Rest(f: Fields): string {
    f.uid + ("#u:" + Tail(f.updated, f.proxyHash))
  }

  function Tail(updated: UnixSecond, proxyHash: string): string {
    Decimal(updated) + ("#ph:" + proxyHash)
  }

  lemma TailIsInjective(d: UnixSecond, x: string, e: UnixSecond, y: string)
    ensures Tail(d, x) == Tail(e, y) <==> d == e && x == y
  {
    hide Decimal;
    DecimalIsInjective(d, e);
    DecimalIsInjective(e, d);
    if Tail(d, x) == Tail(e, y) {
      var a, b := Decimal(d), Decimal(e);
      FirstHash(a, "#ph:" + x);
      FirstHash(b, "#ph:" + y);
      SplitFromEnd(a, "#ph:" + x, b, "#ph:" + y);
      SamePrefix("#ph:", x, y);
    }
  }

  // ----- fields that another reading is possible for -----

  predicate Holds(s: string, p: nat, m: string) {
    p + |m| <= |s| && s[p..p + |m|] == m
  }

  /** What stands between a UID and a proxy hash. */
  function Middle(n: UnixSecond): string {
    "#u:" + (Decimal(n) + "#ph:")
  }

  ghost predicate SplitsNamespace(f: Fields) {
    exists p: nat :: 1 <= p && Holds(f.namespace, p, "#dsuid:")
  }

  ghost predicate UidExtendsNamespace(f: Fields) {
    exists p: nat :: Holds(f.uid, p, "#dsuid:") && p + |"#dsuid:"| < |f.uid|
  }

  ghost predicate SplitsUid(f: Fields) {
    exists p: nat, n: UnixSecond :: 1 <= p && Holds(f.uid, p, Middle(n))
  }

  ghost predicate ProxyHashExtendsUid(f: Fields) {
    exists p: nat, n: UnixSecond :: Holds(f.proxyHash, p, Middle(n))
  }

  /** A field holds the labels that would end it, or another one, elsewhere. */
  ghost predicate Ambiguous(f: Fields) {
    SplitsNamespace(f) || UidExtendsNamespace(f) || SplitsUid(f) || ProxyHashExtendsUid(f)
  }

  lemma HoldsBetween(a: string, m: string, z: string)
    ensures Holds(a + (m + z), |a|, m)
  {
  }

  lemma CutAt(s: string, p: nat, m: string) returns (a: string, z: string)
    requires Holds(s, p, m)
    ensures s == a + (m + z) && |a| == p
  {
    a, z := s[..p], s[p + |m|..];
  }

  lemma MiddleInProxyHash(f: Fields, a: string, d: UnixSecond, ph: string)
    requires f.proxyHash == a + ("#u:" + Tail(d, ph))
    ensures ProxyHashExtendsUid(f)
  {
    hide Decimal;
    assert "#u:" + Tail(d, ph) == Middle(d) + ph;
    HoldsBetween(a, Middle(d), ph);
  }

  lemma MiddleInUid(f: Fields, a: string, d: UnixSecond, z: string)
    requires f.uid == a + ("#u:" + Tail(d, z)) && a != ""
    ensures SplitsUid(f)
  {
    hide Decimal;
    assert "#u:" + Tail(d, z) == Middle(d) + z;
    HoldsBetween(a, Middle(d), z);
  }

  /** Two readings with namespaces of different length: both have a field of the ambiguous kind. */
  lemma NamespacesDiffer(f: Fields, g: Fields)
    requires f.namespace != "" && g.uid != "" && Front(f) == Front(g) && |f.namespace| < |g.namespace|
    ensures SplitsNamespace(g) && (UidExtendsNamespace(f) || ProxyHashExtendsUid(f))
  {
    hide Front, Rest, Tail, UidExtendsNamespace, ProxyHashExtendsUid, Holds;
    FrontNested(f);
    FrontNested(g);
    SamePrefix("ns:", f.namespace + ("#dsuid:" + Rest(f)), g.namespace + ("#dsuid:" + Rest(g)));
    var z := LabelBehind(f.namespace, "#dsuid:", Rest(f), g.namespace, "#dsuid:", Rest(g));
    HoldsBetween(f.namespace, "#dsuid:", z);
    assert Holds(g.namespace, |f.namespace|, "#dsuid:");
    LabelInRest(f, z, g);
  }

  /** Another reading has the label of the datasource somewhere in this one's rest. */
  lemma LabelInRest(f: Fields, z: string, g: Fields)
    requires Rest(f) == z + ("#dsuid:" + Rest(g)) && g.uid != ""
    ensures UidExtendsNamespace(f) || ProxyHashExtendsUid(f)
  {
    hide Tail, ProxyHashExtendsUid, Holds;
    var tail := Tail(f.updated, f.proxyHash);
    if |z| < |f.uid| {
      var w := LabelBehind(z, "#dsuid:", Rest(g), f.uid, "#u:", tail);
      if w == "" {
        assert "" + ("#u:" + tail) == g.uid + ("#u:" + Tail(g.updated, g.proxyHash));
        var y := LabelBehind("", "#u:", tail, g.uid, "#u:", Tail(g.updated, g.proxyHash));
        var y' := LabelInTail(f, y, "#u:", Tail(g.updated, g.proxyHash));
        MiddleInProxyHash(f, y', g.updated, g.proxyHash);
      } else {
        HoldsBetween(z, "#dsuid:", w);
        assert Holds(f.uid, |z|, "#dsuid:");
      }
    } else {
      if |z| == |f.uid| {
        LabelsMeet(z, "#dsuid:", Rest(g), f.uid, "#u:", tail);
      }
      var y := LabelBehind(f.uid, "#u:", tail, z, "#dsuid:", Rest(g));
      var y' := LabelInTail(f, y, "#dsuid:", Rest(g));
      assert f.proxyHash == (y' + ("#dsuid:" + g.uid)) + ("#u:" + Tail(g.updated, g.proxyHash));
      MiddleInProxyHash(f, y' + ("#dsuid:" + g.uid), g.updated, g.proxyHash);
    }
  }

  /** Behind the UID, another label can only be inside the proxy hash. */
  lemma LabelInTail(f: Fields, y: string, m: string, rest: string) returns (z: string)
    requires Tail(f.updated, f.proxyHash) == y + (m + rest) && IsLabel(m) && m[1] != 'p'
    ensures y == Tail(f.updated, z) && f.proxyHash == z + (m + rest)
  {
    hide Decimal;
    DecimalIsInjective(f.updated, f.updated);
    z := LabelAfterPlain(Decimal(f.updated), "#ph:", f.proxyHash, y, m, rest);
  }

  lemma UidsDiffer(f: Fields, g: Fields)
    requires f.uid != "" && Rest(f) == Rest(g) && |f.uid| < |g.uid|
    ensures SplitsUid(g) && ProxyHashExtendsUid(f)
  {
    hide Tail, SplitsUid, ProxyHashExtendsUid;
    var z := LabelBehind(f.uid, "#u:", Tail(f.updated, f.proxyHash), g.uid, "#u:", Tail(g.updated, g.proxyHash));
    var z' := LabelInTail(f, z, "#u:", Tail(g.updated, g.proxyHash));
    MiddleInUid(g, f.uid, f.updated, z');
    MiddleInProxyHash(f, z', g.updated, g.proxyHash);
  }

  ghost predicate Filled(f: Fields) {
    f.namespace != "" && f.uid != ""
  }

  /** If two different fillings of the fields read the same, each has an ambiguous field. */
  lemma ReadTheSame(f: Fields, g: Fields)
    requires Filled(f) && Filled(g) && Front(f) == Front(g)
    ensures f == g || (Ambiguous(f) && Ambiguous(g))
  {
    hide Front, Rest, Tail, SplitsNamespace, UidExtendsNamespace, SplitsUid, ProxyHashExtendsUid;
    if |f.namespace| < |g.namespace| {
      NamespacesDiffer(f, g);
    } else if |g.namespace| < |f.namespace| {
      NamespacesDiffer(g, f);
    } else {
      SameNamespaces(f, g);
      if |f.uid| < |g.uid| {
        UidsDiffer(f, g);
      } else if |g.uid| < |f.uid| {
        UidsDiffer(g, f);
      } else {
        SameUids(f, g);
      }
    }
  }

  lemma SameNamespaces(f: Fields, g: Fields)
    requires Front(f) == Front(g) && |f.namespace| == |g.namespace|
    ensures f.namespace == g.namespace && Rest(f) == Rest(g)
  {
    hide Front, Rest;
    FrontNested(f);
    FrontNested(g);
    SamePrefix("ns:", f.namespace + ("#dsuid:" + Rest(f)), g.namespace + ("#dsuid:" + Rest(g)));
    SplitFromEnd(f.namespace, "#dsuid:" + Rest(f), g.namespace, "#dsuid:" + Rest(g));
    SamePrefix("#dsuid:", Rest(f), Rest(g));
  }

  lemma SameUids(f: Fields, g: Fields)
    requires Rest(f) == Rest(g) && |f.uid| == |g.uid|
    ensures f.uid == g.uid && f.updated == g.updated && f.proxyHash == g.proxyHash
  {
    hide Tail;
    var x, y := Tail(f.updated, f.proxyHash), Tail(g.updated, g.proxyHash);
    SplitFromEnd(f.uid, "#u:" + x, g.uid, "#u:" + y);
    SamePrefix("#u:", x, y);
    TailIsInjective(f.updated, f.proxyHash, g.updated, g.proxyHash);
  }

  // ----- every ambiguous field has another reading -----

  lemma NamespaceTakesLabel(f: Fields, z: string, w: string)
    requires f.uid == z + ("#dsuid:" + w)
    ensures Front(f) == Front(f.(namespace := f.namespace + ("#dsuid:" + z), uid := w))
  {
    hide Tail, Front;
    var g := f.(namespace := f.namespace + ("#dsuid:" + z), uid := w);
    FrontNested(f);
    FrontNested(g);
    NestLabel(z, "#dsuid:", w, "#u:" + Tail(f.updated, f.proxyHash));
    NestLabel(f.namespace, "#dsuid:", z, "#dsuid:" + Rest(g));
  }

  lemma NestLabel(a: string, b: string, c: string, d: string)
    ensures a + (b + c) + d == a + (b + (c + d))
  {
  }

  lemma MoveLabelBack(f: Fields, p: nat) returns (g: Fields)
    requires 1 <= p && Holds(f.namespace, p, "#dsuid:") && f.uid != ""
    ensures Filled(g) && g != f && Front(g) == Front(f)
  {
    hide Front, Decimal;
    var a, z := CutAt(f.namespace, p, "#dsuid:");
    g := Fields(a, z + ("#dsuid:" + f.uid), f.updated, f.proxyHash);
    NamespaceTakesLabel(g, z, f.uid);
  }

  lemma MoveLabelOn(f: Fields, p: nat) returns (g: Fields)
    requires Holds(f.uid, p, "#dsuid:") && p + |"#dsuid:"| < |f.uid|
    ensures Filled(g) && g != f && Front(g) == Front(f)
  {
    hide Front, Decimal;
    var z, w := CutAt(f.uid, p, "#dsuid:");
    g := Fields(f.namespace + ("#dsuid:" + z), w, f.updated, f.proxyHash);
    NamespaceTakesLabel(f, z, w);
  }

  lemma MoveMiddleBack(f: Fields, p: nat, n: UnixSecond) returns (g: Fields)
    requires 1 <= p && Holds(f.uid, p, Middle(n)) && f.namespace != ""
    ensures Filled(g) && g != f && Front(g) == Front(f)
  {
    hide Decimal;
    var u, z := CutAt(f.uid, p, Middle(n));
    g := Fields(f.namespace, u, n, z + (Middle(f.updated) + f.proxyHash));
    assert Rest(f) == f.uid + (Middle(f.updated) + f.proxyHash);
    assert Rest(g) == u + (Middle(n) + g.proxyHash);
    assert u + (Middle(n) + (z + (Middle(f.updated) + f.proxyHash))) ==
           (u + (Middle(n) + z)) + (Middle(f.updated) + f.proxyHash);
    FrontNested(f);
    FrontNested(g);
  }

  lemma MoveMiddleOn(f: Fields, p: nat, n: UnixSecond) returns (g: Fields)
    requires Holds(f.proxyHash, p, Middle(n)) && f.namespace != ""
    ensures Filled(g) && g != f && Front(g) == Front(f)
  {
    hide Decimal;
    var y, q := CutAt(f.proxyHash, p, Middle(n));
    g := Fields(f.namespace, f.uid + (Middle(f.updated) + y), n, q);
    assert Rest(f) == f.uid + (Middle(f.updated) + f.proxyHash);
    assert Rest(g) == g.uid + (Middle(n) + q);
    assert f.uid + (Middle(f.updated) + (y + (Middle(n) + q))) == (f.uid + (Middle(f.updated) + y)) + (Middle(n) + q);
    FrontNested(f);
    FrontNested(g);
  }

  lemma AnotherReading(f: Fields) returns (g: Fields)
    requires Filled(f) && Ambiguous(f)
    ensures Filled(g) && g != f && Front(g) == Front(f)
  {
    hide Front, Holds, Middle;
    if SplitsNamespace(f) {
      var p: nat :| 1 <= p && Holds(f.namespace, p, "#dsuid:");
      g := MoveLabelBack(f, p);
    } else if UidExtendsNamespace(f) {
      var p: nat :| Holds(f.uid, p, "#dsuid:") && p + |"#dsuid:"| < |f.uid|;
      g := MoveLabelOn(f, p);
    } else if SplitsUid(f) {
      var p: nat, n: UnixSecond :| 1 <= p && Holds(f.uid, p, Middle(n));
      g := MoveMiddleBack(f, p, n);
    } else {
      var p: nat, n: UnixSecond :| Holds(f.proxyHash, p, Middle(n));
      g := MoveMiddleOn(f, p, n);
    }
  }

  // ----- what two equal keys imply -----

  /** Both keys name a user, or neither does. */
  ghost predicate SameKind(a: KeyInput, b: KeyInput) {
    a.scope == SCOPE_USER <==> b.scope == SCOPE_USER
  }

  ghost predicate SameUser(a: KeyInput, b: KeyInput)
    requires Problem(a).None? && Problem(b).None?
  {
    SameKind(a, b) && (a.scope == SCOPE_USER ==> Identity(a) == Identity(b))
  }

  ghost predicate GivesDigests(sha: Hash) {
    forall x :: IsHexDigest(sha(x))
  }

  ghost predicate TrustedHash(sha: Hash, a: KeyInput, b: KeyInput)
    requires Problem(a).None? && Problem(b).None?
  {
    && GivesDigests(sha)
    && NoCollision(sha, BodyInput(a), BodyInput(b))
    && (a.scope == SCOPE_USER && b.scope == SCOPE_USER ==>
          NoCollision(sha, HashInput("user", [Identity(a)]), HashInput("user", [Identity(b)])))
  }

  lemma ConcatOne(p: string)
    ensures Concat([p]) == p
  {
    assert [p][1..] == [];
    assert p + "" == p;
  }

  lemma UserInputIsInjective(x: string, y: string)
    ensures HashInput("user", [x]) == HashInput("user", [y]) <==> x == y
  {
    ConcatOne(x);
    ConcatOne(y);
    SamePrefix("user", x, y);
  }

  /** Keys of one kind end alike exactly when user and hashed content are the same. */
  lemma EndingsSeparate(sha: Hash, a: KeyInput, b: KeyInput)
    requires Problem(a).None? && Problem(b).None? && SameKind(a, b) && TrustedHash(sha, a, b)
    ensures Ending(sha, a) == Ending(sha, b) <==> SameUser(a, b) && BodyInput(a) == BodyInput(b)
  {
    hide HashInput, BodyInput, Problem, Identity;
    var ba, bb := sha(BodyInput(a)), sha(BodyInput(b));
    assert IsHexDigest(ba) && IsHexDigest(bb);
    var ua := if a.scope == SCOPE_USER then UserTail(sha, Identity(a)) else "";
    var ub := if b.scope == SCOPE_USER then UserTail(sha, Identity(b)) else "";
    SplitFromEnd(ua, "|" + ba, ub, "|" + bb);
    SamePrefix("|", ba, bb);
    if a.scope == SCOPE_USER {
      UserTailIsInjective(sha, Identity(a), Identity(b));
    }
  }

  lemma UserTailIsInjective(sha: Hash, x: string, y: string)
    requires NoCollision(sha, HashInput("user", [x]), HashInput("user", [y]))
    ensures UserTail(sha, x) == UserTail(sha, y) <==> x == y
  {
    UserInputIsInjective(x, y);
    SamePrefix("#usr:", sha(HashInput("user", [x])), sha(HashInput("user", [y])));
  }

  lemma SameLengthEndings(sha: Hash, a: KeyInput, b: KeyInput)
    requires Problem(a).None? && Problem(b).None? && SameKind(a, b) && GivesDigests(sha)
    ensures |Ending(sha, a)| == |Ending(sha, b)|
  {
    hide HashInput, BodyInput, Problem, Identity;
    assert IsHexDigest(sha(BodyInput(a))) && IsHexDigest(sha(BodyInput(b)));
    if a.scope == SCOPE_USER {
      UserTailLength(sha, Identity(a));
      UserTailLength(sha, Identity(b));
    }
  }

  lemma UserTailLength(sha: Hash, identity: string)
    requires GivesDigests(sha)
    ensures |UserTail(sha, identity)| == 69
    ensures IsLabel(UserTail(sha, identity)) && UserTail(sha, identity)[1] == 'u'
  {
    hide HashInput;
    var digest := sha(HashInput("user", [identity]));
    assert IsHexDigest(digest);
    assert forall i :: 5 <= i < 69 ==> UserTail(sha, identity)[i] == digest[i - 5];
  }

  /** Keys of one kind: equal exactly when the fields read the same and the ends agree. */
  lemma KeysOfOneKind(sha: Hash, a: KeyInput, b: KeyInput)
    requires Problem(a).None? && Problem(b).None? && SameKind(a, b) && GivesDigests(sha)
    ensures KeyText(sha, a) == KeyText(sha, b) <==>
            Front(FieldsOf(a)) == Front(FieldsOf(b)) && Ending(sha, a) == Ending(sha, b)
  {
    hide Ending, Front, FieldsOf, Problem;
    SameLengthEndings(sha, a, b);
    SplitFromEnd(Front(FieldsOf(a)), Ending(sha, a), Front(FieldsOf(b)), Ending(sha, b));
  }

  /** Another key input of the same kind, with other fields, that has the same key. */
  ghost predicate SharesKey(sha: Hash, i: KeyInput, j: KeyInput)
    requires Problem(i).None?
  {
    && Problem(j).None? && SameKind(i, j) && FieldsOf(i) != FieldsOf(j)
    && KeyText(sha, i) == KeyText(sha, j)
  }

  /** Exactly the ambiguous inputs share their key with an input of the same kind that differs in
      namespace, datasource, update second or proxy hash. */
  lemma KeyIsShared(sha: Hash, i: KeyInput)
    requires Problem(i).None? && GivesDigests(sha)
    ensures Ambiguous(FieldsOf(i)) <==> exists j :: SharesKey(sha, i, j)
  {
    hide Ambiguous, GivesDigests, Front, KeyText, Ending;
    if Ambiguous(FieldsOf(i)) {
      var j := SharingInput(sha, i);
    }
    if j :| SharesKey(sha, i, j) {
      KeysOfOneKind(sha, i, j);
      ReadTheSame(FieldsOf(i), FieldsOf(j));
    }
  }

  lemma SharingInput(sha: Hash, i: KeyInput) returns (j: KeyInput)
    requires Problem(i).None? && Ambiguous(FieldsOf(i))
    ensures SharesKey(sha, i, j) && j.parts == i.parts && j.cacheNamespace == i.cacheNamespace
    ensures j.scope == i.scope && j.context.user == i.context.user
  {
    hide Ambiguous, Front;
    var g := AnotherReading(FieldsOf(i));
    j := i.(context := PluginContext(g.namespace, Some(Settings(g.uid, g.updated)), i.context.user, g.proxyHash));
  }

  /** The proxy hash of this input reads like one followed by the user part of a key. */
  ghost predicate NamesUser(sha: Hash, i: KeyInput, identity: string) {
    && identity != "" && |UserTail(sha, identity)| <= |i.context.proxyHash|
    && i.context.proxyHash[|i.context.proxyHash| - |UserTail(sha, identity)|..] == UserTail(sha, identity)
  }

  /** A key without a user that equals a key with one: the user part is the end of the proxy hash. */
  lemma UserPartIsInProxyHash(sha: Hash, a: KeyInput, b: KeyInput)
    requires Problem(a).None? && Problem(b).None? && a.scope == SCOPE_USER && b.scope != SCOPE_USER && GivesDigests(sha)
    requires KeyText(sha, a) == KeyText(sha, b)
    ensures NamesUser(sha, b, Identity(a))
  {
    hide Problem, FieldsOf, Front, BodyInput, UserTail, Decimal;
    var tail, ba, bb := UserTail(sha, Identity(a)), sha(BodyInput(a)), sha(BodyInput(b));
    assert IsHexDigest(ba) && IsHexDigest(bb);
    var fa, fb := Front(FieldsOf(a)), Front(FieldsOf(b));
    assert fa + (tail + ("|" + ba)) == (fa + tail) + ("|" + ba);
    assert fb + ("" + ("|" + bb)) == fb + ("|" + bb);
    SplitFromEnd(fa + tail, "|" + ba, fb, "|" + bb);
    UserTailLength(sha, Identity(a));
    LastLabel(FieldsOf(b), fa, tail);
    IdentityIsFilled(a);
    assert FieldsOf(b).proxyHash == b.context.proxyHash by { ProxyHashField(b); }
  }

  lemma ProxyHashField(i: KeyInput)
    requires Problem(i).None?
    ensures FieldsOf(i).proxyHash == i.context.proxyHash
  {
  }

  lemma IdentityIsFilled(i: KeyInput)
    requires Problem(i).None? && i.scope == SCOPE_USER
    ensures Identity(i) != ""
  {
  }

  /** A label that ends the front of a key ends the proxy hash. */
  lemma LastLabel(f: Fields, start: string, m: string)
    requires Front(f) == start + m && IsLabel(m) && m[1] != 'p'
    ensures |m| <= |f.proxyHash| && f.proxyHash[|f.proxyHash| - |m|..] == m
  {
    hide Decimal;
    var before := "ns:" + f.namespace + "#dsuid:" + f.uid + "#u:" + Decimal(f.updated);
    assert Front(f) == before + ("#ph:" + f.proxyHash);
    assert start + m == start + (m + "");
    if |start| < |before| {
      var z := LabelBehind(start, m, "", before, "#ph:", f.proxyHash);
      assert false;
    } else if |start| == |before| {
      LabelsMeet(before, "#ph:", f.proxyHash, start, m, "");
      assert false;
    } else {
      var z := LabelBehind(before, "#ph:", f.proxyHash, start, m, "");
      assert f.proxyHash == z + m;
    }
  }

  /** A key without a user equals some key with a user exactly when its proxy hash ends in a user part. */
  lemma UserKeyIsShared(sha: Hash, b: KeyInput)
    requires Problem(b).None? && b.scope != SCOPE_USER && GivesDigests(sha)
    ensures (exists a :: Problem(a).None? && a.scope == SCOPE_USER && KeyText(sha, a) == KeyText(sha, b)) <==>
            exists identity :: NamesUser(sha, b, identity)
  {
    hide KeyText, Problem, GivesDigests, NamesUser, Identity;
    if identity :| NamesUser(sha, b, identity) {
      var a := UserTwin(sha, b, identity);
    }
    if a :| Problem(a).None? && a.scope == SCOPE_USER && KeyText(sha, a) == KeyText(sha, b) {
      UserPartIsInProxyHash(sha, a, b);
    }
  }

  lemma UserTwin(sha: Hash, b: KeyInput, identity: string) returns (a: KeyInput)
    requires Problem(b).None? && b.scope != SCOPE_USER && NamesUser(sha, b, identity)
    ensures Problem(a).None? && a.scope == SCOPE_USER && KeyText(sha, a) == KeyText(sha, b)
  {
    hide UserTail, Concat, Decimal;
    var tail := UserTail(sha, identity);
    var ph := b.context.proxyHash[..|b.context.proxyHash| - |tail|];
    assert b.context.proxyHash == ph + tail;
    a := b.(scope := SCOPE_USER, context := b.context.(user := Some(User(identity, "", "")), proxyHash := ph));
    UserPartMoves(FieldsOf(b), ph, tail, "|" + sha(BodyInput(b)));
  }

  lemma UserPartMoves(f: Fields, ph: string, tail: string, end: string)
    requires f.proxyHash == ph + tail
    ensures Front(f) + ("" + end) == Front(f.(proxyHash := ph)) + (tail + end)
  {
    hide Decimal;
  }

  /** Every key with a user is also the key of an input without one, for an odd proxy hash. */
  lemma UserlessTwin(sha: Hash, a: KeyInput) returns (b: KeyInput)
    requires Problem(a).None? && a.scope == SCOPE_USER
    ensures Problem(b).None? && b.scope != SCOPE_USER && KeyText(sha, a) == KeyText(sha, b)
    ensures b.context == a.context.(proxyHash := a.context.proxyHash + UserTail(sha, Identity(a)))
  {
    hide UserTail, Concat, Decimal;
    var tail := UserTail(sha, Identity(a));
    b := a.(scope := 1, context := a.context.(proxyHash := a.context.proxyHash + tail));
    UserPartMoves(FieldsOf(b), a.context.proxyHash, tail, "|" + sha(BodyInput(a)));
  }

  /** No proxy hash of a key without a user ends in the user part of the other key. */
  ghost predicate KindsApart(sha: Hash, a: KeyInput, b: KeyInput)
    requires Problem(a).None? && Problem(b).None?
  {
    && (a.scope == SCOPE_USER && b.scope != SCOPE_USER ==> !NamesUser(sha, b, Identity(a)))
    && (b.scope == SCOPE_USER && a.scope != SCOPE_USER ==> !NamesUser(sha, a, Identity(b)))
  }

  /** Two keys, the first of an unambiguous input, are equal exactly when they agree on namespace,
      datasource, update second, proxy hash, user identity (or both are not user-scoped) and hashed
      content, if SHA-256 tells the inputs at hand apart. */
  lemma EqualKeysSeparate(sha: Hash, a: KeyInput, b: KeyInput)
    requires Problem(a).None? && Problem(b).None? && TrustedHash(sha, a, b)
    requires !Ambiguous(FieldsOf(a)) && KindsApart(sha, a, b)
    ensures KeyText(sha, a) == KeyText(sha, b) <==>
            && a.context.namespace == b.context.namespace
            && a.context.settings == b.context.settings
            && a.context.proxyHash == b.context.proxyHash
            && SameUser(a, b)
            && BodyInput(a) == BodyInput(b)
  {
    hide Ambiguous, Front, Ending, KeyText, BodyInput, NamesUser, Identity, HashInput;
    if SameKind(a, b) {
      KeysOfOneKind(sha, a, b);
      EndingsSeparate(sha, a, b);
      if Front(FieldsOf(a)) == Front(FieldsOf(b)) {
        ReadTheSame(FieldsOf(a), FieldsOf(b));
      }
    } else if KeyText(sha, a) == KeyText(sha, b) {
      if a.scope == SCOPE_USER {
        UserPartIsInProxyHash(sha, a, b);
      } else {
        UserPartIsInProxyHash(sha, b, a);
      }
    }
  }

  /** The datasource label inside a UID can be read as the end of the namespace: whatever the scope,
      the user, the proxy hash and the content, these two datasources share every key. */
  lemma LabelInUidConfuses(sha: Hash, i: KeyInput, u1: string, u2: string)
    requires Problem(i).None? && i.context.settings.value.uid == u1 + ("#dsuid:" + u2) && u2 != ""
    ensures var j := i.(context := i.context.(namespace := i.context.namespace + ("#dsuid:" + u1),
                                              settings := Some(i.context.settings.value.(uid := u2))));
            Problem(j).None? && KeyText(sha, i) == KeyText(sha, j)
  {
    hide Front, Decimal, HashInput;
    NamespaceTakesLabel(FieldsOf(i), u1, u2);
  }

  /** Every key ends in the digest of its content, so keys that are equal in any way hash the same. */
  lemma SameKeySameBody(sha: Hash, a: KeyInput, b: KeyInput)
    requires Problem(a).None? && Problem(b).None? && TrustedHash(sha, a, b) && KeyText(sha, a) == KeyText(sha, b)
    ensures BodyInput(a) == BodyInput(b)
  {
    hide Front, FieldsOf, Problem, BodyInput, UserTail;
    var ba, bb := sha(BodyInput(a)), sha(BodyInput(b));
    assert IsHexDigest(ba) && IsHexDigest(bb);
    var fa := Front(FieldsOf(a)) + if a.scope == SCOPE_USER then UserTail(sha, Identity(a)) else "";
    var fb := Front(FieldsOf(b)) + if b.scope == SCOPE_USER then UserTail(sha, Identity(b)) else "";
    assert KeyText(sha, a) == fa + ("|" + ba) && KeyText(sha, b) == fb + ("|" + bb);
    SplitFromEnd(fa, "|" + ba, fb, "|" + bb);
    SamePrefix("|", ba, bb);
  }

  /** A label that a field holds is still there if the proxy hash goes on. */
  lemma AmbiguityGrows(f: Fields, more: string)
    requires Ambiguous(f)
    ensures Ambiguous(f.(proxyHash := f.proxyHash + more))
  {
    hide Middle, Holds;
    var g := f.(proxyHash := f.proxyHash + more);
    if ProxyHashExtendsUid(f) {
      var p: nat, n: UnixSecond :| Holds(f.proxyHash, p, Middle(n));
      HoldsOn(f.proxyHash, p, Middle(n), more);
    } else {
      assert SplitsNamespace(g) == SplitsNamespace(f) && SplitsUid(g) == SplitsUid(f);
      assert UidExtendsNamespace(g) == UidExtendsNamespace(f);
    }
  }

  lemma HoldsOn(s: string, p: nat, m: string, more: string)
    requires Holds(s, p, m)
    ensures Holds(s + more, p, m)
  {
    assert (s + more)[p..p + |m|] == s[p..p + |m|];
  }

  /** Equal keys, of whatever kinds, are for one namespace if the fields of one of them are unambiguous. */
  lemma SameKeySameNamespace(sha: Hash, a: KeyInput, b: KeyInput)
    requires Problem(a).None? && Problem(b).None? && GivesDigests(sha) && KeyText(sha, a) == KeyText(sha, b)
    requires !Ambiguous(FieldsOf(a)) || !Ambiguous(FieldsOf(b))
    ensures a.context.namespace == b.context.namespace
  {
    hide Front, KeyText, Ending, Ambiguous, GivesDigests;
    if SameKind(a, b) {
      KeysOfOneKind(sha, a, b);
      ReadTheSame(FieldsOf(a), FieldsOf(b));
    } else if a.scope == SCOPE_USER {
      KindsOfOneNamespace(sha, a, b);
    } else {
      KindsOfOneNamespace(sha, b, a);
    }
  }

  lemma KindsOfOneNamespace(sha: Hash, a: KeyInput, b: KeyInput)
    requires Problem(a).None? && Problem(b).None? && GivesDigests(sha) && KeyText(sha, a) == KeyText(sha, b)
    requires a.scope == SCOPE_USER && b.scope != SCOPE_USER
    ensures a.context.namespace == b.context.namespace || (Ambiguous(FieldsOf(a)) && Ambiguous(FieldsOf(b)))
  {
    hide Front, Ambiguous, UserTail, BodyInput, Identity;
    UserPartIsInProxyHash(sha, a, b);
    var tail, ba, bb := UserTail(sha, Identity(a)), sha(BodyInput(a)), sha(BodyInput(b));
    assert IsHexDigest(ba) && IsHexDigest(bb);
    var ph := b.context.proxyHash[..|b.context.proxyHash| - |tail|];
    assert b.context.proxyHash == ph + tail;
    var g := FieldsOf(b).(proxyHash := ph);
    UserPartMoves(FieldsOf(b), ph, tail, "|" + bb);
    SplitFromEnd(Front(FieldsOf(a)), tail + ("|" + ba), Front(g), tail + ("|" + bb));
    ReadTheSame(FieldsOf(a), g);
    if Ambiguous(g) {
      AmbiguityGrows(g, tail);
      assert g.(proxyHash := g.proxyHash + tail) == FieldsOf(b);
    }
  }

  // ----- errors and identities, field by field -----

  /** Which of the context's fields is reported missing; the earlier ones are there. */
  lemma ProblemsInOrder(i: KeyInput)
    ensures var pc, p := i.context, Problem(i);
            var named := pc.settings.Some? && pc.settings.value.uid != "";
            var placed := named && pc.namespace != "";
            && (p == Some(MissingSettings) <==> pc.settings.None?)
            && (p == Some(MissingUID) <==> pc.settings.Some? && pc.settings.value.uid == "")
            && (p == Some(MissingNamespace) <==> named && pc.namespace == "")
            && (p == Some(MissingUser) <==> placed && i.scope == 0 && pc.user.None?)
            && (p == Some(MissingUserIdentity) <==>
                  placed && i.scope == 0 && pc.user.Some? && pc.user.value == User("", "", ""))
  {
  }

  /** A user is identified by the login, without one by the email, without either by the name. */
  lemma IdentityIs(i: KeyInput, x: string)
    requires Problem(i).None? && i.scope == SCOPE_USER
    ensures var u := i.context.user.value;
            Identity(i) == x <==>
            x != "" && (u.login == x || (u.login == "" && (u.email == x || (u.email == "" && u.name == x))))
  {
  }

  /** Users with different logins never share a key, nor do users without logins but with different emails,
      nor users without either but with different names. */
  lemma UsersSeparate(sha: Hash, a: KeyInput, b: KeyInput)
    requires Problem(a).None? && Problem(b).None? && TrustedHash(sha, a, b)
    requires a.scope == SCOPE_USER && b.scope == SCOPE_USER
    requires var u, v := a.context.user.value, b.context.user.value;
             if u.login != "" || v.login != "" then u.login != "" && v.login != "" && u.login != v.login
             else if u.email != "" || v.email != "" then u.email != "" && v.email != "" && u.email != v.email
             else u.name != v.name
    ensures KeyText(sha, a) != KeyText(sha, b)
  {
    hide KeyText, Front, FieldsOf, Ending, BodyInput, HashInput, Problem;
    IdentitiesDiffer(a, b);
    KeysOfOneKind(sha, a, b);
    EndingsSeparate(sha, a, b);
  }

  lemma IdentitiesDiffer(a: KeyInput, b: KeyInput)
    requires Problem(a).None? && Problem(b).None? && a.scope == SCOPE_USER && b.scope == SCOPE_USER
    requires var u, v := a.context.user.value, b.context.user.value;
             if u.login != "" || v.login != "" then u.login != "" && v.login != "" && u.login != v.login
             else if u.email != "" || v.email != "" then u.email != "" && v.email != "" && u.email != v.email
             else u.name != v.name
    ensures Identity(a) != Identity(b)
  {
  }

  /** The login decides alone if there is one, otherwise the email if there is one. */
  lemma LessFieldsDoNotMatter(sha: Hash, i: KeyInput, other: User)
    requires Problem(i).None? && i.scope == SCOPE_USER
    requires var u := i.context.user.value;
             u.login == other.login && (u.login != "" || (u.email == other.email && u.email != ""))
    ensures var j := i.(context := i.context.(user := Some(other)));
            Problem(j).None? && KeyText(sha, i) == KeyText(sha, j)
  {
    hide Front, HashInput;
  }
}
