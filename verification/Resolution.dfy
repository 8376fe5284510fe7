/** Validation of a decoded reference against a schema (tables/tables.go, `Validate`), and what a
    reference accepted under a valid schema guarantees: its parameters can be resolved one by one. */
module Resolution {
  import opened Text
  import opened TableRefs
  import opened Schemas
  import opened Cycles
  import opened Validation

  datatype Issue =
    | NilSchema
    | UnknownTable(table: string)
    | UnknownParameter(key: string)
    | MissingRequired(name: string)
    | MissingDependency(key: string, dependency: string)

  /** The parameters present satisfy the table's declarations. */
  ghost predicate Accepts(ps: seq<TableParameter>, present: set<string>) {
    && (forall k :: k in present ==> k in ByName(ps))
    && (forall p :: p in ps && p.required ==> p.name in present)
    && (forall k, d :: k in present && k in ByName(ps) && d in ByName(ps)[k].dependsOn ==> d in present)
  }

  /** The issue is a true complaint about the parameters present. */
  ghost predicate Complains(ps: seq<TableParameter>, present: set<string>, issue: Issue) {
    match issue
    case UnknownParameter(k) => k in present && k !in ByName(ps)
    case MissingRequired(n) => n !in present && exists p :: p in ps && p.required && p.name == n
    case MissingDependency(k, d) => k in present && k in ByName(ps) && d in ByName(ps)[k].dependsOn && d !in present
    case _ => false
  }

  /** The first table of that name. */
  ghost predicate IsFirstNamed(tables: seq<Table>, name: string, i: int) {
    0 <= i < |tables| && tables[i].name == name && forall j :: 0 <= j < i ==> tables[j].name != name
  }

  lemma AcceptedIffNoComplaint(ps: seq<TableParameter>, present: set<string>)
    ensures Accepts(ps, present) <==> forall issue :: !Complains(ps, present, issue)
  {
    if forall issue :: !Complains(ps, present, issue) {
      forall k | k in present ensures k in ByName(ps) {
        assert !Complains(ps, present, UnknownParameter(k));
      }
      forall p | p in ps && p.required ensures p.name in present {
        assert !Complains(ps, present, MissingRequired(p.name));
      }
      forall k, d | k in present && k in ByName(ps) && d in ByName(ps)[k].dependsOn ensures d in present {
        assert !Complains(ps, present, MissingDependency(k, d));
      }
    }
  }

  // ----- the issues in the order they are listed -----

  ghost function UnknownIssues(keys: seq<string>, declared: map<string, TableParameter>): (errs: seq<Issue>)
    ensures forall e :: e in errs <==> e.UnknownParameter? && e.key in keys && e.key !in declared
  {
    if keys == [] then [] else
    var front, last := keys[..|keys| - 1], keys[|keys| - 1];
    assert keys == front + [last];
    UnknownIssues(front, declared) + if last !in declared then [UnknownParameter(last)] else []
  }

  ghost function RequiredIssues(ps: seq<TableParameter>, params: map<string, string>): (errs: seq<Issue>)
    ensures forall e :: e in errs <==>
              e.MissingRequired? && e.name !in params && exists p :: p in ps && p.required && p.name == e.name
  {
    if ps == [] then [] else
    var front, last := ps[..|ps| - 1], ps[|ps| - 1];
    assert ps == front + [last];
    RequiredIssues(front, params) + if last.required && last.name !in params then [MissingRequired(last.name)] else []
  }

  ghost function IssuesOf(key: string, dependsOn: seq<string>, params: map<string, string>): (errs: seq<Issue>)
    ensures forall e :: e in errs <==>
              e.MissingDependency? && e.key == key && e.dependency in dependsOn && e.dependency !in params
  {
    if dependsOn == [] then [] else
    var front, last := dependsOn[..|dependsOn| - 1], dependsOn[|dependsOn| - 1];
    assert dependsOn == front + [last];
    IssuesOf(key, front, params) + if last !in params then [MissingDependency(key, last)] else []
  }

  ghost function DependencyIssues(keys: seq<string>, declared: map<string, TableParameter>, params: map<string, string>)
    : (errs: seq<Issue>)
    ensures forall e :: e in errs <==>
              e.MissingDependency? && e.key in keys && e.key in declared &&
              e.dependency in declared[e.key].dependsOn && e.dependency !in params
  {
    if keys == [] then [] else
    var front, last := keys[..|keys| - 1], keys[|keys| - 1];
    assert keys == front + [last];
    DependencyIssues(front, declared, params) +
    if last in declared then IssuesOf(last, declared[last].dependsOn, params) else []
  }

  /** Unknown keys in key order; then missing required ones as declared; then missing dependencies by
      key, as declared. */
  ghost function Issues(ps: seq<TableParameter>, params: map<string, string>): seq<Issue> {
    var keys := SortedKeys(params.Keys);
    UnknownIssues(keys, ByName(ps)) + RequiredIssues(ps, params) + DependencyIssues(keys, ByName(ps), params)
  }

  /** The list holds every true complaint and nothing else. */
  lemma IssuesAreComplaints(ps: seq<TableParameter>, params: map<string, string>)
    ensures forall e :: e in Issues(ps, params) <==> Complains(ps, params.Keys, e)
    ensures Issues(ps, params) == [] <==> Accepts(ps, params.Keys)
  {
    hide ByName, Accepts;
    var keys, issues := SortedKeys(params.Keys), Issues(ps, params);
    SortedKeysHasAll(params.Keys);
    forall e ensures e in issues <==> Complains(ps, params.Keys, e) {
      assert e in issues <==> e in UnknownIssues(keys, ByName(ps)) || e in RequiredIssues(ps, params) ||
                              e in DependencyIssues(keys, ByName(ps), params);
    }
    AcceptedIffNoComplaint(ps, params.Keys);
    assert issues == [] <==> forall e :: e !in issues by {
      if issues != [] { assert issues[0] in issues; }
    }
  }

  // ----- what the order of the list means -----

  function Kind(e: Issue): nat {
    match e
    case UnknownParameter(_) => 1
    case MissingRequired(_) => 2
    case MissingDependency(_, _) => 3
    case _ => 0
  }

  /** The two names stand in this order. */
  ghost predicate StandsBefore(names: seq<string>, a: string, b: string) {
    exists i, j :: 0 <= i < j < |names| && names[i] == a && names[j] == b
  }

  ghost function NamesIn(ps: seq<TableParameter>): seq<string> {
    seq(|ps|, i requires 0 <= i < |ps| => ps[i].name)
  }

  /** Unknown keys come first, by key; then missing required parameters, as declared; then missing
      dependencies, by key and as listed. */
  ghost predicate Precedes(ps: seq<TableParameter>, a: Issue, b: Issue) {
    || Kind(a) < Kind(b)
    || (a.UnknownParameter? && b.UnknownParameter? && Less(a.key, b.key))
    || (a.MissingRequired? && b.MissingRequired? && StandsBefore(NamesIn(ps), a.name, b.name))
    || (a.MissingDependency? && b.MissingDependency? &&
        (Less(a.key, b.key) ||
         (a.key == b.key && a.key in ByName(ps) &&
          StandsBefore(ByName(ps)[a.key].dependsOn, a.dependency, b.dependency))))
  }

  ghost predicate InOrder(ps: seq<TableParameter>, errs: seq<Issue>) {
    forall i, j :: 0 <= i < j < |errs| ==> Precedes(ps, errs[i], errs[j])
  }

  lemma InOrderAppend(ps: seq<TableParameter>, a: seq<Issue>, b: seq<Issue>)
    requires InOrder(ps, a) && InOrder(ps, b)
    requires forall x, y :: x in a && y in b ==> Precedes(ps, x, y)
    ensures InOrder(ps, a + b)
  {
    hide Precedes;
    var all := a + b;
    forall i, j | 0 <= i < j < |all| ensures Precedes(ps, all[i], all[j]) {
      if j < |a| {
        assert all[i] == a[i] && all[j] == a[j];
      } else if i < |a| {
        assert all[i] in a && all[j] == b[j - |a|] && all[j] in b;
      } else {
        assert all[i] == b[i - |a|] && all[j] == b[j - |a|];
      }
    }
  }

  ghost predicate Ascending(keys: seq<string>) {
    forall i, j :: 0 <= i < j < |keys| ==> Less(keys[i], keys[j])
  }

  lemma SortedKeysAscend(m: map<string, string>)
    ensures Ascending(SortedKeys(m.Keys))
  {
    SortedKeysAreDistinct(m);
  }

  lemma {:induction false} UnknownInOrder(ps: seq<TableParameter>, keys: seq<string>)
    requires Ascending(keys)
    ensures InOrder(ps, UnknownIssues(keys, ByName(ps)))
  {
    hide ByName;
    if keys != [] {
      var front, last := keys[..|keys| - 1], keys[|keys| - 1];
      UnknownInOrder(ps, front);
      if last !in ByName(ps) {
        InOrderAppend(ps, UnknownIssues(front, ByName(ps)), [UnknownParameter(last)]);
      }
    }
  }

  lemma DeclaredBefore(ps: seq<TableParameter>, i: int, j: int)
    requires 0 <= i < j < |ps|
    ensures Precedes(ps, MissingRequired(ps[i].name), MissingRequired(ps[j].name))
  {
    assert NamesIn(ps)[i] == ps[i].name && NamesIn(ps)[j] == ps[j].name;
  }

  lemma ListedBefore(ps: seq<TableParameter>, key: string, i: int, j: int)
    requires key in ByName(ps) && 0 <= i < j < |ByName(ps)[key].dependsOn|
    ensures var d := ByName(ps)[key].dependsOn; Precedes(ps, MissingDependency(key, d[i]), MissingDependency(key, d[j]))
  {
    hide ByName;
  }

  lemma JustOne(ps: seq<TableParameter>, e: Issue)
    ensures InOrder(ps, [e]) && InOrder(ps, [])
  {
  }

  lemma RequiredSnoc(ps: seq<TableParameter>, n: nat, params: map<string, string>)
    requires 0 < n <= |ps|
    ensures var p := ps[n - 1];
            RequiredIssues(ps[..n], params) ==
            RequiredIssues(ps[..n - 1], params) +
            if p.required && p.name !in params then [MissingRequired(p.name)] else []
  {
    assert ps[..n][..n - 1] == ps[..n - 1];
  }

  ghost predicate AllPrecede(ps: seq<TableParameter>, errs: seq<Issue>, e: Issue) {
    forall x :: x in errs ==> Precedes(ps, x, e)
  }

  lemma RequiredBefore(ps: seq<TableParameter>, n: nat, params: map<string, string>)
    requires 0 < n <= |ps|
    ensures AllPrecede(ps, RequiredIssues(ps[..n - 1], params), MissingRequired(ps[n - 1].name))
  {
    hide Precedes;
    var last := MissingRequired(ps[n - 1].name);
    forall x | x in RequiredIssues(ps[..n - 1], params) ensures Precedes(ps, x, last) {
      var p :| p in ps[..n - 1] && p.required && p.name == x.name;
      var i :| 0 <= i < n - 1 && ps[..n - 1][i] == p;
      assert x == MissingRequired(ps[i].name);
      DeclaredBefore(ps, i, n - 1);
    }
  }

  lemma {:induction false} RequiredInOrder(ps: seq<TableParameter>, n: nat, params: map<string, string>)
    requires n <= |ps|
    ensures InOrder(ps, RequiredIssues(ps[..n], params))
  {
    hide Precedes, InOrder, RequiredIssues;
    if n == 0 {
      NothingRequired(ps, params);
    } else {
      RequiredSnoc(ps, n, params);
      RequiredInOrder(ps, n - 1, params);
      RequiredBefore(ps, n, params);
      JustOne(ps, MissingRequired(ps[n - 1].name));
      InOrderAppend(ps, RequiredIssues(ps[..n - 1], params),
                    if ps[n - 1].required && ps[n - 1].name !in params then [MissingRequired(ps[n - 1].name)] else []);
    }
  }

  lemma NothingRequired(ps: seq<TableParameter>, params: map<string, string>)
    ensures RequiredIssues(ps[..0], params) == [] && InOrder(ps, [])
  {
  }

  lemma IssuesOfSnoc(key: string, dependsOn: seq<string>, n: nat, params: map<string, string>)
    requires 0 < n <= |dependsOn|
    ensures IssuesOf(key, dependsOn[..n], params) ==
            IssuesOf(key, dependsOn[..n - 1], params) +
            if dependsOn[n - 1] !in params then [MissingDependency(key, dependsOn[n - 1])] else []
  {
    assert dependsOn[..n][..n - 1] == dependsOn[..n - 1];
  }

  lemma IssuesOfBefore(ps: seq<TableParameter>, key: string, n: nat, params: map<string, string>)
    requires key in ByName(ps) && 0 < n <= |ByName(ps)[key].dependsOn|
    ensures var d := ByName(ps)[key].dependsOn;
            AllPrecede(ps, IssuesOf(key, d[..n - 1], params), MissingDependency(key, d[n - 1]))
  {
    hide ByName, Precedes;
    var d := ByName(ps)[key].dependsOn;
    var earlier, last := IssuesOf(key, d[..n - 1], params), MissingDependency(key, d[n - 1]);
    forall x | x in earlier ensures Precedes(ps, x, last) {
      var i :| 0 <= i < n - 1 && d[..n - 1][i] == x.dependency;
      assert x == MissingDependency(key, d[i]);
      ListedBefore(ps, key, i, n - 1);
    }
  }

  lemma NothingListed(ps: seq<TableParameter>, key: string, dependsOn: seq<string>, params: map<string, string>)
    ensures IssuesOf(key, dependsOn[..0], params) == [] && InOrder(ps, [])
  {
  }

  lemma {:induction false} OneKeyInOrder(ps: seq<TableParameter>, key: string, n: nat, params: map<string, string>)
    requires key in ByName(ps) && n <= |ByName(ps)[key].dependsOn|
    ensures InOrder(ps, IssuesOf(key, ByName(ps)[key].dependsOn[..n], params))
  {
    hide ByName, Precedes, InOrder, IssuesOf;
    var d := ByName(ps)[key].dependsOn;
    if n == 0 {
      NothingListed(ps, key, d, params);
    } else {
      IssuesOfSnoc(key, d, n, params);
      OneKeyInOrder(ps, key, n - 1, params);
      IssuesOfBefore(ps, key, n, params);
      JustOne(ps, MissingDependency(key, d[n - 1]));
      InOrderAppend(ps, IssuesOf(key, d[..n - 1], params),
                    if d[n - 1] !in params then [MissingDependency(key, d[n - 1])] else []);
    }
  }

  lemma {:induction false} DependenciesInOrder(ps: seq<TableParameter>, keys: seq<string>, params: map<string, string>)
    requires Ascending(keys)
    ensures InOrder(ps, DependencyIssues(keys, ByName(ps), params))
  {
    hide ByName, IssuesOf;
    if keys != [] {
      var front, last := keys[..|keys| - 1], keys[|keys| - 1];
      DependenciesInOrder(ps, front, params);
      if last in ByName(ps) {
        var dependsOn := ByName(ps)[last].dependsOn;
        assert dependsOn[..|dependsOn|] == dependsOn;
        OneKeyInOrder(ps, last, |dependsOn|, params);
        InOrderAppend(ps, DependencyIssues(front, ByName(ps), params), IssuesOf(last, dependsOn, params));
      }
    }
  }

  lemma IssuesAreInOrder(ps: seq<TableParameter>, params: map<string, string>)
    ensures InOrder(ps, Issues(ps, params))
  {
    hide ByName, UnknownIssues, RequiredIssues, DependencyIssues, InOrder;
    var keys := SortedKeys(params.Keys);
    SortedKeysAscend(params);
    UnknownInOrder(ps, keys);
    RequiredInOrder(ps, |ps|, params);
    assert ps[..|ps|] == ps;
    DependenciesInOrder(ps, keys, params);
    var unknown, missing, broken := UnknownIssues(keys, ByName(ps)), RequiredIssues(ps, params),
                                    DependencyIssues(keys, ByName(ps), params);
    InOrderAppend(ps, unknown, missing);
    InOrderAppend(ps, unknown + missing, broken);
  }

  // ----- how often an issue is listed -----

  /** How many required parameters of the name are declared. */
  ghost function RequiredOf(ps: seq<TableParameter>, name: string): nat {
    |set i | 0 <= i < |ps| && ps[i].required && ps[i].name == name|
  }

  /** How often the parameter lists the dependency. */
  ghost function ListedBy(ps: seq<TableParameter>, key: string, d: string): nat
    requires key in ByName(ps)
  {
    multiset(ByName(ps)[key].dependsOn)[d]
  }

  /** An unknown key is reported once, a missing required parameter once for each of its declarations, a
      missing dependency as often as it is listed. */
  ghost function Times(ps: seq<TableParameter>, e: Issue): nat {
    match e
    case UnknownParameter(_) => 1
    case MissingRequired(name) => RequiredOf(ps, name)
    case MissingDependency(key, d) => if key in ByName(ps) then ListedBy(ps, key, d) else 0
    case _ => 0
  }

  lemma {:induction false} CountUnknown(keys: seq<string>, declared: map<string, TableParameter>, key: string)
    requires Ascending(keys) && key in keys && key !in declared
    ensures multiset(UnknownIssues(keys, declared))[UnknownParameter(key)] == 1
  {
    var front, last := keys[..|keys| - 1], keys[|keys| - 1];
    assert keys == front + [last];
    LessIsTotal(key, key);
    if key == last {
      assert key !in front;
      assert UnknownParameter(key) !in UnknownIssues(front, declared);
    } else {
      CountUnknown(front, declared, key);
    }
  }

  lemma RequiredOfSnoc(ps: seq<TableParameter>, name: string)
    ensures RequiredOf(ps, name) ==
            if ps == [] then 0 else
            var last := ps[|ps| - 1];
            RequiredOf(ps[..|ps| - 1], name) + if last.required && last.name == name then 1 else 0
  {
    var now := set i | 0 <= i < |ps| && ps[i].required && ps[i].name == name;
    if ps == [] {
      assert now == {};
    } else {
      var n := |ps| - 1;
      var front := ps[..n];
      var before := set i | 0 <= i < |front| && front[i].required && front[i].name == name;
      assert now == if ps[n].required && ps[n].name == name then before + {n} else before;
    }
  }

  lemma {:induction false} CountRequired(ps: seq<TableParameter>, params: map<string, string>, name: string)
    requires name !in params
    ensures multiset(RequiredIssues(ps, params))[MissingRequired(name)] == RequiredOf(ps, name)
  {
    hide RequiredOf;
    RequiredOfSnoc(ps, name);
    if ps != [] {
      CountRequired(ps[..|ps| - 1], params, name);
    }
  }

  lemma {:induction false} CountOfKey(key: string, dependsOn: seq<string>, params: map<string, string>, d: string)
    requires d !in params
    ensures multiset(IssuesOf(key, dependsOn, params))[MissingDependency(key, d)] == multiset(dependsOn)[d]
  {
    if dependsOn != [] {
      var front, last := dependsOn[..|dependsOn| - 1], dependsOn[|dependsOn| - 1];
      assert dependsOn == front + [last];
      CountOfKey(key, front, params, d);
    }
  }

  lemma {:induction false} CountDependency(keys: seq<string>, declared: map<string, TableParameter>,
                                           params: map<string, string>, key: string, d: string)
    requires Ascending(keys) && key in keys && key in declared && d !in params
    ensures multiset(DependencyIssues(keys, declared, params))[MissingDependency(key, d)] ==
            multiset(declared[key].dependsOn)[d]
  {
    var front, last := keys[..|keys| - 1], keys[|keys| - 1];
    assert keys == front + [last];
    LessIsTotal(key, key);
    if key == last {
      assert key !in front;
      assert MissingDependency(key, d) !in DependencyIssues(front, declared, params);
      CountOfKey(key, declared[key].dependsOn, params, d);
    } else {
      CountDependency(front, declared, params, key, d);
      assert last in declared ==> MissingDependency(key, d) !in IssuesOf(last, declared[last].dependsOn, params);
    }
  }

  /** Every complaint is listed as often as the declarations say. */
  lemma IssuesAreCounted(ps: seq<TableParameter>, params: map<string, string>, e: Issue)
    requires Complains(ps, params.Keys, e)
    ensures multiset(Issues(ps, params))[e] == Times(ps, e)
  {
    hide ByName, RequiredOf, UnknownIssues, RequiredIssues, DependencyIssues, IssuesOf;
    var keys := SortedKeys(params.Keys);
    SortedKeysHasAll(params.Keys);
    SortedKeysAscend(params);
    match e {
      case UnknownParameter(key) => CountUnknown(keys, ByName(ps), key);
      case MissingRequired(name) => CountRequired(ps, params, name);
      case MissingDependency(key, d) => CountDependency(keys, ByName(ps), params, key, d);
    }
    var unknown, missing, broken := UnknownIssues(keys, ByName(ps)), RequiredIssues(ps, params),
                                    DependencyIssues(keys, ByName(ps), params);
    assert multiset(unknown)[e] > 0 <==> e in unknown;
    assert multiset(missing)[e] > 0 <==> e in missing;
    assert multiset(broken)[e] > 0 <==> e in broken;
  }

  // ----- the loops of `Validate` -----

  method CheckUnknown(keys: seq<string>, declared: map<string, TableParameter>) returns (errs: seq<Issue>)
    ensures errs == UnknownIssues(keys, declared)
  {
    errs := [];
    for i := 0 to |keys|
      invariant errs == UnknownIssues(keys[..i], declared)
    {
      assert keys[..i + 1][..i] == keys[..i];
      if keys[i] !in declared {
        errs := errs + [UnknownParameter(keys[i])];
      }
    }
    assert keys[..|keys|] == keys;
  }

  method CheckRequired(ps: seq<TableParameter>, params: map<string, string>) returns (errs: seq<Issue>)
    ensures errs == RequiredIssues(ps, params)
  {
    hide RequiredIssues;
    errs := [];
    NothingRequired(ps, params);
    for i := 0 to |ps|
      invariant errs == RequiredIssues(ps[..i], params)
    {
      RequiredSnoc(ps, i + 1, params);
      if ps[i].required {
        if ps[i].name !in params {
          errs := errs + [MissingRequired(ps[i].name)];
        }
      }
    }
    assert ps[..|ps|] == ps;
  }

  method CheckDependencies(keys: seq<string>, declared: map<string, TableParameter>, params: map<string, string>)
    returns (errs: seq<Issue>)
    ensures errs == DependencyIssues(keys, declared, params)
  {
    errs := [];
    for i := 0 to |keys|
      invariant errs == DependencyIssues(keys[..i], declared, params)
    {
      assert keys[..i + 1][..i] == keys[..i];
      if keys[i] !in declared {
        continue;
      }
      var missing := MissingOf(keys[i], declared[keys[i]].dependsOn, params);
      errs := errs + missing;
    }
    assert keys[..|keys|] == keys;
  }

  method MissingOf(key: string, dependsOn: seq<string>, params: map<string, string>) returns (errs: seq<Issue>)
    ensures errs == IssuesOf(key, dependsOn, params)
  {
    errs := [];
    for i := 0 to |dependsOn|
      invariant errs == IssuesOf(key, dependsOn[..i], params)
    {
      assert dependsOn[..i + 1][..i] == dependsOn[..i];
      if dependsOn[i] !in params {
        errs := errs + [MissingDependency(key, dependsOn[i])];
      }
    }
    assert dependsOn[..|dependsOn|] == dependsOn;
  }

  /** `Validate` lists every complaint and nothing else, in one order whatever order the maps are
      iterated in; a missing table hides the rest. */
  method Validate(ref: TableRef, schema: Option<Schema>) returns (errs: seq<Issue>)
    ensures schema.None? ==> errs == [NilSchema]
    ensures schema.Some? && (forall t :: t in schema.value.tables ==> t.name != ref.table) ==>
              errs == [UnknownTable(ref.table)]
    ensures schema.Some? ==>
              forall i :: IsFirstNamed(schema.value.tables, ref.table, i) ==>
                var ps := schema.value.tables[i].parameters;
                && errs == Issues(ps, ref.params)
                && (forall e :: e in errs <==> Complains(ps, ref.params.Keys, e))
                && (errs == [] <==> Accepts(ps, ref.params.Keys))
  {
    hide Issues, Complains, Accepts;
    if schema.None? {
      return [NilSchema];
    }
    var tables := schema.value.tables;
    var i := 0;
    while i < |tables| && tables[i].name != ref.table
      invariant i <= |tables| && forall j :: 0 <= j < i ==> tables[j].name != ref.table
    {
      i := i + 1;
    }
    if i == |tables| {
      return [UnknownTable(ref.table)];
    }
    var ps := tables[i].parameters;
    assert tables[i] in tables && IsFirstNamed(tables, ref.table, i);
    errs := ValidateParameters(ps, ref.params);
    IssuesAreComplaints(ps, ref.params);
  }

  method ValidateParameters(ps: seq<TableParameter>, params: map<string, string>) returns (errs: seq<Issue>)
    ensures errs == Issues(ps, params)
  {
    hide ByName, UnknownIssues, RequiredIssues, DependencyIssues;
    var declared := IndexByName(ps);
    var listed := ListKeys(params);
    var presentKeys := Sort(listed);
    SortedIsUnique(presentKeys, SortedKeys(params.Keys));
    var unknown := CheckUnknown(presentKeys, declared);
    var missing := CheckRequired(ps, params);
    var broken := CheckDependencies(presentKeys, declared, params);
    errs := unknown + missing + broken;
  }

  // ----- resolvability -----

  ghost function Names(s: seq<string>): set<string> {
    set n | n in s
  }

  lemma NamesGrow(s: seq<string>, name: string)
    ensures Names(s + [name]) == Names(s) + {name}
  {
  }

  /** Some unlisted name has all its dependencies listed: follow unlisted dependencies until none is
      left, which ends because a repetition would be a cycle. */
  lemma SomeNameIsReady(g: Graph, order: seq<string>, walk: seq<string>) returns (ready: string)
    requires Closed(g) && Acyclic(g) && IsWalk(g, walk)
    requires forall n :: n in walk ==> n !in order
    ensures ready in g && ready !in order && forall d :: d in g[ready] ==> d in order
    decreases g.Keys - Names(walk)
  {
    ready := walk[|walk| - 1];
    if d :| d in g[ready] && d !in order {
      if d in walk {
        BackEdgeIsACycle(g, walk, d);
        assert false;
      } else {
        NamesGrow(walk, d);
        ready := SomeNameIsReady(g, order, walk + [d]);
      }
    }
  }

  lemma {:induction false} OrderCompletes(g: Graph, order: seq<string>) returns (full: seq<string>)
    requires Closed(g) && Acyclic(g) && InDependencyOrder(g, order)
    ensures IsTopologicalOrder(g, full)
    decreases g.Keys - Names(order)
  {
    if n :| n in g && n !in order {
      var ready := SomeNameIsReady(g, order, [n]);
      OrderGrows(g, order, ready);
      NamesGrow(order, ready);
      full := OrderCompletes(g, order + [ready]);
    } else {
      full := order;
    }
  }

  /** A closed graph is acyclic exactly when it has a topological order. */
  lemma AcyclicIffOrdered(g: Graph)
    requires Closed(g)
    ensures Acyclic(g) <==> exists order :: IsTopologicalOrder(g, order)
  {
    if Acyclic(g) {
      var full := OrderCompletes(g, []);
    }
    if order :| IsTopologicalOrder(g, order) {
      OrderedIsAcyclic(g, order);
    }
  }

  /** The selected names of an order, in that order. */
  lemma {:induction false} SelectInOrder(g: Graph, order: seq<string>, selected: set<string>)
    returns (listing: seq<string>)
    requires InDependencyOrder(g, order)
    requires forall n :: n in selected ==> n in order
    requires forall n, d :: n in selected && n in g && d in g[n] ==> d in selected
    ensures InDependencyOrder(g, listing) && forall n :: n in listing <==> n in selected
  {
    if order == [] {
      listing := [];
    } else {
      var front, last := order[..|order| - 1], order[|order| - 1];
      assert order == front + [last];
      FrontKeepsOrder(g, front, last);
      listing := SelectInOrder(g, front, selected - {last});
      if last in selected {
        OrderGrows(g, listing, last);
        listing := listing + [last];
      }
    }
  }

  lemma FrontKeepsOrder(g: Graph, front: seq<string>, last: string)
    requires InDependencyOrder(g, front + [last])
    ensures InDependencyOrder(g, front) && last in g && last !in front
    ensures forall d :: d in g[last] ==> d in front
    ensures forall n :: n in front ==> last !in g[n]
  {
    var order := front + [last];
    assert order[|front|] == last && order[..|front|] == front;
    forall i, d | 0 <= i < |front| && d in g[front[i]] ensures d in front[..i] && d != last {
      assert order[i] == front[i] && order[..i] == front[..i];
      var j :| 0 <= j < i && order[j] == d;
    }
    forall i, j | 0 <= i < j < |front| ensures front[i] != front[j] {
      assert order[i] != order[j];
    }
  }

  /** What is present is closed under dependencies of dependencies. */
  lemma {:induction false} AncestorsArePresent(ps: seq<TableParameter>, present: set<string>, walk: seq<string>)
    requires Accepts(ps, present) && IsWalk(Dependencies(ps), walk) && walk[0] in present
    ensures walk[|walk| - 1] in present
  {
    if |walk| > 1 {
      var g, rest := Dependencies(ps), walk[1..];
      assert walk[1] in g[walk[0]];
      forall i | 0 <= i < |rest| - 1 ensures rest[i + 1] in g[rest[i]] {
        assert walk[i + 2] in g[walk[i + 1]];
      }
      AncestorsArePresent(ps, present, rest);
    }
  }

  /** Under a valid schema the parameters of an accepted reference can be listed so that each comes
      after everything it depends on, and everything it depends on, however remotely, is present. */
  lemma AcceptedIsResolvable(ps: seq<TableParameter>, present: set<string>) returns (listing: seq<string>)
    requires WellFormedParameters(ps) && Accepts(ps, present)
    ensures InDependencyOrder(Dependencies(ps), listing)
    ensures forall n :: n in listing <==> n in present
    ensures forall k, d :: k in present && Reaches(Dependencies(ps), k, d) ==> d in present
  {
    var g := Dependencies(ps);
    if ps == [] {
      listing := [];
      assert present == {};
    } else {
      SiblingsClose(ps);
      var order := OrderCompletes(g, []);
      listing := SelectInOrder(g, order, present);
    }
    forall k, d | k in present && Reaches(g, k, d) ensures d in present {
      var walk :| Connects(g, k, d, walk);
      AncestorsArePresent(ps, present, walk);
    }
  }

  /** The same from the two checks a caller makes: the schema was accepted by `ValidateSchema`, and the
      reference by `Validate` against it. */
  lemma ValidReferenceIsResolvable(schema: Schema, ref: TableRef, i: int) returns (listing: seq<string>)
    requires WellFormedSchema(schema) && IsFirstNamed(schema.tables, ref.table, i)
    requires Issues(schema.tables[i].parameters, ref.params) == []
    ensures forall j :: 0 <= j < |schema.tables| && schema.tables[j].name == ref.table ==> j == i
    ensures InDependencyOrder(Dependencies(schema.tables[i].parameters), listing)
    ensures forall n :: n in listing <==> n in ref.params
    ensures forall k, d :: k in ref.params && Reaches(Dependencies(schema.tables[i].parameters), k, d) ==>
            d in ref.params
  {
    hide Issues, Accepts, WellFormedParameters;
    var table := schema.tables[i];
    assert table in schema.tables;
    IssuesAreComplaints(table.parameters, ref.params);
    listing := AcceptedIsResolvable(table.parameters, ref.params.Keys);
  }

  ghost function RequiredNames(ps: seq<TableParameter>): set<string> {
    set p | p in ps && p.required :: p.name
  }

  /** Under a valid schema the required parameters alone are an accepted selection, the least one. */
  lemma RequiredIsTheLeastSelection(ps: seq<TableParameter>)
    requires WellFormedParameters(ps)
    ensures Accepts(ps, RequiredNames(ps))
    ensures forall present :: Accepts(ps, present) ==> RequiredNames(ps) <= present
  {
    if ps != [] {
      UniqueByName(ps);
      forall k, d | k in RequiredNames(ps) && d in ByName(ps)[k].dependsOn ensures d in RequiredNames(ps) {
        var p :| p in ps && p.required && p.name == k;
        var i :| 0 <= i < |ps| && ps[i] == p;
        assert ByName(ps)[k] == p && Declares(ps, d);
        var q :| q in ps && q.name == d;
      }
      forall k | k in RequiredNames(ps) ensures k in ByName(ps) {
        var p :| p in ps && p.required && p.name == k;
        var i :| 0 <= i < |ps| && ps[i] == p;
      }
    }
  }

  /** Accepted selections form a lattice under union and intersection. */
  lemma SelectionsCombine(ps: seq<TableParameter>, a: set<string>, b: set<string>)
    requires Accepts(ps, a) && Accepts(ps, b)
    ensures Accepts(ps, a + b) && Accepts(ps, a * b)
  {
    hide ByName;
  }
}
