/** Structural validation of a schema: validation.go. Each check is a loop as in the code; the
    result is tied to a declarative description of well-formed schemas, and every error names a real
    violation of the rule it reports. */
module Validation {
  import opened Text
  import opened Schemas
  import opened Cycles

  datatype ParameterError =
    | DuplicateParameter(name: string)
    | RootWithDependencies(name: string)
    | NoRoot
    | UnknownDependency(name: string, dependency: string)
    | CircularDependency(name: string)
    | RequiredOnOptional(name: string, dependency: string)

  datatype SchemaError =
    | DuplicateTable(table: string)
    | InTable(table: string, error: ParameterError)
    | ValuesForUnknownTable(table: string)
    | ValuesForUnknownParameter(table: string, name: string)
    | ValuesForNonRoot(table: string, name: string)

  // ----- what a well-formed schema is -----

  ghost predicate RootsAreFree(ps: seq<TableParameter>) {
    forall p :: p in ps && p.root ==> p.dependsOn == []
  }

  ghost predicate HasRoot(ps: seq<TableParameter>) {
    exists p :: p in ps && p.root
  }

  ghost predicate Declares(ps: seq<TableParameter>, name: string) {
    exists p :: p in ps && p.name == name
  }

  ghost predicate SiblingReferences(ps: seq<TableParameter>) {
    forall p, d :: p in ps && d in p.dependsOn ==> Declares(ps, d)
  }

  ghost predicate RequiredChain(ps: seq<TableParameter>) {
    forall p, q :: p in ps && q in ps && p.required && q.name in p.dependsOn ==> q.required
  }

  ghost predicate WellFormedParameters(ps: seq<TableParameter>) {
    || ps == []
    || (&& UniqueNames(ps) && RootsAreFree(ps) && HasRoot(ps) && SiblingReferences(ps)
        && Acyclic(Dependencies(ps)) && RequiredChain(ps))
  }

  ghost predicate UniqueTables(tables: seq<Table>) {
    forall i, j :: 0 <= i < j < |tables| ==> tables[i].name != tables[j].name
  }

  ghost predicate DeclaresRoot(ps: seq<TableParameter>, name: string) {
    exists p :: p in ps && p.name == name && p.root
  }

  /** Values are given only for declared root parameters of existing tables. */
  ghost predicate WellPlaced(schema: Schema, table: string)
    requires table in schema.values
  {
    exists t :: t in schema.tables && t.name == table &&
                forall name :: name in schema.values[table] ==> DeclaresRoot(t.parameters, name)
  }

  ghost predicate WellPlacedValues(schema: Schema) {
    forall table :: table in schema.values ==> WellPlaced(schema, table)
  }

  ghost predicate WellFormedSchema(schema: Schema) {
    && UniqueTables(schema.tables)
    && (forall t :: t in schema.tables ==> WellFormedParameters(t.parameters))
    && WellPlacedValues(schema)
  }

  // ----- which error is reported -----

  /** The parameter repeats a name, and is the first to violate a rule on names and roots. */
  ghost predicate RepeatsAt(ps: seq<TableParameter>, i: int) {
    0 <= i < |ps| && UniqueNames(ps[..i]) && RootsAreFree(ps[..i]) && Declares(ps[..i], ps[i].name)
  }

  /** The parameter is a root with dependencies, and is the first to violate a rule on names and roots. */
  ghost predicate BoundRootAt(ps: seq<TableParameter>, i: int) {
    && 0 <= i < |ps| && UniqueNames(ps[..i]) && RootsAreFree(ps[..i]) && !Declares(ps[..i], ps[i].name)
    && ps[i].root && ps[i].dependsOn != []
  }

  /** The k-th dependency of the i-th parameter names no sibling, and is the first such one. */
  ghost predicate UnknownAt(ps: seq<TableParameter>, i: int, k: int) {
    && 0 <= i < |ps| && 0 <= k < |ps[i].dependsOn| && !Declares(ps, ps[i].dependsOn[k])
    && (forall j, d :: 0 <= j < i && d in ps[j].dependsOn ==> Declares(ps, d))
    && (forall m :: 0 <= m < k ==> Declares(ps, ps[i].dependsOn[m]))
  }

  ghost predicate Requires(ps: seq<TableParameter>, name: string) {
    exists p :: p in ps && p.name == name && p.required
  }

  /** The k-th dependency of the required i-th parameter is optional, and is the first such one. */
  ghost predicate OptionalAt(ps: seq<TableParameter>, i: int, k: int) {
    && 0 <= i < |ps| && ps[i].required && 0 <= k < |ps[i].dependsOn| && !Requires(ps, ps[i].dependsOn[k])
    && (forall j, d :: 0 <= j < i && ps[j].required && d in ps[j].dependsOn ==> Requires(ps, d))
    && (forall m :: 0 <= m < k ==> Requires(ps, ps[i].dependsOn[m]))
  }

  /** The error reports the first violation in the order of the checks, and by position within a check. */
  ghost predicate Explains(ps: seq<TableParameter>, e: ParameterError) {
    match e
    case DuplicateParameter(name) =>
      exists i :: RepeatsAt(ps, i) && ps[i].name == name
    case RootWithDependencies(name) =>
      exists i :: BoundRootAt(ps, i) && ps[i].name == name
    case NoRoot =>
      UniqueNames(ps) && RootsAreFree(ps) && !HasRoot(ps) && ps != []
    case UnknownDependency(name, d) =>
      && UniqueNames(ps) && RootsAreFree(ps) && HasRoot(ps)
      && exists i, k :: UnknownAt(ps, i, k) && ps[i].name == name && ps[i].dependsOn[k] == d
    case CircularDependency(name) =>
      && UniqueNames(ps) && RootsAreFree(ps) && HasRoot(ps) && SiblingReferences(ps)
      && !Acyclic(Dependencies(ps)) && ReportsCycle(ps, name)
    case RequiredOnOptional(name, d) =>
      && UniqueNames(ps) && RootsAreFree(ps) && HasRoot(ps) && SiblingReferences(ps) && Acyclic(Dependencies(ps))
      && exists i, k :: OptionalAt(ps, i, k) && ps[i].name == name && ps[i].dependsOn[k] == d
  }

  lemma OneOfNames(ps: seq<TableParameter>, i: int, j: int)
    requires (RepeatsAt(ps, i) || BoundRootAt(ps, i)) && (RepeatsAt(ps, j) || BoundRootAt(ps, j))
    ensures i == j
  {
    if i < j {
      ViolationStays(ps, i, j);
    } else if j < i {
      ViolationStays(ps, j, i);
    }
  }

  /** A violation on names or roots is one of every longer list. */
  lemma ViolationStays(ps: seq<TableParameter>, i: int, j: int)
    requires 0 <= i < j <= |ps| && (RepeatsAt(ps, i) || BoundRootAt(ps, i))
    ensures !(UniqueNames(ps[..j]) && RootsAreFree(ps[..j]))
  {
    assert ps[..j][i] == ps[i] && ps[i] in ps[..j];
    if RepeatsAt(ps, i) {
      var q :| q in ps[..i] && q.name == ps[i].name;
      var k :| 0 <= k < i && ps[..i][k] == q;
      assert ps[..j][k] == q;
    }
  }

  lemma OneUnknown(ps: seq<TableParameter>, i: int, k: int, j: int, m: int)
    requires UnknownAt(ps, i, k) && UnknownAt(ps, j, m)
    ensures i == j && k == m
  {
    assert ps[i].dependsOn[k] in ps[i].dependsOn && ps[j].dependsOn[m] in ps[j].dependsOn;
  }

  lemma OneOptional(ps: seq<TableParameter>, i: int, k: int, j: int, m: int)
    requires OptionalAt(ps, i, k) && OptionalAt(ps, j, m)
    ensures i == j && k == m
  {
    assert ps[i].dependsOn[k] in ps[i].dependsOn && ps[j].dependsOn[m] in ps[j].dependsOn;
  }

  lemma NamesAreFine(ps: seq<TableParameter>, i: int)
    requires RepeatsAt(ps, i) || BoundRootAt(ps, i)
    ensures !(UniqueNames(ps) && RootsAreFree(ps))
  {
    ViolationStays(ps, i, |ps|);
    assert ps[..|ps|] == ps;
  }

  lemma UnknownIsNoSibling(ps: seq<TableParameter>, i: int, k: int)
    requires UnknownAt(ps, i, k)
    ensures !SiblingReferences(ps)
  {
    assert ps[i] in ps && ps[i].dependsOn[k] in ps[i].dependsOn;
  }

  /** Which check the error belongs to. */
  function Check(e: ParameterError): nat {
    match e
    case DuplicateParameter(_) => 0
    case RootWithDependencies(_) => 0
    case NoRoot => 1
    case UnknownDependency(_, _) => 2
    case CircularDependency(_) => 3
    case RequiredOnOptional(_, _) => 4
  }

  /** An error means that its check has failed and the checks before it have not. */
  lemma ChecksBefore(ps: seq<TableParameter>, e: ParameterError)
    requires Explains(ps, e)
    ensures Check(e) > 0 <==> UniqueNames(ps) && RootsAreFree(ps)
    ensures Check(e) > 1 <==> UniqueNames(ps) && RootsAreFree(ps) && HasRoot(ps)
    ensures Check(e) > 2 <==> UniqueNames(ps) && RootsAreFree(ps) && HasRoot(ps) && SiblingReferences(ps)
    ensures Check(e) > 3 <==> UniqueNames(ps) && RootsAreFree(ps) && HasRoot(ps) && SiblingReferences(ps) &&
                              Acyclic(Dependencies(ps))
  {
    hide UniqueNames, RootsAreFree, HasRoot, SiblingReferences, Acyclic, Dependencies, ReportsCycle;
    match e
    case DuplicateParameter(name) =>
      var i :| RepeatsAt(ps, i) && ps[i].name == name;
      NamesAreFine(ps, i);
    case RootWithDependencies(name) =>
      var i :| BoundRootAt(ps, i) && ps[i].name == name;
      NamesAreFine(ps, i);
    case UnknownDependency(name, d) =>
      var i, k :| UnknownAt(ps, i, k) && ps[i].name == name && ps[i].dependsOn[k] == d;
      UnknownIsNoSibling(ps, i, k);
    case _ =>
  }

  /** The rules of a table's parameters determine the error: no two explain the same list. */
  lemma ExplanationIsUnique(ps: seq<TableParameter>, a: ParameterError, b: ParameterError)
    requires Explains(ps, a) && Explains(ps, b)
    ensures a == b
  {
    hide UniqueNames, RootsAreFree, HasRoot, SiblingReferences, Acyclic, Dependencies, ReportsCycle;
    ChecksBefore(ps, a);
    ChecksBefore(ps, b);
    assert Check(a) == Check(b);
    if Check(a) == 0 {
      SameNameError(ps, a, b);
    } else if a.UnknownDependency? {
      var i, k :| UnknownAt(ps, i, k) && ps[i].name == a.name && ps[i].dependsOn[k] == a.dependency;
      var j, m :| UnknownAt(ps, j, m) && ps[j].name == b.name && ps[j].dependsOn[m] == b.dependency;
      OneUnknown(ps, i, k, j, m);
    } else if a.CircularDependency? {
      ReportIsUnique(ps, a.name, b.name);
    } else if a.RequiredOnOptional? {
      var i, k :| OptionalAt(ps, i, k) && ps[i].name == a.name && ps[i].dependsOn[k] == a.dependency;
      var j, m :| OptionalAt(ps, j, m) && ps[j].name == b.name && ps[j].dependsOn[m] == b.dependency;
      OneOptional(ps, i, k, j, m);
    }
  }

  lemma SameNameError(ps: seq<TableParameter>, a: ParameterError, b: ParameterError)
    requires Explains(ps, a) && Explains(ps, b) && Check(a) == 0 && Check(b) == 0
    ensures a == b
  {
    hide UniqueNames, RootsAreFree;
    var i :| (RepeatsAt(ps, i) || BoundRootAt(ps, i)) && ps[i].name == a.name &&
             (a.DuplicateParameter? <==> Declares(ps[..i], ps[i].name));
    var j :| (RepeatsAt(ps, j) || BoundRootAt(ps, j)) && ps[j].name == b.name &&
             (b.DuplicateParameter? <==> Declares(ps[..j], ps[j].name));
    OneOfNames(ps, i, j);
  }

  /** The table has the name of an earlier one, and is the first to. */
  ghost predicate RepeatedTableAt(tables: seq<Table>, i: int) {
    0 <= i < |tables| && UniqueTables(tables[..i]) && exists j :: 0 <= j < i && tables[j].name == tables[i].name
  }

  /** The parameters of the table are the first that are not well formed. */
  ghost predicate BadTableAt(tables: seq<Table>, i: int, e: ParameterError) {
    && 0 <= i < |tables| && Explains(tables[i].parameters, e)
    && forall j :: 0 <= j < i ==> WellFormedParameters(tables[j].parameters)
  }

  ghost predicate WellFormedTables(tables: seq<Table>) {
    UniqueTables(tables) && forall t :: t in tables ==> WellFormedParameters(t.parameters)
  }

  /** As above. The maps of values are iterated in any order, so any violation in them may be reported,
      but only if all tables are well formed. */
  ghost predicate ExplainsSchema(schema: Schema, e: SchemaError) {
    match e
    case DuplicateTable(name) =>
      exists i :: RepeatedTableAt(schema.tables, i) && schema.tables[i].name == name
    case InTable(name, pe) =>
      UniqueTables(schema.tables) && exists i :: BadTableAt(schema.tables, i, pe) && schema.tables[i].name == name
    case ValuesForUnknownTable(table) =>
      WellFormedTables(schema.tables) && table in schema.values && forall t :: t in schema.tables ==> t.name != table
    case ValuesForUnknownParameter(table, name) =>
      && WellFormedTables(schema.tables) && table in schema.values && name in schema.values[table]
      && exists t :: t in schema.tables && t.name == table && !Declares(t.parameters, name)
    case ValuesForNonRoot(table, name) =>
      && WellFormedTables(schema.tables) && table in schema.values && name in schema.values[table]
      && exists t, p :: t in schema.tables && t.name == table && p in t.parameters && p.name == name && !p.root
  }

  // ----- the checks -----

  /** Names, roots: the first loop of `validateTableParameters`. */
  method CheckNames(ps: seq<TableParameter>) returns (knownNames: set<string>, err: Option<ParameterError>)
    requires ps != []
    ensures err.None? ==> UniqueNames(ps) && RootsAreFree(ps) && HasRoot(ps)
    ensures err.None? ==> forall n :: n in knownNames <==> Declares(ps, n)
    ensures err.Some? ==> Explains(ps, err.value)
    ensures err.Some? ==> !(UniqueNames(ps) && RootsAreFree(ps) && HasRoot(ps))
  {
    knownNames := {};
    var hasRoot := false;
    for i := 0 to |ps|
      invariant UniqueNames(ps[..i]) && RootsAreFree(ps[..i])
      invariant hasRoot <==> HasRoot(ps[..i])
      invariant forall n :: n in knownNames <==> Declares(ps[..i], n)
    {
      var p := ps[i];
      assert ps[..i + 1] == ps[..i] + [p];
      if p.name in knownNames {
        assert RepeatsAt(ps, i);
        RepeatIsNotUnique(ps, i);
        return knownNames, Some(DuplicateParameter(p.name));
      }
      Snoc(ps[..i], p);
      knownNames := knownNames + {p.name};
      if p.root {
        hasRoot := true;
        if |p.dependsOn| > 0 {
          assert BoundRootAt(ps, i);
          assert p in ps;
          return knownNames, Some(RootWithDependencies(p.name));
        }
      }
    }
    assert ps[..|ps|] == ps;
    if !hasRoot {
      return knownNames, Some(NoRoot);
    }
    return knownNames, None;
  }

  lemma RepeatIsNotUnique(ps: seq<TableParameter>, i: nat)
    requires RepeatsAt(ps, i)
    ensures !UniqueNames(ps)
  {
    var q :| q in ps[..i] && q.name == ps[i].name;
    var j :| 0 <= j < i && ps[j] == q;
    assert ps[j].name == ps[i].name;
  }

  lemma Snoc(ps: seq<TableParameter>, p: TableParameter)
    ensures forall n :: Declares(ps + [p], n) <==> Declares(ps, n) || n == p.name
    ensures HasRoot(ps + [p]) <==> HasRoot(ps) || p.root
    ensures UniqueNames(ps) && !Declares(ps, p.name) ==> UniqueNames(ps + [p])
    ensures RootsAreFree(ps + [p]) <==> RootsAreFree(ps) && (p.root ==> p.dependsOn == [])
  {
    var more := ps + [p];
    assert p in more && forall q :: q in more <==> q in ps || q == p;
    if HasRoot(ps) {
      var q :| q in ps && q.root;
      assert q in more;
    }
    forall n ensures Declares(more, n) <==> Declares(ps, n) || n == p.name {
      if Declares(ps, n) {
        var q :| q in ps && q.name == n;
        assert q in more;
      }
    }
    if UniqueNames(ps) && !Declares(ps, p.name) {
      forall i, j | 0 <= i < j < |more| ensures more[i].name != more[j].name {
        assert ps[i] in ps;
      }
    }
  }

  /** References: the second loop of `validateTableParameters`. */
  method CheckReferences(ps: seq<TableParameter>, knownNames: set<string>) returns (err: Option<ParameterError>)
    requires forall n :: n in knownNames <==> Declares(ps, n)
    ensures err.None? <==> SiblingReferences(ps)
    ensures err.Some? ==> err.value.UnknownDependency?
    ensures err.Some? ==> exists i, k :: UnknownAt(ps, i, k) && ps[i].name == err.value.name &&
                                         ps[i].dependsOn[k] == err.value.dependency
  {
    for i := 0 to |ps|
      invariant forall j, d :: 0 <= j < i && d in ps[j].dependsOn ==> Declares(ps, d)
    {
      var dependsOn := ps[i].dependsOn;
      for k := 0 to |dependsOn|
        invariant forall m :: 0 <= m < k ==> Declares(ps, dependsOn[m])
      {
        if dependsOn[k] !in knownNames {
          assert ps[i] in ps && dependsOn[k] in ps[i].dependsOn;
          assert UnknownAt(ps, i, k);
          return Some(UnknownDependency(ps[i].name, dependsOn[k]));
        }
      }
    }
    return None;
  }

  lemma SiblingsClose(ps: seq<TableParameter>)
    requires SiblingReferences(ps)
    ensures Closed(Dependencies(ps))
  {
    var g := Dependencies(ps);
    forall n, d | n in g && d in g[n] ensures d in g {
      assert ByName(ps)[n] in ps && Declares(ps, d);
      var p :| p in ps && p.name == d;
      var i :| 0 <= i < |ps| && ps[i] == p;
    }
  }

  /** `validateRequiredChain`. A dependency the map does not know counts as optional, as in Go. */
  method ValidateRequiredChain(ps: seq<TableParameter>) returns (err: Option<ParameterError>)
    requires UniqueNames(ps) && SiblingReferences(ps)
    ensures err.None? <==> RequiredChain(ps)
    ensures err.Some? ==> err.value.RequiredOnOptional?
    ensures err.Some? ==> exists i, k :: OptionalAt(ps, i, k) && ps[i].name == err.value.name &&
                                         ps[i].dependsOn[k] == err.value.dependency
  {
    var isRequired: map<string, bool> := map[];
    for i := 0 to |ps|
      invariant forall j :: 0 <= j < i ==> ps[j].name in isRequired && isRequired[ps[j].name] == ps[j].required
    {
      isRequired := isRequired[ps[i].name := ps[i].required];
    }
    KnowsTheRequired(ps, isRequired);
    hide UniqueNames, SiblingReferences;
    for i := 0 to |ps|
      invariant forall j, d :: 0 <= j < i && ps[j].required && d in ps[j].dependsOn ==> Requires(ps, d)
    {
      if !ps[i].required {
        continue;
      }
      var dependsOn := ps[i].dependsOn;
      for k := 0 to |dependsOn|
        invariant forall m :: 0 <= m < k ==> Requires(ps, dependsOn[m])
      {
        assert ps[i] in ps && dependsOn[k] in ps[i].dependsOn;
        if !(dependsOn[k] in isRequired && isRequired[dependsOn[k]]) {
          assert OptionalAt(ps, i, k);
          BrokenChain(ps, ps[i], dependsOn[k]);
          return Some(RequiredOnOptional(ps[i].name, dependsOn[k]));
        }
      }
    }
    ChainHolds(ps);
    return None;
  }

  lemma KnowsTheRequired(ps: seq<TableParameter>, isRequired: map<string, bool>)
    requires UniqueNames(ps) && SiblingReferences(ps)
    requires forall j :: 0 <= j < |ps| ==> ps[j].name in isRequired && isRequired[ps[j].name] == ps[j].required
    ensures forall p, d :: p in ps && d in p.dependsOn ==>
              Declares(ps, d) && (Requires(ps, d) <==> d in isRequired && isRequired[d])
  {
  }

  lemma BrokenChain(ps: seq<TableParameter>, p: TableParameter, d: string)
    requires p in ps && p.required && d in p.dependsOn && Declares(ps, d) && !Requires(ps, d)
    ensures !RequiredChain(ps)
  {
    var q :| q in ps && q.name == d;
  }

  lemma ChainHolds(ps: seq<TableParameter>)
    requires UniqueNames(ps)
    requires forall j, d :: 0 <= j < |ps| && ps[j].required && d in ps[j].dependsOn ==> Requires(ps, d)
    ensures RequiredChain(ps)
  {
    forall p, q | p in ps && q in ps && p.required && q.name in p.dependsOn ensures q.required {
      var i :| 0 <= i < |ps| && ps[i] == p;
      assert Requires(ps, q.name);
      var r :| r in ps && r.name == q.name && r.required;
      var k :| 0 <= k < |ps| && ps[k] == q;
      var m :| 0 <= m < |ps| && ps[m] == r;
    }
  }

  /** The last two checks of `validateTableParameters`. */
  method CheckGraph(ps: seq<TableParameter>) returns (err: Option<ParameterError>)
    requires UniqueNames(ps) && RootsAreFree(ps) && HasRoot(ps) && SiblingReferences(ps)
    ensures err.None? <==> Acyclic(Dependencies(ps)) && RequiredChain(ps)
    ensures err.Some? ==> Explains(ps, err.value)
  {
    hide UniqueNames, RootsAreFree, HasRoot, SiblingReferences, Acyclic, RequiredChain, Dependencies,
      Reaches, ReportsCycle;
    SiblingsClose(ps);
    var cycle, _, _ := DetectCycle(ps);
    if cycle.Some? {
      return Some(CircularDependency(cycle.value));
    }
    err := ValidateRequiredChain(ps);
  }

  /** `validateTableParameters`. */
  method ValidateTableParameters(ps: seq<TableParameter>) returns (err: Option<ParameterError>)
    ensures err.None? <==> WellFormedParameters(ps)
    ensures err.Some? ==> Explains(ps, err.value)
  {
    hide UniqueNames, RootsAreFree, HasRoot, SiblingReferences, Declares, Acyclic, RequiredChain, Dependencies,
      Reaches, ReportsCycle;
    if |ps| == 0 {
      return None;
    }
    var knownNames;
    knownNames, err := CheckNames(ps);
    if err.Some? {
      return;
    }
    err := CheckReferences(ps, knownNames);
    if err.Some? {
      return;
    }
    err := CheckGraph(ps);
  }

  /** One table of `validateTableParameterValues`: the names are visited in any order. */
  method ValidateValuesOfTable(table: Table, names: set<string>) returns (err: Option<SchemaError>)
    requires UniqueNames(table.parameters)
    ensures err.None? <==> forall n :: n in names ==> DeclaresRoot(table.parameters, n)
    ensures err.Some? ==> BadValues(table, names, err.value)
  {
    var ps := table.parameters;
    var roots: map<string, bool> := map[];
    for i := 0 to |ps|
      invariant forall j :: 0 <= j < i ==> ps[j].name in roots && roots[ps[j].name] == ps[j].root
      invariant forall n :: n in roots ==> exists j :: 0 <= j < i && ps[j].name == n
    {
      roots := roots[ps[i].name := ps[i].root];
      assert ps[i].name == ps[i].name;
    }
    RootsMap(ps, roots);
    var rest := names;
    while rest != {}
      invariant rest <= names
      invariant forall n :: n in names && n !in rest ==> DeclaresRoot(ps, n)
      decreases rest
    {
      var n :| n in rest;
      if n !in roots {
        return Some(ValuesForUnknownParameter(table.name, n));
      }
      if !roots[n] {
        return Some(ValuesForNonRoot(table.name, n));
      }
      rest := rest - {n};
    }
    return None;
  }

  ghost predicate BadValues(table: Table, names: set<string>, e: SchemaError) {
    match e
    case ValuesForUnknownParameter(t, n) =>
      t == table.name && n in names && !Declares(table.parameters, n)
    case ValuesForNonRoot(t, n) =>
      t == table.name && n in names && exists p :: p in table.parameters && p.name == n && !p.root
    case _ => false
  }

  lemma RootsMap(ps: seq<TableParameter>, roots: map<string, bool>)
    requires UniqueNames(ps)
    requires forall j :: 0 <= j < |ps| ==> ps[j].name in roots && roots[ps[j].name] == ps[j].root
    requires forall n :: n in roots ==> exists j :: 0 <= j < |ps| && ps[j].name == n
    ensures forall n :: n in roots <==> Declares(ps, n)
    ensures forall n :: DeclaresRoot(ps, n) <==> n in roots && roots[n]
    ensures forall n :: n in roots && !roots[n] ==> exists p :: p in ps && p.name == n && !p.root
  {
    forall n | n in roots
      ensures Declares(ps, n)
      ensures if roots[n] then DeclaresRoot(ps, n) else exists p :: p in ps && p.name == n && !p.root
    {
      var j :| 0 <= j < |ps| && ps[j].name == n;
      assert ps[j] in ps;
    }
  }

  ghost predicate Indexes(tablesByName: map<string, Table>, tables: seq<Table>) {
    && (forall t :: t in tables ==> t.name in tablesByName && tablesByName[t.name] == t)
    && (forall n :: n in tablesByName ==> tablesByName[n] in tables && tablesByName[n].name == n)
  }

  /** `validateTableParameterValues`. */
  method ValidateTableParameterValues(schema: Schema, tablesByName: map<string, Table>)
    returns (err: Option<SchemaError>)
    requires Indexes(tablesByName, schema.tables)
    requires WellFormedTables(schema.tables)
    ensures err.None? <==> WellPlacedValues(schema)
    ensures err.Some? ==> ExplainsSchema(schema, err.value)
  {
    hide UniqueNames, DeclaresRoot, Declares;
    var rest := schema.values.Keys;
    while rest != {}
      invariant rest <= schema.values.Keys
      invariant forall table :: table in schema.values && table !in rest ==> WellPlaced(schema, table)
      decreases rest
    {
      var tableName :| tableName in rest;
      if tableName !in tablesByName {
        return Some(ValuesForUnknownTable(tableName));
      }
      var table := tablesByName[tableName];
      err := ValidateValuesOfTable(table, schema.values[tableName].Keys);
      if err.Some? {
        return;
      }
      assert WellPlaced(schema, tableName);
      rest := rest - {tableName};
    }
    return None;
  }

  /** `ValidateSchema` accepts exactly the well-formed schemas, in whatever order maps are iterated. */
  method ValidateSchema(schema: Option<Schema>) returns (err: Option<SchemaError>)
    ensures err.None? <==> schema.None? || WellFormedSchema(schema.value)
    ensures err.Some? ==> ExplainsSchema(schema.value, err.value)
  {
    if schema.None? {
      return None;
    }
    var tables := schema.value.tables;
    var tablesByName: map<string, Table> := map[];
    for i := 0 to |tables|
      invariant Indexes(tablesByName, tables[..i]) && UniqueTables(tables[..i])
    {
      if tables[i].name in tablesByName {
        RepeatedTable(tables, i, tablesByName);
        assert RepeatedTableAt(tables, i);
        return Some(DuplicateTable(tables[i].name));
      }
      TablesSnoc(tables, i, tablesByName);
      tablesByName := tablesByName[tables[i].name := tables[i]];
    }
    assert tables[..|tables|] == tables;
    hide Explains;
    for i := 0 to |tables|
      invariant forall j :: 0 <= j < i ==> WellFormedParameters(tables[j].parameters)
    {
      var bad := ValidateTableParameters(tables[i].parameters);
      if bad.Some? {
        assert tables[i] in tables;
        assert BadTableAt(tables, i, bad.value);
        return Some(InTable(tables[i].name, bad.value));
      }
    }
    err := ValidateTableParameterValues(schema.value, tablesByName);
  }

  lemma RepeatedTable(tables: seq<Table>, i: nat, tablesByName: map<string, Table>)
    requires i < |tables| && Indexes(tablesByName, tables[..i]) && tables[i].name in tablesByName
    ensures exists j :: 0 <= j < i && tables[j].name == tables[i].name
  {
    var t := tablesByName[tables[i].name];
    var j :| 0 <= j < i && tables[..i][j] == t;
    assert tables[j].name == tables[i].name;
  }

  lemma TablesSnoc(tables: seq<Table>, i: nat, tablesByName: map<string, Table>)
    requires i < |tables| && Indexes(tablesByName, tables[..i]) && UniqueTables(tables[..i])
    requires tables[i].name !in tablesByName
    ensures Indexes(tablesByName[tables[i].name := tables[i]], tables[..i + 1]) && UniqueTables(tables[..i + 1])
  {
    var front, more := tables[..i], tables[..i + 1];
    assert more == front + [tables[i]];
    assert forall t :: t in more <==> t in front || t == tables[i];
    forall j, k | 0 <= j < k < |more| ensures more[j].name != more[k].name {
      assert front[j] in front && more[j] == front[j];
    }
  }
}
