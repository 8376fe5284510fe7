/** Schemas as far as validation looks at them (types.go), and the dependency graph of a table's
    parameters with its walks, cycles and topological orders. */
module Schemas {
  datatype TableParameter = TableParameter(name: string, dependsOn: seq<string>, root: bool, required: bool)

  datatype Table = Table(name: string, parameters: seq<TableParameter>)

  /** `values` is Schema.TableParameterValues: table name to parameter name to values. */
  datatype Schema = Schema(tables: seq<Table>, values: map<string, map<string, seq<string>>>)

  /** The index the code builds by assigning parameters to a map in order: the last of a name wins. */
  function ByName(ps: seq<TableParameter>): (m: map<string, TableParameter>)
    ensures forall i :: 0 <= i < |ps| ==> ps[i].name in m
    ensures forall n :: n in m ==> m[n].name == n && m[n] in ps
  {
    if ps == [] then map[]
    else ByName(ps[..|ps| - 1])[ps[|ps| - 1].name := ps[|ps| - 1]]
  }

  /** The parameter is the last declared of its name. */
  ghost predicate LastOfName(ps: seq<TableParameter>, i: int) {
    0 <= i < |ps| && forall j :: i < j < |ps| ==> ps[j].name != ps[i].name
  }

  lemma {:induction false} LastDeclarationCounts(ps: seq<TableParameter>, i: int)
    requires LastOfName(ps, i)
    ensures ByName(ps)[ps[i].name] == ps[i]
  {
    if i < |ps| - 1 {
      var front := ps[..|ps| - 1];
      assert LastOfName(front, i);
      LastDeclarationCounts(front, i);
      assert ps[|ps| - 1].name != ps[i].name;
    }
  }

  method IndexByName(ps: seq<TableParameter>) returns (m: map<string, TableParameter>)
    ensures m == ByName(ps)
  {
    m := map[];
    for i := 0 to |ps|
      invariant m == ByName(ps[..i])
    {
      assert ps[..i + 1][..i] == ps[..i];
      m := m[ps[i].name := ps[i]];
    }
    assert ps[..|ps|] == ps;
  }

  ghost predicate UniqueNames(ps: seq<TableParameter>) {
    forall i, j :: 0 <= i < j < |ps| ==> ps[i].name != ps[j].name
  }

  lemma UniqueByName(ps: seq<TableParameter>)
    requires UniqueNames(ps)
    ensures forall i :: 0 <= i < |ps| ==> ByName(ps)[ps[i].name] == ps[i]
  {
    hide ByName;
    forall i | 0 <= i < |ps| ensures ByName(ps)[ps[i].name] == ps[i] {
      assert LastOfName(ps, i);
      LastDeclarationCounts(ps, i);
    }
  }

  // ----- the dependency graph -----

  type Graph = map<string, seq<string>>

  function DependsOn(byName: map<string, TableParameter>): Graph {
    map n | n in byName :: byName[n].dependsOn
  }

  function Dependencies(ps: seq<TableParameter>): Graph {
    DependsOn(ByName(ps))
  }

  ghost predicate Closed(g: Graph) {
    forall n, d :: n in g && d in g[n] ==> d in g
  }

  ghost predicate IsWalk(g: Graph, walk: seq<string>) {
    && walk != []
    && (forall i :: 0 <= i < |walk| ==> walk[i] in g)
    && (forall i :: 0 <= i < |walk| - 1 ==> walk[i + 1] in g[walk[i]])
  }

  ghost predicate Connects(g: Graph, from: string, to: string, walk: seq<string>) {
    IsWalk(g, walk) && |walk| >= 2 && walk[0] == from && walk[|walk| - 1] == to
  }

  /** `to` is a dependency of `from`, directly or through others. */
  ghost predicate Reaches(g: Graph, from: string, to: string) {
    exists walk :: Connects(g, from, to, walk)
  }

  ghost predicate Acyclic(g: Graph) {
    forall n :: !Reaches(g, n, n)
  }

  ghost predicate Distinct(s: seq<string>) {
    forall i, j :: 0 <= i < j < |s| ==> s[i] != s[j]
  }

  /** Everything comes after all it depends on. */
  ghost predicate InDependencyOrder(g: Graph, order: seq<string>) {
    && Distinct(order)
    && (forall i :: 0 <= i < |order| ==> order[i] in g)
    && (forall i, d :: 0 <= i < |order| && d in g[order[i]] ==> d in order[..i])
  }

  ghost predicate IsTopologicalOrder(g: Graph, order: seq<string>) {
    InDependencyOrder(g, order) && forall n :: n in g <==> n in order
  }

  /** A walk from a listed name goes strictly backwards in the order. */
  lemma {:induction false} WalksGoBack(g: Graph, order: seq<string>, walk: seq<string>, i: nat, j: nat)
    requires InDependencyOrder(g, order) && IsWalk(g, walk)
    requires i < |order| && order[i] == walk[0]
    requires j < |walk|
    ensures exists k :: 0 <= k <= i - j && order[k] == walk[j]
  {
    if j == 0 {
      assert order[i] == walk[j];
    } else {
      var d := walk[1];
      assert d in g[walk[0]] && d in order[..i];
      var i' :| 0 <= i' < i && order[i'] == d;
      var rest := walk[1..];
      forall m | 0 <= m < |rest| - 1 ensures rest[m + 1] in g[rest[m]] {
        assert walk[m + 2] in g[walk[m + 1]];
      }
      WalksGoBack(g, order, rest, i', j - 1);
      var k :| 0 <= k <= i' - (j - 1) && order[k] == rest[j - 1];
    }
  }

  /** A topological order rules out every cycle. */
  lemma OrderedIsAcyclic(g: Graph, order: seq<string>)
    requires IsTopologicalOrder(g, order)
    ensures Acyclic(g)
  {
    forall n | Reaches(g, n, n) ensures false {
      var walk :| Connects(g, n, n, walk);
      var i :| 0 <= i < |order| && order[i] == n;
      WalksGoBack(g, order, walk, i, |walk| - 1);
    }
  }
}
