/** The keys of requests: the key parts of datasource.go `parseSchemaRequest`, and the refresh streams. Canonical
    JSON is a parameter; what is assumed of it is stated where it is used. */
module RequestKeys {
  import opened Text
  import opened Keys
  import opened Limiter
  import opened JsonTexts

  /** Arguments of `canonicalJSON`; a nil slice or map encodes like Null, a time range is kept opaque. */
  datatype Json = Null | Strings(items: seq<string>) | Object(fields: map<string, string>) | Other(text: string)

  type CanonicalJson = Json -> string

  datatype Request =
    | FullSchema
    | Tables
    | Columns(tables: seq<string>, parameters: Json, schemaContext: Json)
    | TableParameterValues(table: string, parameter: string, dependencies: Json)
    | ColumnValues(table: string, columns: seq<string>, parameters: Json, schemaContext: Json, timeRange: Json)
    | Functions

  function Endpoint(r: Request): string {
    match r
    case FullSchema => "fullSchema"
    case Tables => "tables"
    case Columns(_, _, _) => "columns"
    case TableParameterValues(_, _, _) => "tableParameterValues"
    case ColumnValues(_, _, _, _, _) => "columnValues"
    case Functions => "functions"
  }

  /** `sortedStrings`: a sorted copy, and nil for an empty slice. */
  function SortedStrings(values: seq<string>): Json {
    if |values| == 0 then Null else Strings(Sort(values))
  }

  function KeyParts(json: CanonicalJson, r: Request): seq<string> {
    match r
    case FullSchema => ["request"]
    case Tables => ["request"]
    case Columns(tables, parameters, context) =>
      ["tables", json(SortedStrings(tables)), "tableParameters", json(parameters), "schemaContext", json(context)]
    case TableParameterValues(table, parameter, dependencies) =>
      ["table", table, "tableParameter", parameter, "dependencyValues", json(dependencies)]
    case ColumnValues(table, columns, parameters, context, timeRange) =>
      ["table", table, "columns", json(SortedStrings(columns)), "tableParameters", json(parameters),
       "schemaContext", json(context), "timeRange", json(timeRange)]
    case Functions => ["request"]
  }

  /** No text continues the encoding of one value into that of another: the value can be read off the
      front of a text (sections 4 and 5 of RFC 8259: objects, arrays and null end where they end). */
  ghost predicate SelfDelimiting(json: CanonicalJson) {
    forall a, b, x, y :: json(a) + x == json(b) + y ==> a == b
  }

  /** And it is a JSON text. */
  ghost predicate EncodesJson(json: CanonicalJson) {
    SelfDelimiting(json) && forall v :: IsJsonText(json(v), Outside)
  }

  /** `SortedStrings` forgets exactly the order. */
  lemma SortedStringsForgetsOrder(a: seq<string>, b: seq<string>)
    ensures SortedStrings(a) == SortedStrings(b) <==> multiset(a) == multiset(b)
  {
    if multiset(a) == multiset(b) {
      assert |a| == |multiset(a)| == |multiset(b)| == |b|;
      if |a| != 0 {
        SortedIsUnique(Sort(a), Sort(b));
      }
    }
  }

  lemma JsonThenRest(json: CanonicalJson, a: Json, x: string, b: Json, y: string)
    requires SelfDelimiting(json)
    ensures json(a) + x == json(b) + y <==> a == b && x == y
  {
    if json(a) + x == json(b) + y {
      SamePrefix(json(a), x, y);
    }
  }

  lemma ConcatSix(a: string, b: string, c: string, d: string, e: string, f: string)
    ensures Concat([a, b, c, d, e, f]) == a + (b + (c + (d + (e + f))))
  {
    hide Concat;
    ConcatOne(f);
    ConcatCons(e, [f]);
    assert [e] + [f] == [e, f];
    ConcatCons(d, [e, f]);
    assert [d] + [e, f] == [d, e, f];
    ConcatCons(c, [d, e, f]);
    assert [c] + [d, e, f] == [c, d, e, f];
    ConcatCons(b, [c, d, e, f]);
    assert [b] + [c, d, e, f] == [b, c, d, e, f];
    ConcatCons(a, [b, c, d, e, f]);
    assert [a] + [b, c, d, e, f] == [a, b, c, d, e, f];
  }

  lemma ConcatCons(p: string, rest: seq<string>)
    ensures Concat([p] + rest) == p + Concat(rest)
  {
    assert ([p] + rest)[1..] == rest;
  }

  /** Two `columns` requests hash the same text exactly when they ask for the same tables, in any
      order, with the same parameters and schema context. */
  lemma ColumnsContentSeparates(json: CanonicalJson, a: Request, b: Request)
    requires SelfDelimiting(json) && a.Columns? && b.Columns?
    ensures HashInput(Endpoint(a), KeyParts(json, a)) == HashInput(Endpoint(b), KeyParts(json, b)) <==>
            && multiset(a.tables) == multiset(b.tables)
            && a.parameters == b.parameters && a.schemaContext == b.schemaContext
  {
    hide SortedStrings;
    var ta, tb := SortedStrings(a.tables), SortedStrings(b.tables);
    SortedStringsForgetsOrder(a.tables, b.tables);
    ConcatSix("tables", json(ta), "tableParameters", json(a.parameters), "schemaContext", json(a.schemaContext));
    ConcatSix("tables", json(tb), "tableParameters", json(b.parameters), "schemaContext", json(b.schemaContext));
    var ca, cb := "schemaContext" + json(a.schemaContext), "schemaContext" + json(b.schemaContext);
    var pa, pb := "tableParameters" + (json(a.parameters) + ca), "tableParameters" + (json(b.parameters) + cb);
    SamePrefix("columns", "tables" + (json(ta) + pa), "tables" + (json(tb) + pb));
    SamePrefix("tables", json(ta) + pa, json(tb) + pb);
    JsonThenRest(json, ta, pa, tb, pb);
    SamePrefix("tableParameters", json(a.parameters) + ca, json(b.parameters) + cb);
    JsonThenRest(json, a.parameters, ca, b.parameters, cb);
    SamePrefix("schemaContext", json(a.schemaContext), json(b.schemaContext));
    assert json(a.schemaContext) + "" == json(a.schemaContext) && json(b.schemaContext) + "" == json(b.schemaContext);
    JsonThenRest(json, a.schemaContext, "", b.schemaContext, "");
  }

  // ----- labels behind a text of the user's -----

  ghost predicate DiffersFromShift(m: string, i: nat) {
    exists j :: 0 <= j < |m| - i && m[i + j] != m[j]
  }

  /** No occurrence of the label begins within another one. */
  ghost predicate NoOverlap(m: string) {
    forall i :: 0 < i < |m| ==> DiffersFromShift(m, i)
  }

  lemma SameOnOverlap(m: string, a: string, x: string, b: string, y: string)
    requires a + (m + x) == b + (m + y) && |a| < |b| < |a| + |m|
    ensures !DiffersFromShift(m, |b| - |a|)
  {
    var whole := a + (m + x);
    assert forall j :: 0 <= j < |m| ==> whole[|a| + j] == m[j];
    assert forall j :: 0 <= j < |m| ==> whole[|b| + j] == (b + (m + y))[|b| + j] == m[j];
    var i := |b| - |a|;
    forall j | 0 <= j < |m| - i ensures m[i + j] == m[j] {
      assert whole[|b| + j] == whole[|a| + (i + j)];
    }
  }

  /** If the text can be split at two occurrences of the label, the one further back lies entirely behind
      the other. */
  lemma SameLabelBehind(m: string, a: string, x: string, b: string, y: string) returns (z: string)
    requires NoOverlap(m) && a + (m + x) == b + (m + y) && |a| < |b|
    ensures b == a + (m + z) && x == z + (m + y)
  {
    var whole := a + (m + x);
    if |b| - |a| < |m| {
      SameOnOverlap(m, a, x, b, y);
    }
    z := b[|a| + |m|..];
    assert b == whole[..|b|] && whole[..|a| + |m|] == a + m;
    assert x == whole[|a| + |m|..] && m + y == whole[|b|..];
  }

  lemma LabelsDoNotOverlap()
    ensures NoOverlap("tableParameter") && NoOverlap("dependencyValues") && NoOverlap("columns")
  {
    var t, d, c := "tableParameter", "dependencyValues", "columns";
    forall i | 0 < i < |t| ensures DiffersFromShift(t, i) {
      assert if i == 11 then t[i + 1] != t[1] else t[i] != t[0];
    }
    forall i | 0 < i < |d| ensures DiffersFromShift(d, i) {
      assert if i == 5 then d[i + 2] != d[2] else d[i] != d[0];
    }
    forall i | 0 < i < |c| ensures DiffersFromShift(c, i) {
      assert c[i + 0] != c[0];
    }
  }

  /** What follows such a label, if it starts with clean JSON up to the end, can be read off from the right:
      so can the text before it. */
  lemma LabelEndsText(m: string, a: string, x: string, b: string, y: string)
    requires NoOverlap(m) && StartsLabel(m) && IsPlain(m) && IsClean(x, Outside) && IsClean(y, Outside)
    ensures a + (m + x) == b + (m + y) <==> a == b && x == y
  {
    if a + (m + x) == b + (m + y) {
      if |a| < |b| {
        var z := SameLabelBehind(m, a, x, b, y);
        LabelIsNotWithin(x, z, m, y);
      } else if |b| < |a| {
        var z := SameLabelBehind(m, b, y, a, x);
        LabelIsNotWithin(y, z, m, x);
      } else {
        SplitFromEnd(a, m + x, b, m + y);
        SamePrefix(m, x, y);
      }
    }
  }

  // ----- parameter values -----

  ghost predicate HoldsParameterLabel(s: string) {
    exists p: nat :: Holds(s, p, "tableParameter")
  }

  /** Another request for parameter values that hashes the same text. */
  ghost predicate SharesText(json: CanonicalJson, a: Request, b: Request) {
    && a.TableParameterValues? && b.TableParameterValues? && a != b
    && HashInput(Endpoint(a), KeyParts(json, a)) == HashInput(Endpoint(b), KeyParts(json, b))
  }

  function Names(r: Request): string
    requires r.TableParameterValues?
  {
    r.table + ("tableParameter" + r.parameter)
  }

  /** Two requests for parameter values hash the same text exactly when they give the same dependency
      values and table and parameter read the same with the label between them. */
  lemma ParameterValuesContent(json: CanonicalJson, a: Request, b: Request)
    requires EncodesJson(json) && a.TableParameterValues? && b.TableParameterValues?
    ensures HashInput(Endpoint(a), KeyParts(json, a)) == HashInput(Endpoint(b), KeyParts(json, b)) <==>
            a.dependencies == b.dependencies && Names(a) == Names(b)
  {
    hide HashInput, KeyParts, Endpoint, Names, NoOverlap, IsClean, IsJsonText, StartsLabel, IsPlain;
    ParameterValuesText(json, a);
    ParameterValuesText(json, b);
    var x, y := json(a.dependencies), json(b.dependencies);
    var m := "dependencyValues";
    SamePrefix("tableParameterValuestable", Names(a) + (m + x), Names(b) + (m + y));
    JsonIsClean(x, Outside);
    JsonIsClean(y, Outside);
    LabelsDoNotOverlap();
    assert StartsLabel(m) && IsPlain(m) by { DependencyLabel(); }
    LabelEndsText(m, Names(a), x, Names(b), y);
    assert x == y ==> x + "" == y + "";
  }

  lemma DependencyLabel()
    ensures StartsLabel("dependencyValues") && IsPlain("dependencyValues")
    ensures StartsLabel("columns") && IsPlain("columns")
  {
  }

  lemma ParameterValuesText(json: CanonicalJson, r: Request)
    requires r.TableParameterValues?
    ensures HashInput(Endpoint(r), KeyParts(json, r)) ==
            "tableParameterValuestable" + (Names(r) + ("dependencyValues" + json(r.dependencies)))
  {
    hide Concat;
    var rest := "dependencyValues" + json(r.dependencies);
    ConcatSix("table", r.table, "tableParameter", r.parameter, "dependencyValues", json(r.dependencies));
    NestLabel(r.table, "tableParameter", r.parameter, rest);
    Associate("tableParameterValues", "table", Names(r) + rest);
    assert "tableParameterValues" + "table" == "tableParameterValuestable";
  }

  /** A request for parameter values shares its hashed text with another one exactly when its table or
      parameter name holds the label between them. */
  lemma ParameterValuesAreShared(json: CanonicalJson, a: Request)
    requires EncodesJson(json) && a.TableParameterValues?
    ensures (exists b :: SharesText(json, a, b)) <==> HoldsParameterLabel(a.table) || HoldsParameterLabel(a.parameter)
  {
    hide HashInput, Holds, EncodesJson;
    if HoldsParameterLabel(a.table) {
      var p: nat :| Holds(a.table, p, "tableParameter");
      var t, x := CutAt(a.table, p, "tableParameter");
      LabelMoves(json, t, x, a.parameter, a.dependencies);
      assert SharesText(json, a, TableParameterValues(t, x + ("tableParameter" + a.parameter), a.dependencies));
    } else if HoldsParameterLabel(a.parameter) {
      var p: nat :| Holds(a.parameter, p, "tableParameter");
      var x, y := CutAt(a.parameter, p, "tableParameter");
      LabelMoves(json, a.table, x, y, a.dependencies);
      assert SharesText(json, a, TableParameterValues(a.table + ("tableParameter" + x), y, a.dependencies));
    }
    if b :| SharesText(json, a, b) {
      ParameterValuesContent(json, a, b);
      LabelsDoNotOverlap();
      NamesHoldLabel(a, b);
    }
  }

  lemma NamesHoldLabel(a: Request, b: Request)
    requires NoOverlap("tableParameter") && a.TableParameterValues? && b.TableParameterValues? && a != b
    requires a.dependencies == b.dependencies && Names(a) == Names(b)
    ensures HoldsParameterLabel(a.table) || HoldsParameterLabel(a.parameter)
  {
    hide Holds, NoOverlap;
    if |a.table| < |b.table| {
      var z := SameLabelBehind("tableParameter", a.table, a.parameter, b.table, b.parameter);
      HoldsBetween(z, "tableParameter", b.parameter);
    } else if |b.table| < |a.table| {
      var z := SameLabelBehind("tableParameter", b.table, b.parameter, a.table, a.parameter);
      HoldsBetween(b.table, "tableParameter", z);
    } else {
      SplitFromEnd(a.table, "tableParameter" + a.parameter, b.table, "tableParameter" + b.parameter);
      SamePrefix("tableParameter", a.parameter, b.parameter);
    }
  }

  /** The label can be read on either side of it. */
  lemma LabelMoves(json: CanonicalJson, t: string, x: string, y: string, dependencies: Json)
    ensures var a := TableParameterValues(t + ("tableParameter" + x), y, dependencies);
            var b := TableParameterValues(t, x + ("tableParameter" + y), dependencies);
            HashInput(Endpoint(a), KeyParts(json, a)) == HashInput(Endpoint(b), KeyParts(json, b))
  {
    hide Concat;
    var a := TableParameterValues(t + ("tableParameter" + x), y, dependencies);
    var b := TableParameterValues(t, x + ("tableParameter" + y), dependencies);
    ConcatSix("table", a.table, "tableParameter", a.parameter, "dependencyValues", json(dependencies));
    ConcatSix("table", b.table, "tableParameter", b.parameter, "dependencyValues", json(dependencies));
    var rest := "dependencyValues" + json(dependencies);
    NestLabel(t, "tableParameter", x, "tableParameter" + (y + rest));
    NestLabel(x, "tableParameter", y, rest);
  }

  // ----- column values -----

  /** The text behind the label `columns`. */
  function ColumnValuesRest(json: CanonicalJson, r: Request): string
    requires r.ColumnValues?
  {
    json(SortedStrings(r.columns)) + ("tableParameters" + (json(r.parameters) +
      ("schemaContext" + (json(r.schemaContext) + ("timeRange" + json(r.timeRange))))))
  }

  lemma ColumnValuesText(json: CanonicalJson, r: Request)
    requires r.ColumnValues?
    ensures HashInput(Endpoint(r), KeyParts(json, r)) ==
            "columnValuestable" + (r.table + ("columns" + ColumnValuesRest(json, r)))
  {
    hide Concat, SortedStrings;
    var columns := json(SortedStrings(r.columns));
    var last := ["tableParameters", json(r.parameters), "schemaContext", json(r.schemaContext),
                 "timeRange", json(r.timeRange)];
    ConcatSix(last[0], last[1], last[2], last[3], last[4], last[5]);
    ConcatCons(columns, last);
    ConcatCons("columns", [columns] + last);
    ConcatCons(r.table, ["columns"] + ([columns] + last));
    ConcatCons("table", [r.table] + (["columns"] + ([columns] + last)));
    assert KeyParts(json, r) == ["table"] + ([r.table] + (["columns"] + ([columns] + last)));
    assert "columnValues" + "table" == "columnValuestable";
    Associate("columnValues", "table", r.table + ("columns" + ColumnValuesRest(json, r)));
  }

  lemma CleanThen(x: string, mark: string, y: string)
    requires IsClean(x, Outside) && IsClean(mark, Outside) && IsClean(y, Outside)
    requires mark != "" && mark[0] in {'t', 's'} && mark[|mark| - 1] in {'s', 't', 'e'}
    ensures IsClean(x + (mark + y), Outside)
  {
    CleanAppend(mark, y, Outside);
    CleanAppend(x, mark + y, Outside);
  }

  lemma LabelsAreClean()
    ensures IsClean("tableParameters", Outside) && IsClean("schemaContext", Outside) && IsClean("timeRange", Outside)
  {
    hide IsClean;
    PlainIsClean("tableParameters");
    PlainIsClean("schemaContext");
    PlainIsClean("timeRange");
  }

  lemma {:induction false} PlainIsClean(s: string)
    requires IsPlain(s) && forall i :: 0 <= i < |s| - 1 ==> !StartsLabel([s[i], s[i + 1]])
    ensures IsClean(s, Outside)
  {
    if s != "" {
      assert |s| > 1 ==> !StartsLabel([s[0], s[1]]);
      forall i | 0 <= i < |s| - 2 ensures !StartsLabel([s[1..][i], s[1..][i + 1]]) {
        assert !StartsLabel([s[i + 1], s[i + 2]]);
      }
      PlainIsClean(s[1..]);
    }
  }

  lemma ColumnValuesRestIsClean(json: CanonicalJson, r: Request)
    requires EncodesJson(json) && r.ColumnValues?
    ensures IsClean(ColumnValuesRest(json, r), Outside)
  {
    hide IsClean, IsJsonText, SelfDelimiting, SortedStrings;
    var c, p, x, t := json(SortedStrings(r.columns)), json(r.parameters), json(r.schemaContext), json(r.timeRange);
    JsonIsClean(c, Outside);
    JsonIsClean(p, Outside);
    JsonIsClean(x, Outside);
    JsonIsClean(t, Outside);
    LabelsAreClean();
    CleanThen(x, "timeRange", t);
    CleanThen(p, "schemaContext", x + ("timeRange" + t));
    CleanThen(c, "tableParameters", p + ("schemaContext" + (x + ("timeRange" + t))));
  }

  lemma ColumnValuesRestContent(json: CanonicalJson, a: Request, b: Request)
    requires SelfDelimiting(json) && a.ColumnValues? && b.ColumnValues?
    ensures ColumnValuesRest(json, a) == ColumnValuesRest(json, b) <==>
            && multiset(a.columns) == multiset(b.columns) && a.parameters == b.parameters
            && a.schemaContext == b.schemaContext && a.timeRange == b.timeRange
  {
    hide SortedStrings, SelfDelimiting;
    SortedStringsForgetsOrder(a.columns, b.columns);
    var ta, tb := "timeRange" + json(a.timeRange), "timeRange" + json(b.timeRange);
    var xa, xb := "schemaContext" + (json(a.schemaContext) + ta), "schemaContext" + (json(b.schemaContext) + tb);
    var pa, pb := "tableParameters" + (json(a.parameters) + xa), "tableParameters" + (json(b.parameters) + xb);
    JsonThenRest(json, SortedStrings(a.columns), pa, SortedStrings(b.columns), pb);
    SamePrefix("tableParameters", json(a.parameters) + xa, json(b.parameters) + xb);
    JsonThenRest(json, a.parameters, xa, b.parameters, xb);
    SamePrefix("schemaContext", json(a.schemaContext) + ta, json(b.schemaContext) + tb);
    JsonThenRest(json, a.schemaContext, ta, b.schemaContext, tb);
    SamePrefix("timeRange", json(a.timeRange), json(b.timeRange));
    JsonIsInjective(json, a.timeRange, b.timeRange);
  }

  lemma JsonIsInjective(json: CanonicalJson, a: Json, b: Json)
    requires SelfDelimiting(json)
    ensures json(a) == json(b) <==> a == b
  {
    assert json(a) + "" == json(a) && json(b) + "" == json(b);
    JsonThenRest(json, a, "", b, "");
  }

  /** Two `columnValues` requests hash the same text exactly when they ask for the same table, columns in
      any order, parameters, schema context and time range: the label behind the table's name cannot be
      found again in the JSON texts that follow. */
  lemma ColumnValuesContentSeparates(json: CanonicalJson, a: Request, b: Request)
    requires EncodesJson(json) && a.ColumnValues? && b.ColumnValues?
    ensures HashInput(Endpoint(a), KeyParts(json, a)) == HashInput(Endpoint(b), KeyParts(json, b)) <==>
            && a.table == b.table && multiset(a.columns) == multiset(b.columns)
            && a.parameters == b.parameters && a.schemaContext == b.schemaContext && a.timeRange == b.timeRange
  {
    hide HashInput, KeyParts, Endpoint, ColumnValuesRest, NoOverlap, IsClean, IsJsonText, StartsLabel, IsPlain;
    ColumnValuesText(json, a);
    ColumnValuesText(json, b);
    var x, y := ColumnValuesRest(json, a), ColumnValuesRest(json, b);
    SamePrefix("columnValuestable", a.table + ("columns" + x), b.table + ("columns" + y));
    ColumnValuesRestIsClean(json, a);
    ColumnValuesRestIsClean(json, b);
    LabelsDoNotOverlap();
    DependencyLabel();
    LabelEndsText("columns", a.table, x, b.table, y);
    ColumnValuesRestContent(json, a, b);
  }

  // ----- all requests -----

  /** Requests for different endpoints never hash the same text, although the endpoint and the parts
      are hashed back to back without delimiters. */
  lemma EndpointsSeparate(json: CanonicalJson, a: Request, b: Request)
    requires HashInput(Endpoint(a), KeyParts(json, a)) == HashInput(Endpoint(b), KeyParts(json, b))
    ensures Endpoint(a) == Endpoint(b)
  {
    hide HashInput, KeyParts, Endpoint;
    Leads(json, a);
    Leads(json, b);
    EndpointsDiffer(a, b);
  }

  /** No endpoint name is a proper prefix of another. */
  lemma EndpointsDiffer(a: Request, b: Request)
    requires forall i :: 0 <= i < |Endpoint(a)| && i < |Endpoint(b)| ==> Endpoint(a)[i] == Endpoint(b)[i]
    ensures Endpoint(a) == Endpoint(b)
  {
    EndpointIsLong(a);
    EndpointIsLong(b);
    assert Endpoint(a)[0] == Endpoint(b)[0] && Endpoint(a)[2] == Endpoint(b)[2] && Endpoint(a)[5] == Endpoint(b)[5];
    assert |Endpoint(a)| > 6 && |Endpoint(b)| > 6 ==> Endpoint(a)[6] == Endpoint(b)[6];
  }

  lemma Leads(json: CanonicalJson, r: Request)
    ensures var s := HashInput(Endpoint(r), KeyParts(json, r));
            && |s| >= |Endpoint(r)| && |Endpoint(r)| >= 6
            && forall i :: 0 <= i < |Endpoint(r)| ==> s[i] == Endpoint(r)[i]
  {
    hide Concat, KeyParts;
    EndpointIsLong(r);
    StartsWith(Endpoint(r), Concat(KeyParts(json, r)));
  }

  lemma StartsWith(e: string, rest: string)
    ensures forall i :: 0 <= i < |e| ==> (e + rest)[i] == e[i]
  {
  }

  lemma EndpointIsLong(r: Request)
    ensures |Endpoint(r)| >= 6
  {
  }

  function RequestInput(json: CanonicalJson, scopeFor: string -> Scope, pc: PluginContext, r: Request): KeyInput {
    InputFor(json, pc, scopeFor(Endpoint(r)), r)
  }

  function InputFor(json: CanonicalJson, pc: PluginContext, scope: Scope, r: Request): KeyInput {
    KeyInput(pc, scope, Endpoint(r), KeyParts(json, r))
  }

  /** The two requests ask for the same, up to the order of tables or columns; for parameter values, the
      names read the same with the label between them. */
  ghost predicate SameContent(a: Request, b: Request) {
    match a
    case Columns(tables, parameters, context) =>
      b.Columns? && multiset(tables) == multiset(b.tables) && parameters == b.parameters && context == b.schemaContext
    case TableParameterValues(_, _, dependencies) =>
      b.TableParameterValues? && dependencies == b.dependencies && Names(a) == Names(b)
    case ColumnValues(table, columns, parameters, context, timeRange) =>
      && b.ColumnValues? && table == b.table && multiset(columns) == multiset(b.columns)
      && parameters == b.parameters && context == b.schemaContext && timeRange == b.timeRange
    case _ => a == b
  }

  lemma EndpointNames(a: Request, b: Request)
    ensures Endpoint(a) == Endpoint(b) <==>
            && a.FullSchema? == b.FullSchema? && a.Tables? == b.Tables? && a.Columns? == b.Columns?
            && a.TableParameterValues? == b.TableParameterValues? && a.ColumnValues? == b.ColumnValues?
  {
    assert "columns"[6] == 's' && "columnValues"[6] == 'V' && "tables"[5] == 's' && "tableParameterValues"[5] == 'P';
    assert "fullSchema"[1] == 'u' && "functions"[2] == 'n' && "fullSchema"[2] == 'l';
  }

  /** Two requests hash the same text exactly when they are for the same endpoint and content. */
  lemma ContentSeparates(json: CanonicalJson, a: Request, b: Request)
    requires EncodesJson(json)
    ensures HashInput(Endpoint(a), KeyParts(json, a)) == HashInput(Endpoint(b), KeyParts(json, b)) <==>
            SameContent(a, b)
  {
    hide HashInput, SelfDelimiting, IsJsonText, Names, Endpoint;
    if HashInput(Endpoint(a), KeyParts(json, a)) == HashInput(Endpoint(b), KeyParts(json, b)) {
      EndpointsSeparate(json, a, b);
    }
    EndpointNames(a, b);
    if a.Columns? && b.Columns? {
      ColumnsContentSeparates(json, a, b);
    } else if a.TableParameterValues? && b.TableParameterValues? {
      ParameterValuesContent(json, a, b);
    } else if a.ColumnValues? && b.ColumnValues? {
      ColumnValuesContentSeparates(json, a, b);
    }
  }

  /** The scope is chosen by endpoint, so two keys of different kinds are never equal: the key of a request
      from unambiguous fields determines, and is determined by, its tenant, datasource, user, endpoint and
      content. */
  lemma RequestKeysSeparate(sha: Hash, json: CanonicalJson, scopeFor: string -> Scope, pa: PluginContext, a: Request,
                            pb: PluginContext, b: Request)
    requires EncodesJson(json)
    requires var x, y := RequestInput(json, scopeFor, pa, a), RequestInput(json, scopeFor, pb, b);
             Problem(x).None? && Problem(y).None? && TrustedHash(sha, x, y) && !Ambiguous(FieldsOf(x))
    ensures var x, y := RequestInput(json, scopeFor, pa, a), RequestInput(json, scopeFor, pb, b);
            KeyText(sha, x) == KeyText(sha, y) <==>
            && pa.namespace == pb.namespace && pa.settings == pb.settings && pa.proxyHash == pb.proxyHash
            && SameUser(x, y) && SameContent(a, b)
  {
    hide KeyText, KeyParts, HashInput, SameUser, EncodesJson, TrustedHash, Ambiguous, SameContent, Problem;
    var x, y := RequestInput(json, scopeFor, pa, a), RequestInput(json, scopeFor, pb, b);
    ContentSeparates(json, a, b);
    if KeyText(sha, x) == KeyText(sha, y) {
      SameKeySameEndpoint(sha, json, x, a, y, b);
    } else if SameContent(a, b) {
      EndpointsSeparate(json, a, b);
    }
    if Endpoint(a) == Endpoint(b) {
      EqualKeysSeparate(sha, x, y);
    }
  }

  // ----- keys and refresh streams -----

  /** Requests with one key are for one endpoint, and so have one ttl, however confusable their fields. */
  lemma SameKeySameEndpoint(sha: Hash, json: CanonicalJson, x: KeyInput, a: Request, y: KeyInput, b: Request)
    requires x == InputFor(json, x.context, x.scope, a) && y == InputFor(json, y.context, y.scope, b)
    requires Problem(x).None? && Problem(y).None? && TrustedHash(sha, x, y)
    requires KeyText(sha, x) == KeyText(sha, y)
    ensures Endpoint(a) == Endpoint(b)
  {
    hide KeyParts, HashInput, Problem;
    SameKeySameBody(sha, x, y);
    EndpointsSeparate(json, a, b);
  }

  /** If the fields of one of them are unambiguous, they also belong to one refresh stream. */
  lemma SameKeySameStream(sha: Hash, json: CanonicalJson, x: KeyInput, a: Request, y: KeyInput, b: Request)
    requires x == InputFor(json, x.context, x.scope, a) && y == InputFor(json, y.context, y.scope, b)
    requires Problem(x).None? && Problem(y).None? && TrustedHash(sha, x, y)
    requires KeyText(sha, x) == KeyText(sha, y) && !Ambiguous(FieldsOf(x))
    ensures Bucket(x.context.namespace, Endpoint(a)) == Bucket(y.context.namespace, Endpoint(b))
  {
    hide KeyText, KeyParts, HashInput, Problem, Ambiguous;
    SameKeySameEndpoint(sha, json, x, a, y, b);
    SameKeySameNamespace(sha, x, y);
  }

  /** Otherwise they need not: a datasource whose UID holds the label of the datasource shares every key
      with one of another namespace, whose refreshes are limited apart from its own. */
  lemma OneKeyTwoStreams(sha: Hash, json: CanonicalJson, i: KeyInput, r: Request, u1: string, u2: string)
    requires i == InputFor(json, i.context, i.scope, r)
    requires Problem(i).None? && i.context.settings.value.uid == u1 + ("#dsuid:" + u2) && u2 != ""
    ensures var j := i.(context := i.context.(namespace := i.context.namespace + ("#dsuid:" + u1),
                                              settings := Some(i.context.settings.value.(uid := u2))));
            && Problem(j).None? && j == InputFor(json, j.context, j.scope, r)
            && KeyText(sha, i) == KeyText(sha, j)
            && Bucket(i.context.namespace, Endpoint(r)) != Bucket(j.context.namespace, Endpoint(r))
  {
    hide KeyText, KeyParts;
    LabelInUidConfuses(sha, i, u1, u2);
    NoBarInEndpoints(r);
    BucketIsInjective(i.context.namespace, Endpoint(r), i.context.namespace + ("#dsuid:" + u1), Endpoint(r));
  }

  lemma NoBarInEndpoints(r: Request)
    ensures '|' !in Endpoint(r)
  {
  }
}
