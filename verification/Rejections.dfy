/** Which error `Parse` reports: every rejected text is one of a few kinds of failed writing, the kind is
    unique, and it determines the error. The shapes are independent of the cursor. */
module Rejections {
  import opened Text
  import opened TableRefs
  import opened Parsing
  import opened Grammar

  // ----- shapes of failure -----

  /** No escaped text goes on like this: a lone or foreign backslash, or a reserved character that does
      not end the production. */
  predicate Spoils(bad: string, topLevel: bool) {
    && bad != ""
    && if bad[0] == '\\' then |bad| == 1 || !(bad[1] in {'(', ')', ',', '=', '\\'})
       else if topLevel then bad[0] in {')', ',', '='}
       else bad[0] == '('
  }

  function ProblemOf(bad: string): Problem
    requires bad != ""
  {
    if bad == "\\" then DanglingBackslash
    else if bad[0] == '\\' && |bad| > 1 then InvalidEscape(bad[1])
    else Unescaped(bad[0])
  }

  /** What stops the list at a pair. */
  datatype Fault =
    | KeySpoilt(beforeKey: string, text: string, bad: string)
    | KeyMissing(beforeKey: string, rest: string)
    | EqualsMissing(beforeKey: string, key: string, afterKey: string, rest: string)
    | ValueSpoilt(beforeKey: string, key: string, afterKey: string, beforeValue: string, text: string, bad: string)
    | KeyRepeated(pair: PairLayout, rest: string)
    | ListOpen(pair: PairLayout)
    | DataAfterList(pair: PairLayout, extra: string)
    | SecondEquals(pair: PairLayout, rest: string)

  datatype Failure =
    | TableSpoilt(text: string, bad: string)
    | TableMissing(rest: string)
    | DataAfterEmptyList(table: string, beforeOpen: string, inside: string, extra: string)
    | InList(table: string, beforeOpen: string, pairs: seq<PairLayout>, fault: Fault)

  predicate EndsText(rest: string) {
    rest == "" || rest[0] == ',' || rest[0] == '=' || rest[0] == ')'
  }

  predicate Unpadded(text: string) {
    text != "" ==> !IsBlank(text[0])
  }

  ghost predicate IsKey(beforeKey: string, key: string, afterKey: string) {
    Padding(beforeKey) && Padding(afterKey) && key != "" && Bare(key, IsBlank)
  }

  /** The fault as such, after pairs with these keys. */
  ghost predicate IsFault(f: Fault, keys: set<string>) {
    match f
    case KeySpoilt(before, text, bad) => Padding(before) && Unpadded(text) && Spoils(bad, false)
    case KeyMissing(before, rest) => Padding(before) && EndsText(rest)
    case EqualsMissing(before, key, after, rest) =>
      IsKey(before, key, after) && (rest == "" || rest[0] == ',' || rest[0] == ')')
    case ValueSpoilt(before, key, after, beforeValue, text, bad) =>
      IsKey(before, key, after) && Padding(beforeValue) && Unpadded(text) && Spoils(bad, false)
    case KeyRepeated(p, rest) => WellFormedPair(p) && p.key in keys && EndsText(rest)
    case ListOpen(p) => WellFormedPair(p) && p.key !in keys
    case DataAfterList(p, extra) => WellFormedPair(p) && p.key !in keys && extra != ""
    case SecondEquals(p, _) => WellFormedPair(p) && p.key !in keys
  }

  ghost function KeysOf(pairs: seq<PairLayout>): set<string> {
    set p | p in pairs :: p.key
  }

  ghost predicate IsFailure(f: Failure) {
    match f
    case TableSpoilt(_, bad) => Spoils(bad, true)
    case TableMissing(rest) => rest == "" || rest[0] == '('
    case DataAfterEmptyList(table, beforeOpen, inside, extra) =>
      IsTable(table, beforeOpen) && Padding(inside) && extra != ""
    case InList(table, beforeOpen, pairs, fault) =>
      && IsTable(table, beforeOpen)
      && (forall p :: p in pairs ==> WellFormedPair(p)) && DistinctKeys(pairs)
      && IsFault(fault, KeysOf(pairs))
      // Nothing but padding before the closing parenthesis is an empty list.
      && !(pairs == [] && fault.KeyMissing? && fault.rest != "" && fault.rest[0] == ')')
  }

  ghost predicate IsTable(table: string, beforeOpen: string) {
    table != "" && !IsBlank(table[|table| - 1]) && Padding(beforeOpen)
  }

  function RenderFault(f: Fault): string {
    match f
    case KeySpoilt(before, text, bad) => before + (Escape(text) + bad)
    case KeyMissing(before, rest) => before + rest
    case EqualsMissing(before, key, after, rest) => before + (Escape(key) + after + rest)
    case ValueSpoilt(before, key, after, beforeValue, text, bad) =>
      before + (Escape(key) + after + ("=" + (beforeValue + (Escape(text) + bad))))
    case KeyRepeated(p, rest) => RenderPair(p) + rest
    case ListOpen(p) => RenderPair(p) + ""
    case DataAfterList(p, extra) => RenderPair(p) + (")" + extra)
    case SecondEquals(p, rest) => RenderPair(p) + ("=" + rest)
  }

  /** Pairs that are each followed by a comma. */
  function RenderMore(pairs: seq<PairLayout>, rest: string): string {
    if pairs == [] then rest else RenderPair(pairs[0]) + ("," + RenderMore(pairs[1..], rest))
  }

  function RenderFailure(f: Failure): string {
    match f
    case TableSpoilt(text, bad) => Escape(text) + bad
    case TableMissing(rest) => rest
    case DataAfterEmptyList(table, beforeOpen, inside, extra) =>
      Escape(table) + beforeOpen + "(" + (inside + (")" + extra))
    case InList(table, beforeOpen, pairs, fault) =>
      Escape(table) + beforeOpen + "(" + RenderMore(pairs, RenderFault(fault))
  }

  function FaultError(f: Fault): ParseError
    requires (f.KeySpoilt? || f.ValueSpoilt?) ==> f.bad != ""
  {
    match f
    case KeySpoilt(_, _, bad) => Syntax(ProblemOf(bad))
    case KeyMissing(_, _) => Syntax(EmptyParameterKey)
    case EqualsMissing(_, _, _, _) => Syntax(ExpectedEquals)
    case ValueSpoilt(_, _, _, _, _, bad) => Syntax(ProblemOf(bad))
    case KeyRepeated(p, _) => DuplicateKey(p.key)
    case ListOpen(_) => Syntax(UnterminatedList)
    case DataAfterList(_, _) => Syntax(TrailingData)
    case SecondEquals(_, _) => Syntax(UnexpectedInList('='))
  }

  ghost function FailureError(f: Failure): ParseError
    requires IsFailure(f)
  {
    match f
    case TableSpoilt(_, bad) => Syntax(ProblemOf(bad))
    case TableMissing(_) => Syntax(EmptyTableName)
    case DataAfterEmptyList(_, _, _, _) => Syntax(TrailingData)
    case InList(_, _, _, fault) => FaultError(fault)
  }

  // ----- spoilt text -----

  lemma {:induction false} SpoiltTextFails(text: string, bad: string, topLevel: bool)
    requires Spoils(bad, topLevel)
    ensures ReadChars(Escape(text) + bad, topLevel) == Err(Syntax(ProblemOf(bad)))
  {
    if text == "" {
      assert Escape(text) + bad == bad;
    } else {
      var c, tail := text[0], text[1..];
      SpoiltTextFails(tail, bad, topLevel);
      ReadCharsStep(c, Escape(tail) + bad, topLevel);
      Associate(EscapeChar(c), Escape(tail), bad);
      assert text == [c] + tail;
    }
  }

  lemma {:induction false} FailedTextIsSpoilt(s: string, topLevel: bool) returns (text: string, bad: string)
    requires ReadChars(s, topLevel).Err?
    ensures s == Escape(text) + bad && Spoils(bad, topLevel)
    ensures ReadChars(s, topLevel) == Err(Syntax(ProblemOf(bad)))
  {
    hide Scan, Escape;
    var next := Scan(s, topLevel);
    if next.Decoded? {
      var tail := s[|EscapeChar(next.c)|..];
      var more;
      more, bad := FailedTextIsSpoilt(tail, topLevel);
      text := [next.c] + more;
      EscapeCons(next.c, more);
      DecodedFront(s, topLevel);
      Associate(EscapeChar(next.c), Escape(more), bad);
    } else {
      text, bad := "", s;
      NothingEscaped(bad);
      FailedScan(s, topLevel);
    }
  }

  lemma DecodedFront(s: string, topLevel: bool)
    requires Scan(s, topLevel).Decoded?
    ensures var c := Scan(s, topLevel).c; s == EscapeChar(c) + s[|EscapeChar(c)|..]
  {
  }

  lemma FailedScan(s: string, topLevel: bool)
    requires Scan(s, topLevel).Fail?
    ensures Spoils(s, topLevel) && Scan(s, topLevel) == Fail(ProblemOf(s))
  {
  }

  /** Padding in front of spoilt text is skipped. */
  lemma SkipToSpoilt(before: string, text: string, bad: string)
    requires Padding(before) && Unpadded(text) && Spoils(bad, false)
    ensures ReadChars(SkipBlanks(before + (Escape(text) + bad)), false) == Err(Syntax(ProblemOf(bad)))
  {
    var tail := Escape(text) + bad;
    if text == "" {
      assert tail == bad;
    } else {
      EscapeEnds(text);
      assert tail[0] == Escape(text)[0];
    }
    TrimLeftSplits(before + tail, before, tail, IsBlank);
    SpoiltTextFails(text, bad, false);
  }

  lemma SkippedSpoilt(s: string) returns (before: string, text: string, bad: string)
    requires ReadChars(SkipBlanks(s), false).Err?
    ensures Padding(before) && Unpadded(text) && Spoils(bad, false) && s == before + (Escape(text) + bad)
    ensures ReadChars(SkipBlanks(s), false) == Err(Syntax(ProblemOf(bad)))
  {
    var skipped;
    before, skipped := SkipWasWritten(s);
    text, bad := FailedTextIsSpoilt(skipped, false);
    if text != "" {
      EscapeEnds(text);
      assert skipped[0] == Escape(text)[0];
    }
  }

  // ----- failing pairs -----

  lemma KeyReads(before: string, key: string, after: string, rest: string)
    requires IsKey(before, key, after) && EndsText(rest)
    ensures var r := ReadChars(SkipBlanks(before + (Escape(key) + after + rest)), false);
            r.Ok? && TrimRight(r.value.text, IsBlank) == key && r.value.rest == rest
  {
    PaddedTextReads(before, key, after, rest);
  }

  /** The faults within a pair. */
  predicate WithinPair(f: Fault) {
    f.KeySpoilt? || f.KeyMissing? || f.EqualsMissing? || f.ValueSpoilt?
  }

  lemma FaultyPairFails(f: Fault, keys: set<string>)
    requires IsFault(f, keys) && WithinPair(f)
    ensures ParsePair(RenderFault(f)) == Err(FaultError(f))
  {
    hide ReadChars, Escape, TrimRight, SkipBlanks;
    match f
    case KeySpoilt(before, text, bad) =>
      SkipToSpoilt(before, text, bad);
    case KeyMissing(before, rest) =>
      EmptyTextReads(before, "", rest);
      assert "" + rest == rest;
      NothingToTrim();
    case EqualsMissing(before, key, after, rest) =>
      KeyReads(before, key, after, rest);
    case ValueSpoilt(before, key, after, beforeValue, text, bad) =>
      var rest := "=" + (beforeValue + (Escape(text) + bad));
      KeyReads(before, key, after, rest);
      assert rest[1..] == beforeValue + (Escape(text) + bad);
      SkipToSpoilt(beforeValue, text, bad);
  }

  lemma NothingToTrim()
    ensures TrimRight("", IsBlank) == ""
  {
  }

  lemma FailedPairIsFaulty(s: string, keys: set<string>) returns (f: Fault)
    requires ParsePair(s).Err?
    ensures IsFault(f, keys) && WithinPair(f) && RenderFault(f) == s && ParsePair(s) == Err(FaultError(f))
  {
    hide ReadChars, Escape, SkipBlanks, Spoils, TrimRight;
    if ReadChars(SkipBlanks(s), false).Err? {
      var before, text, bad := SkippedSpoilt(s);
      f := KeySpoilt(before, text, bad);
    } else {
      var before, key, after, rest := TextWasWritten(s);
      StopEndsText(SkipBlanks(s));
      if key == "" {
        f := MissingKey(s, before, after, rest);
      } else if rest == "" || rest[0] != '=' {
        f := EqualsMissing(before, key, after, rest);
      } else {
        var beforeValue, text, bad := SkippedSpoilt(rest[1..]);
        f := ValueSpoilt(before, key, after, beforeValue, text, bad);
        assert rest == "=" + rest[1..];
      }
    }
  }

  lemma StopEndsText(s: string)
    requires ReadChars(s, false).Ok?
    ensures EndsText(ReadChars(s, false).value.rest)
  {
    ReadCharsDecodes(s, false);
  }

  lemma MissingKey(s: string, before: string, after: string, rest: string) returns (f: Fault)
    requires Padding(before) && Padding(after) && EndsText(rest) && s == before + (Escape("") + after + rest)
    ensures f == KeyMissing(before + after, rest) && Padding(before + after) && RenderFault(f) == s
  {
    f := KeyMissing(before + after, rest);
    assert Escape("") + after + rest == after + rest;
  }

  // ----- failing lists -----

  lemma RestOf(p: PairLayout, rest: string)
    requires WellFormedPair(p) && EndsText(rest)
    ensures ParsePair(RenderPair(p) + rest) == Ok(Pair(p.key, p.value, rest))
  {
    PairReads(p, rest);
  }

  lemma FaultyListFails(f: Fault, acc: map<string, string>)
    requires IsFault(f, acc.Keys)
    ensures ParsePairs(RenderFault(f), acc) == Err(FaultError(f))
  {
    hide ParsePair, RenderPair, WellFormedPair;
    match f
    case KeyRepeated(p, rest) => RestOf(p, rest);
    case ListOpen(p) => RestOf(p, "");
    case DataAfterList(p, extra) => RestOf(p, ")" + extra);
    case SecondEquals(p, rest) => RestOf(p, "=" + rest);
    case _ => FaultyPairFails(f, acc.Keys);
  }

  /** The parameters read once the loop is past these pairs. */
  ghost function Added(pairs: seq<PairLayout>, acc: map<string, string>): map<string, string> {
    if pairs == [] then acc else Added(pairs[1..], acc[pairs[0].key := pairs[0].value])
  }

  ghost predicate AllNew(pairs: seq<PairLayout>, acc: map<string, string>) {
    DistinctKeys(pairs) && forall p :: p in pairs ==> WellFormedPair(p) && p.key !in acc
  }

  lemma AllNewTail(pairs: seq<PairLayout>, acc: map<string, string>)
    requires pairs != [] && AllNew(pairs, acc)
    ensures WellFormedPair(pairs[0]) && pairs[0].key !in acc
    ensures AllNew(pairs[1..], acc[pairs[0].key := pairs[0].value])
  {
    var acc' := acc[pairs[0].key := pairs[0].value];
    assert pairs[0] in pairs;
    forall p | p in pairs[1..] ensures WellFormedPair(p) && p.key !in acc' {
      var i :| 0 <= i < |pairs| - 1 && pairs[1..][i] == p;
      assert pairs[i + 1] == p && pairs[0].key != pairs[i + 1].key;
    }
  }

  lemma AllNewCons(p: PairLayout, pairs: seq<PairLayout>, acc: map<string, string>)
    requires WellFormedPair(p) && p.key !in acc && AllNew(pairs, acc[p.key := p.value])
    ensures AllNew([p] + pairs, acc)
  {
    var all := [p] + pairs;
    forall q | q in all ensures WellFormedPair(q) && q.key !in acc {
      assert q == p || q in pairs;
    }
    forall i, j | 0 <= i < j < |all| ensures all[i].key != all[j].key {
      assert all[j] == pairs[j - 1] && pairs[j - 1] in pairs;
    }
  }

  lemma {:induction false} AddedKeys(pairs: seq<PairLayout>, acc: map<string, string>)
    ensures Added(pairs, acc).Keys == acc.Keys + KeysOf(pairs)
  {
    if pairs != [] {
      AddedKeys(pairs[1..], acc[pairs[0].key := pairs[0].value]);
      assert pairs == [pairs[0]] + pairs[1..];
      assert KeysOf(pairs) == {pairs[0].key} + KeysOf(pairs[1..]);
    }
  }

  /** Good pairs are passed over. */
  lemma {:induction false} PairsArePassed(pairs: seq<PairLayout>, rest: string, acc: map<string, string>)
    requires AllNew(pairs, acc)
    ensures ParsePairs(RenderMore(pairs, rest), acc) == ParsePairs(rest, Added(pairs, acc))
  {
    hide ParsePair, RenderPair, WellFormedPair, AllNew;
    if pairs != [] {
      AllNewTail(pairs, acc);
      var more := "," + RenderMore(pairs[1..], rest);
      RestOf(pairs[0], more);
      assert more[1..] == RenderMore(pairs[1..], rest);
      PairsArePassed(pairs[1..], rest, acc[pairs[0].key := pairs[0].value]);
    }
  }

  lemma {:induction false} FailedListIsFaulty(s: string, acc: map<string, string>)
    returns (pairs: seq<PairLayout>, f: Fault)
    requires ParsePairs(s, acc).Err?
    ensures AllNew(pairs, acc) && IsFault(f, Added(pairs, acc).Keys) && s == RenderMore(pairs, RenderFault(f))
    ensures ParsePairs(s, acc) == Err(FaultError(f))
    decreases |s|
  {
    hide ParsePair, RenderPair, WellFormedPair, AllNew, DistinctKeys;
    NoPairs(acc);
    if ParsePair(s).Err? {
      pairs := [];
      f := FailedPairIsFaulty(s, acc.Keys);
    } else {
      var p := PairWasWritten(s);
      var rest := ParsePair(s).value.rest;
      if p.key !in acc && rest != "" && rest[0] == ',' {
        var more;
        more, f := FailedListIsFaulty(rest[1..], acc[p.key := p.value]);
        pairs := [p] + more;
        AllNewCons(p, more, acc);
        assert pairs[1..] == more;
        assert rest == "," + rest[1..];
      } else {
        pairs := [];
        f := FaultAt(p, rest, acc.Keys);
      }
    }
  }

  lemma NoPairs(acc: map<string, string>)
    ensures AllNew([], acc)
  {
  }

  lemma FaultAt(p: PairLayout, rest: string, keys: set<string>) returns (f: Fault)
    requires WellFormedPair(p) && EndsText(rest) && (p.key in keys || rest == "" || rest[0] != ',')
    requires p.key !in keys ==> rest != ")"
    ensures IsFault(f, keys) && !WithinPair(f) && RenderFault(f) == RenderPair(p) + rest
    ensures FaultError(f) ==
            if p.key in keys then DuplicateKey(p.key)
            else if rest == "" then Syntax(UnterminatedList)
            else if rest[0] == ')' then Syntax(TrailingData)
            else Syntax(UnexpectedInList('='))
  {
    hide RenderPair, WellFormedPair;
    assert rest != "" ==> rest == [rest[0]] + rest[1..];
    f := if p.key in keys then KeyRepeated(p, rest)
         else if rest == "" then ListOpen(p)
         else if rest[0] == ')' then DataAfterList(p, rest[1..])
         else SecondEquals(p, rest[1..]);
  }

  // ----- failing references -----

  lemma FaultyParamsFail(pairs: seq<PairLayout>, f: Fault)
    requires (forall p :: p in pairs ==> WellFormedPair(p)) && DistinctKeys(pairs) && IsFault(f, KeysOf(pairs))
    requires !(pairs == [] && f.KeyMissing? && f.rest != "" && f.rest[0] == ')')
    ensures ParseParams("(" + RenderMore(pairs, RenderFault(f))) == Err(FaultError(f))
  {
    hide ParsePairs, RenderFault, IsFault;
    var body := RenderMore(pairs, RenderFault(f));
    assert ("(" + body)[1..] == body;
    BodyDoesNotClose(pairs, f);
    SkippingTwice(body);
    PairsArePassed(pairs, RenderFault(f), map[]);
    AddedKeys(pairs, map[]);
    assert Added(pairs, map[]).Keys == KeysOf(pairs);
    FaultyListFails(f, Added(pairs, map[]));
  }

  /** The text behind the opening parenthesis is not that of an empty list. */
  lemma BodyDoesNotClose(pairs: seq<PairLayout>, f: Fault)
    requires (forall p :: p in pairs ==> WellFormedPair(p)) && IsFault(f, KeysOf(pairs))
    requires !(pairs == [] && f.KeyMissing? && f.rest != "" && f.rest[0] == ')')
    ensures var body := SkipBlanks(RenderMore(pairs, RenderFault(f))); body == "" || body[0] != ')'
  {
    if pairs != [] {
      assert pairs[0] in pairs;
      PairDoesNotClose(pairs[0], "," + RenderMore(pairs[1..], RenderFault(f)));
    } else {
      FaultDoesNotClose(f, {});
    }
  }

  lemma TextDoesNotClose(before: string, text: string, rest: string)
    requires Padding(before) && Unpadded(text) && (text == "" ==> rest == "" || (rest[0] != ')' && !IsBlank(rest[0])))
    ensures var body := SkipBlanks(before + (Escape(text) + rest)); body == "" || body[0] != ')'
  {
    var tail := Escape(text) + rest;
    if text != "" {
      EscapeEnds(text);
      assert tail[0] == Escape(text)[0];
    } else {
      assert tail == rest;
    }
    TrimLeftSplits(before + tail, before, tail, IsBlank);
  }

  lemma PairDoesNotClose(p: PairLayout, rest: string)
    requires WellFormedPair(p)
    ensures var body := SkipBlanks(RenderPair(p) + rest); body == "" || body[0] != ')'
  {
    hide Escape, RenderValue, SkipBlanks;
    var more := "=" + (RenderValue(p) + rest);
    NestPair(p.beforeKey, Escape(p.key) + p.afterKey, RenderValue(p), rest);
    Associate(Escape(p.key), p.afterKey, more);
    TextDoesNotClose(p.beforeKey, p.key, p.afterKey + more);
  }

  lemma FaultDoesNotClose(f: Fault, keys: set<string>)
    requires IsFault(f, keys) && !(f.KeyMissing? && f.rest != "" && f.rest[0] == ')')
    ensures var body := SkipBlanks(RenderFault(f)); body == "" || body[0] != ')'
  {
    hide SkipBlanks, Escape, RenderPair;
    match f
    case KeySpoilt(before, text, bad) => TextDoesNotClose(before, text, bad);
    case KeyMissing(before, rest) =>
      TextDoesNotClose(before, "", rest);
      NothingEscaped(rest);
    case EqualsMissing(before, key, after, rest) =>
      TextDoesNotClose(before, key, after + rest);
      Associate(Escape(key), after, rest);
    case ValueSpoilt(before, key, after, beforeValue, text, bad) =>
      var rest := "=" + (beforeValue + (Escape(text) + bad));
      TextDoesNotClose(before, key, after + rest);
      Associate(Escape(key), after, rest);
    case KeyRepeated(p, rest) => PairDoesNotClose(p, rest);
    case ListOpen(p) => PairDoesNotClose(p, "");
    case DataAfterList(p, extra) => PairDoesNotClose(p, ")" + extra);
    case SecondEquals(p, rest) => PairDoesNotClose(p, "=" + rest);
  }

  lemma NothingEscaped(rest: string)
    ensures Escape("") + rest == rest
  {
  }

  /** Every failed writing is rejected with its error. */
  lemma FailureIsRejected(f: Failure)
    requires IsFailure(f)
    ensures ParseTrimmed(RenderFailure(f)) == Err(FailureError(f))
  {
    hide ParseParams, RenderMore, RenderFault, Escape, ReadChars, IsFault, WellFormedPair, DistinctKeys;
    match f
    case TableSpoilt(text, bad) =>
      SpoiltTextFails(text, bad, true);
    case TableMissing(rest) =>
      ReadCharsReads("", rest, true);
      NothingEscaped(rest);
      NothingToTrim();
    case DataAfterEmptyList(table, beforeOpen, inside, extra) =>
      ParamsFollow(table, beforeOpen, inside + (")" + extra));
      EmptyListTrails(inside, extra);
    case InList(table, beforeOpen, pairs, fault) =>
      ParamsFollow(table, beforeOpen, RenderMore(pairs, RenderFault(fault)));
      FaultyParamsFail(pairs, fault);
  }

  lemma EmptyListTrails(inside: string, extra: string)
    requires Padding(inside) && extra != ""
    ensures ParseParams("(" + (inside + (")" + extra))) == Err(Syntax(TrailingData))
  {
    assert ("(" + (inside + (")" + extra)))[1..] == inside + (")" + extra);
    TrimLeftSplits(inside + (")" + extra), inside, ")" + extra, IsBlank);
  }

  /** Every rejected text is a failed writing with that error. */
  lemma RejectedIsAFailure(s: string) returns (f: Failure)
    requires ParseTrimmed(s).Err? && Bare(s, IsSpace)
    ensures IsFailure(f) && RenderFailure(f) == s && ParseTrimmed(s) == Err(FailureError(f))
  {
    hide ParseParams, Escape, ReadChars, TrimRight, IsFault, WellFormedPair, DistinctKeys;
    if ReadChars(s, true).Err? {
      var text, bad := FailedTextIsSpoilt(s, true);
      f := TableSpoilt(text, bad);
    } else {
      var table, beforeOpen, rest := TableWasWritten(s);
      if table == "" {
        NoTablePadding(s, table, beforeOpen, rest);
        f := TableMissing(rest);
      } else {
        NoListIsFine();
        f := FailedParams(table, beforeOpen, rest);
      }
    }
  }

  lemma NoListIsFine()
    ensures ParseParams("") == Ok(map[])
  {
  }

  lemma NoTablePadding(s: string, table: string, beforeOpen: string, rest: string)
    requires table == "" && Padding(beforeOpen) && s == Escape(table) + beforeOpen + rest && Bare(s, IsSpace)
    ensures s == rest
  {
    assert s == beforeOpen + rest;
    PaddingInFront(beforeOpen, rest);
  }

  lemma PaddingInFront(pad: string, rest: string)
    requires Padding(pad)
    ensures pad == "" || IsBlank((pad + rest)[0])
  {
  }

  lemma FailedParams(table: string, beforeOpen: string, rest: string) returns (f: Failure)
    requires IsTable(table, beforeOpen) && rest != "" && rest[0] == '(' && ParseParams(rest).Err?
    ensures IsFailure(f) && RenderFailure(f) == Escape(table) + beforeOpen + rest
    ensures Err(FailureError(f)) == ParseParams(rest)
  {
    hide ParsePairs, Escape, RenderMore, RenderFault, SkipBlanks, IsFault, WellFormedPair;
    assert rest == "(" + rest[1..];
    Associate(Escape(table) + beforeOpen, "(", rest[1..]);
    var inside, body := SkipWasWritten(rest[1..]);
    if body != "" && body[0] == ')' {
      f := DataAfterEmptyList(table, beforeOpen, inside, body[1..]);
      assert body == ")" + body[1..];
    } else {
      SkippingTwice(rest[1..]);
      var pairs, fault := FailedListIsFaulty(rest[1..], map[]);
      AddedKeys(pairs, map[]);
      assert Added(pairs, map[]).Keys == KeysOf(pairs);
      if pairs == [] {
        NotAnEmptyList(fault, Added(pairs, map[]).Keys, rest[1..]);
      }
      f := InList(table, beforeOpen, pairs, fault);
    }
  }

  lemma NotAnEmptyList(f: Fault, keys: set<string>, s: string)
    requires IsFault(f, keys) && RenderMore([], RenderFault(f)) == s
    requires var body := SkipBlanks(s); body == "" || body[0] != ')'
    ensures !(f.KeyMissing? && f.rest != "" && f.rest[0] == ')')
  {
    if f.KeyMissing? && f.rest != "" && f.rest[0] == ')' {
      TrimLeftSplits(s, f.beforeKey, f.rest, IsBlank);
    }
  }

  // ----- the theorem -----

  ghost predicate FailsWith(f: Failure, text: string, e: ParseError) {
    IsFailure(f) && RenderFailure(f) == text && FailureError(f) == e
  }

  /** `Parse` reports an error exactly when the trimmed text is a failed writing of that kind. */
  lemma RejectsExactly(s: string, e: ParseError)
    ensures Parsed(s) == Err(e) <==> exists f :: FailsWith(f, TrimSpace(s), e)
  {
    hide ParseTrimmed, TrimSpace, IsFailure, RenderFailure;
    TrimSpaceIsBare(s);
    if Parsed(s) == Err(e) {
      var f := RejectedIsAFailure(TrimSpace(s));
      assert FailsWith(f, TrimSpace(s), e);
    }
    if f :| FailsWith(f, TrimSpace(s), e) {
      FailureIsRejected(f);
    }
  }

  /** The key that is reported is one that stands in the list before: `table(` and well-formed pairs with
      different keys, then one more with a key among them, whatever follows its value. */
  lemma DuplicateKeyIsReported(s: string, key: string)
    ensures Parsed(s) == Err(DuplicateKey(key)) <==>
            exists f :: FailsWith(f, TrimSpace(s), DuplicateKey(key)) && f.InList? && f.fault.KeyRepeated? &&
                        f.fault.pair.key == key && key in KeysOf(f.pairs)
  {
    hide Parsed, TrimSpace, RenderFailure;
    RejectsExactly(s, DuplicateKey(key));
    if Parsed(s) == Err(DuplicateKey(key)) {
      var f :| FailsWith(f, TrimSpace(s), DuplicateKey(key));
      assert f.InList? && f.fault.KeyRepeated?;
    }
  }
}
