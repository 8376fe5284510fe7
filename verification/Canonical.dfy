/** Round trips and the canonical form: tables/tables.go, `String` against `Parse`, `Canonicalize`. */
module Canonical {
  import opened Text
  import opened TableRefs
  import opened Parsing
  import opened Grammar

  // ----- round trip -----

  /** What every parsed reference satisfies. */
  ghost predicate Readable(ref: TableRef) {
    && ref.table != "" && !IsSpace(ref.table[0]) && !IsBlank(ref.table[|ref.table| - 1])
    && forall k :: k in ref.params ==> k != "" && Bare(k, IsBlank) && Bare(ref.params[k], IsBlank)
  }

  /** The references that survive printing and parsing; a caller can check this before the call. */
  ghost predicate RoundTrips(ref: TableRef) {
    Readable(ref) && (ref.params == map[] ==> !IsSpace(ref.table[|ref.table| - 1]))
  }

  ghost function PlainPairs(keys: seq<string>, m: map<string, string>): (pairs: seq<PairLayout>)
    requires forall k :: k in keys ==> k in m
    ensures |pairs| == |keys|
  {
    seq(|keys|, i requires 0 <= i < |keys| => PairLayout("", keys[i], "", "", m[keys[i]], ""))
  }

  lemma {:induction false} PlainPairsRender(keys: seq<string>, m: map<string, string>)
    requires keys != [] && forall k :: k in keys ==> k in m
    ensures RenderPairs(PlainPairs(keys, m)) == EncodePairs(keys, m)
  {
    var pairs := PlainPairs(keys, m);
    var k, v := keys[0], m[keys[0]];
    assert RenderValue(pairs[0]) == Escape(v);
    assert RenderPair(pairs[0]) == EncodePair(k, v);
    if |keys| > 1 {
      assert pairs[1..] == PlainPairs(keys[1..], m);
      PlainPairsRender(keys[1..], m);
    }
  }

  /** The encoder writes one of the layouts of the reference: no padding, keys in order. */
  lemma EncodeIsALayout(ref: TableRef) returns (lay: Layout)
    requires Readable(ref)
    ensures Writes(lay, Encode(ref), ref)
  {
    hide Escape;
    if ref.params == map[] {
      lay := NoList(ref.table);
    } else {
      lay := EncodedListIsALayout(ref);
    }
  }

  lemma EncodedListIsALayout(ref: TableRef) returns (lay: Layout)
    requires Readable(ref) && ref.params != map[]
    ensures Writes(lay, Encode(ref), ref)
  {
    hide EncodePairs, RenderPairs, Escape, SortedKeys, PlainPairs;
    var keys := SortedKeys(ref.params.Keys);
    SortedKeysHasAll(ref.params.Keys);
    SortedKeysNonEmpty(ref.params);
    SortedKeysAreDistinct(ref.params);
    var pairs := PlainPairs(keys, ref.params);
    PlainPairsRender(keys, ref.params);
    PlainPairsList(keys, ref.params);
    lay := List(ref.table, "", pairs);
    Associate(Escape(ref.table), "(", EncodePairs(keys, ref.params));
    assert Escape(ref.table) + "" == Escape(ref.table);
  }

  lemma PlainPairsList(keys: seq<string>, m: map<string, string>)
    requires forall k :: k in keys <==> k in m
    requires forall i, j :: 0 <= i < j < |keys| ==> keys[i] != keys[j]
    ensures Lists(PlainPairs(keys, m), m)
    ensures (forall k :: k in keys ==> k != "" && Bare(k, IsBlank) && Bare(m[k], IsBlank)) ==>
              forall p :: p in PlainPairs(keys, m) ==> WellFormedPair(p)
  {
    var pairs := PlainPairs(keys, m);
    forall k | k in m ensures exists i :: 0 <= i < |pairs| && pairs[i].key == k {
      var i :| 0 <= i < |keys| && keys[i] == k;
      assert pairs[i].key == k;
    }
  }

  /** The encoding starts as the table name does and ends in it or in a parenthesis. */
  lemma EncodeIsBare(ref: TableRef)
    requires RoundTrips(ref)
    ensures Bare(Encode(ref), IsSpace)
  {
    hide Escape, EncodeParams;
    EscapeEnds(ref.table);
    var s := Encode(ref);
    assert s[0] == Escape(ref.table)[0];
    if ref.params != map[] {
      EncodeParamsCloses(ref.params);
      assert s[|s| - 1] == ')';
    }
  }

  lemma EncodeParamsCloses(m: map<string, string>)
    requires m != map[]
    ensures var s := EncodeParams(m); s != "" && s[|s| - 1] == ')'
  {
    hide EncodePairs, SortedKeys;
    SortedKeysHasAll(m.Keys);
    SortedKeysNonEmpty(m);
    EncodePairsCloses(SortedKeys(m.Keys), m);
  }

  lemma {:induction false} EncodePairsCloses(keys: seq<string>, m: map<string, string>)
    requires keys != [] && forall k :: k in keys ==> k in m
    ensures var s := EncodePairs(keys, m); s != "" && s[|s| - 1] == ')'
  {
    if |keys| > 1 {
      EncodePairsCloses(keys[1..], m);
    }
  }

  lemma TrimLeftOfEscape(t: string)
    ensures TrimLeft(Escape(t), IsSpace) == Escape(TrimLeft(t, IsSpace))
  {
    hide Escape, TrimLeft;
    var left := TrimLeft(t, IsSpace);
    var before := t[..|t| - |left|];
    assert t == before + left;
    EscapeAppend(before, left);
    EscapePlain(before);
    EndsOfEscape(left);
    TrimLeftSplits(Escape(t), before, Escape(left), IsSpace);
  }

  lemma TrimRightOfEscape(t: string)
    ensures TrimRight(Escape(t), IsSpace) == Escape(TrimRight(t, IsSpace))
  {
    hide Escape, TrimRight;
    var kept := TrimRight(t, IsSpace);
    var after := t[|kept|..];
    assert t == kept + after;
    EscapeAppend(kept, after);
    EscapePlain(after);
    EndsOfEscape(kept);
    TrimRightSplits(Escape(t), Escape(kept), after, IsSpace);
  }

  lemma EndsOfEscape(s: string)
    ensures Escape(s) == "" <==> s == ""
    ensures s != "" && !IsSpace(s[0]) ==> !IsSpace(Escape(s)[0])
    ensures s != "" && !IsSpace(s[|s| - 1]) ==> !IsSpace(Escape(s)[|Escape(s)| - 1])
  {
    if s != "" {
      EscapeEnds(s);
    }
  }

  /** Trimming commutes with escaping, since no space is reserved. */
  lemma TrimSpaceOfEscape(t: string)
    ensures TrimSpace(Escape(t)) == Escape(TrimSpace(t))
  {
    TrimLeftOfEscape(t);
    TrimRightOfEscape(TrimLeft(t, IsSpace));
  }

  /** Without parameters, all that parsing can lose is Unicode space at the ends of the name. */
  lemma BareTableParses(table: string)
    requires TrimSpace(table) != ""
    ensures Parsed(Escape(table)) == Ok(TableRef(TrimSpace(table), map[]))
    ensures RoundTrips(TableRef(TrimSpace(table), map[]))
  {
    hide Escape, TrimSpace, ParseTrimmed;
    TrimSpaceOfEscape(table);
    TrimSpaceIsBare(table);
    NothingFollows(TrimSpace(table));
  }

  lemma ParsedIsReadable(s: string)
    requires Parsed(s).Ok?
    ensures Readable(Parsed(s).value)
  {
    hide Parsed, TrimSpace, Escape, RenderPairs;
    var ref, text := Parsed(s).value, TrimSpace(s);
    ParsesExactlyTheGrammar(s, ref);
    TrimSpaceIsBare(s);
    var lay :| Writes(lay, text, ref);
    EscapeEnds(lay.table);
    assert text[0] == Escape(lay.table)[0];
    if lay.List? {
      forall k | k in ref.params ensures k != "" && Bare(k, IsBlank) && Bare(ref.params[k], IsBlank) {
        var i :| 0 <= i < |lay.pairs| && lay.pairs[i].key == k;
        assert WellFormedPair(lay.pairs[i]);
      }
    }
  }

  /** Printing and parsing is the identity on exactly the references that `RoundTrips` describes. */
  lemma RoundTrip(ref: TableRef)
    ensures Parsed(Encode(ref)) == Ok(ref) <==> RoundTrips(ref)
  {
    hide Parsed, TrimSpace, Encode, Writes, Bare;
    if RoundTrips(ref) {
      var lay := EncodeIsALayout(ref);
      EncodeIsBare(ref);
      TrimSpaceKeepsBare(Encode(ref));
      ParsesExactlyTheGrammar(Encode(ref), ref);
    }
    if Parsed(Encode(ref)) == Ok(ref) {
      ParsedIsReadable(Encode(ref));
      if ref.params == map[] {
        NoParametersToEncode(ref);
        FirstKept(ref.table);
        BareTableParses(ref.table);
      }
    }
  }

  lemma NoParametersToEncode(ref: TableRef)
    requires ref.params == map[]
    ensures Encode(ref) == Escape(ref.table)
  {
    hide Escape;
  }

  lemma FirstKept(t: string)
    requires t != "" && !IsSpace(t[0])
    ensures TrimSpace(t) != ""
    ensures TrimSpace(t) == t <==> !IsSpace(t[|t| - 1])
  {
    assert TrimLeft(t, IsSpace) == t;
    TrimRightKeepsFirst(t, IsSpace);
  }

  lemma {:induction false} TrimRightKeepsFirst(s: string, p: char -> bool)
    requires s != "" && !p(s[0])
    ensures TrimRight(s, p) != ""
  {
    if p(s[|s| - 1]) {
      TrimRightKeepsFirst(s[..|s| - 1], p);
    }
  }

  // ----- injectivity -----

  lemma {:induction false} PairsAreDecodable(ks: seq<string>, m: map<string, string>, ks': seq<string>,
                                             m': map<string, string>)
    requires ks != [] && forall k :: k in ks ==> k in m
    requires ks' != [] && forall k :: k in ks' ==> k in m'
    requires EncodePairs(ks, m) == EncodePairs(ks', m')
    ensures ks == ks' && forall k :: k in ks ==> m[k] == m'[k]
  {
    hide ReadChars, EncodePairs;
    var k, v, rest := SplitPair(ks, m);
    var k', v', rest' := SplitPair(ks', m');
    assert k == k' && v == v' && rest == rest';
    assert |ks| == 1 <==> rest[0] == ')';
    assert |ks'| == 1 <==> rest'[0] == ')';
    assert ks == [k] + ks[1..] && ks' == [k] + ks'[1..];
    if |ks| > 1 {
      assert rest[1..] == EncodePairs(ks[1..], m) && rest'[1..] == EncodePairs(ks'[1..], m');
      PairsAreDecodable(ks[1..], m, ks'[1..], m');
    }
  }

  /** Reading the first pair back off its encoding, as the parser would. */
  lemma SplitPair(ks: seq<string>, m: map<string, string>) returns (k: string, v: string, rest: string)
    requires ks != [] && forall k :: k in ks ==> k in m
    ensures k == ks[0] && v == m[k] && rest == if |ks| == 1 then ")" else "," + EncodePairs(ks[1..], m)
    ensures var r := ReadChars(EncodePairs(ks, m), false);
            && r.Ok? && r.value.text == k && r.value.rest != ""
            && ReadChars(r.value.rest[1..], false) == Ok(Read(v, rest))
  {
    k, v := ks[0], m[ks[0]];
    rest := if |ks| == 1 then ")" else "," + EncodePairs(ks[1..], m);
    NestPlainPair(Escape(k), Escape(v), rest);
    ReadCharsReads(k, "=" + (Escape(v) + rest), false);
    assert ("=" + (Escape(v) + rest))[1..] == Escape(v) + rest;
    ReadCharsReads(v, rest, false);
  }

  lemma NestPlainPair(a: string, b: string, c: string)
    ensures a + "=" + b + c == a + ("=" + (b + c))
  {
  }

  lemma EncodeParamsIsInjective(m: map<string, string>, m': map<string, string>)
    requires m != map[] && m' != map[] && EncodeParams(m) == EncodeParams(m')
    ensures m == m'
  {
    SortedKeysHasAll(m.Keys);
    SortedKeysHasAll(m'.Keys);
    SortedKeysNonEmpty(m);
    SortedKeysNonEmpty(m');
    var ks, ks' := SortedKeys(m.Keys), SortedKeys(m'.Keys);
    assert EncodeParams(m)[1..] == EncodePairs(ks, m) && EncodeParams(m')[1..] == EncodePairs(ks', m');
    PairsAreDecodable(ks, m, ks', m');
    SameMaps(ks, m, m');
  }

  lemma SameMaps(ks: seq<string>, m: map<string, string>, m': map<string, string>)
    requires forall k :: k in m <==> k in ks
    requires forall k :: k in m' <==> k in ks
    requires forall k :: k in ks ==> m[k] == m'[k]
    ensures m == m'
  {
    assert forall k :: k in m <==> k in m';
  }

  /** No two references print the same: the escaping is uniquely decodable and the order fixed. */
  lemma EncodeIsInjective(a: TableRef, b: TableRef)
    requires Encode(a) == Encode(b)
    ensures a == b
  {
    var restA := if a.params == map[] then "" else EncodeParams(a.params);
    var restB := if b.params == map[] then "" else EncodeParams(b.params);
    ReadCharsReads(a.table, restA, true);
    ReadCharsReads(b.table, restB, true);
    if a.params != map[] {
      EncodeParamsIsInjective(a.params, b.params);
    }
  }

  // ----- Canonicalize -----

  ghost function Canonical(s: string): Result<string, ParseError> {
    var ref := Parsed(s);
    if ref.Err? then Err(ref.error) else Ok(Encode(ref.value))
  }

  method Canonicalize(s: string) returns (r: Result<string, ParseError>)
    ensures r == Canonical(s)
  {
    var ref := Parse(s);
    if ref.Err? {
      return Err(ref.error);
    }
    var text := String(ref.value);
    return Ok(text);
  }

  /** Two accepted inputs have the same canonical form exactly when they mean the same reference. */
  lemma CanonicalFormDecidesEquality(a: string, b: string)
    requires Parsed(a).Ok? && Parsed(b).Ok?
    ensures Canonical(a) == Canonical(b) <==> Parsed(a) == Parsed(b)
  {
    if Canonical(a) == Canonical(b) {
      EncodeIsInjective(Parsed(a).value, Parsed(b).value);
    }
  }

  lemma CanonicalOfCanonical(ref: TableRef)
    requires RoundTrips(ref)
    ensures Canonical(Encode(ref)) == Ok(Encode(ref))
  {
    RoundTrip(ref);
  }

  /** Without parameters a trailing Unicode space is lost on the second application, and only then. */
  lemma CanonicalTrimsTheName(ref: TableRef)
    requires Readable(ref) && ref.params == map[]
    ensures var trimmed := TableRef(TrimSpace(ref.table), map[]);
            && RoundTrips(trimmed) && Canonical(Encode(ref)) == Ok(Encode(trimmed))
            && (trimmed == ref <==> !IsSpace(ref.table[|ref.table| - 1]))
  {
    hide Parsed, TrimSpace, Encode;
    NoParametersToEncode(ref);
    FirstKept(ref.table);
    BareTableParses(ref.table);
  }

  ghost predicate EndsInSpace(t: string) {
    t != "" && IsSpace(t[|t| - 1])
  }

  /** One application is a fixed point exactly when the reference has parameters or its table name
      ends outside Unicode space; the second application is one always. `events\n()` needs both. */
  lemma CanonicalFormStabilises(s: string, ref: TableRef, once: string, twice: string)
    requires Parsed(s) == Ok(ref)
    requires Canonical(s) == Ok(once) && Canonical(once) == Ok(twice)
    ensures twice == once <==> ref.params != map[] || !EndsInSpace(ref.table)
    ensures Canonical(twice) == Ok(twice)
  {
    hide Parsed, Encode, RoundTrips;
    ParsedIsReadable(s);
    if ref.params != map[] {
      CanonicalOfCanonical(ref);
    } else {
      var trimmed := TableRef(TrimSpace(ref.table), map[]);
      CanonicalTrimsTheName(ref);
      CanonicalOfCanonical(trimmed);
      if Encode(trimmed) == Encode(ref) {
        EncodeIsInjective(trimmed, ref);
      }
    }
  }

  /** Every canonical form is accepted again. */
  lemma CanonicalFormIsAccepted(s: string)
    requires Parsed(s).Ok?
    ensures Canonical(Encode(Parsed(s).value)).Ok?
  {
    hide Parsed, Encode;
    var ref := Parsed(s).value;
    ParsedIsReadable(s);
    if ref.params != map[] {
      CanonicalOfCanonical(ref);
    } else {
      CanonicalTrimsTheName(ref);
    }
  }

  /** A newline before the table name is printed but not read back. */
  lemma LeadingNewlineIsLost()
    ensures Parsed(Encode(TableRef("\nevents", map[]))) != Ok(TableRef("\nevents", map[]))
  {
    RoundTrip(TableRef("\nevents", map[]));
  }

  lemma NewlineBeforeEmptyList()
    ensures Parsed("events\n()") == Ok(TableRef("events\n", map[]))
  {
    hide Parsed, TrimSpace, Escape;
    var table, text := "events\n", "events\n()";
    EscapePlain(table);
    var lay := EmptyList(table, "", "");
    assert Render(lay) == text;
    TrimSpaceKeepsBare(text);
    ParsesExactlyTheGrammar(text, TableRef(table, map[]));
    assert Writes(lay, TrimSpace(text), TableRef(table, map[]));
  }

  /** A newline after the table name survives one canonicalisation but not two. */
  lemma TrailingNewlineIsLostLate(once: string)
    requires Canonical("events\n()") == Ok(once)
    ensures Canonical(once).Ok? && Canonical(once) != Ok(once)
  {
    hide Parsed, Encode;
    NewlineBeforeEmptyList();
    CanonicalFormIsAccepted("events\n()");
    CanonicalFormStabilises("events\n()", TableRef("events\n", map[]), once, Canonical(once).value);
  }
}
