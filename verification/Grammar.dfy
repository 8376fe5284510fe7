/** The reference grammar of tables/doc.go as a set of layouts, independent of the cursor, and the
    proof that `Parse` accepts exactly the rendered layouts and returns what they mean. */
module Grammar {
  import opened Text
  import opened TableRefs
  import opened Parsing

  /** One written pair with the padding its author put around the key and the value. */
  datatype PairLayout = PairLayout(
    beforeKey: string, key: string, afterKey: string,
    beforeValue: string, value: string, afterValue: string)

  datatype Layout =
    | NoList(table: string)
    | EmptyList(table: string, beforeOpen: string, inside: string)
    | List(table: string, beforeOpen: string, pairs: seq<PairLayout>)

  ghost predicate Padding(s: string) {
    All(s, IsBlank)
  }

  ghost predicate WellFormedPair(p: PairLayout) {
    && Padding(p.beforeKey) && Padding(p.afterKey) && Padding(p.beforeValue) && Padding(p.afterValue)
    && p.key != "" && Bare(p.key, IsBlank) && Bare(p.value, IsBlank)
  }

  ghost predicate WellFormed(lay: Layout) {
    && lay.table != "" && !IsBlank(lay.table[|lay.table| - 1])
    && (!lay.NoList? ==> Padding(lay.beforeOpen))
    && (lay.EmptyList? ==> Padding(lay.inside))
    && (lay.List? ==> lay.pairs != [] && forall p :: p in lay.pairs ==> WellFormedPair(p))
  }

  ghost predicate DistinctKeys(pairs: seq<PairLayout>) {
    forall i, j :: 0 <= i < j < |pairs| ==> pairs[i].key != pairs[j].key
  }

  function RenderValue(p: PairLayout): string {
    p.beforeValue + (Escape(p.value) + p.afterValue)
  }

  function RenderPair(p: PairLayout): string {
    p.beforeKey + (Escape(p.key) + p.afterKey + "=" + RenderValue(p))
  }

  function RenderPairs(pairs: seq<PairLayout>): string
    requires pairs != []
  {
    RenderPair(pairs[0]) + if |pairs| == 1 then ")" else "," + RenderPairs(pairs[1..])
  }

  function Render(lay: Layout): string
    requires lay.List? ==> lay.pairs != []
  {
    match lay
    case NoList(table) => Escape(table)
    case EmptyList(table, beforeOpen, inside) => Escape(table) + beforeOpen + "(" + inside + ")"
    case List(table, beforeOpen, pairs) => Escape(table) + beforeOpen + "(" + RenderPairs(pairs)
  }

  /** The parameters a list of pairs denotes, added to those of `acc`; a repeated key is an error. */
  function Collect(pairs: seq<PairLayout>, acc: map<string, string>): Result<map<string, string>, ParseError> {
    if pairs == [] then Ok(acc)
    else if pairs[0].key in acc then Err(DuplicateKey(pairs[0].key))
    else Collect(pairs[1..], acc[pairs[0].key := pairs[0].value])
  }

  function Meaning(lay: Layout): Result<TableRef, ParseError> {
    if !lay.List? then Ok(TableRef(lay.table, map[]))
    else OnTable(lay.table, Collect(lay.pairs, map[]))
  }

  // ----- what Collect means -----

  ghost predicate Lists(pairs: seq<PairLayout>, m: map<string, string>) {
    && DistinctKeys(pairs)
    && (forall k :: k in m <==> exists i :: 0 <= i < |pairs| && pairs[i].key == k)
    && (forall i :: 0 <= i < |pairs| ==> pairs[i].key in m && m[pairs[i].key] == pairs[i].value)
  }

  /** A list of pairs means the map that lists exactly its keys and values, and is an error exactly
      when a key is repeated; the error names a repeated key. */
  lemma CollectLists(pairs: seq<PairLayout>)
    ensures Collect(pairs, map[]).Ok? <==> DistinctKeys(pairs)
    ensures Collect(pairs, map[]).Ok? ==> Lists(pairs, Collect(pairs, map[]).value)
    ensures Collect(pairs, map[]).Err? ==>
              exists i, j :: 0 <= i < j < |pairs| && pairs[i].key == pairs[j].key &&
                             Collect(pairs, map[]) == Err(DuplicateKey(pairs[i].key))
  {
    CollectFrom(pairs, 0, map[]);
    assert pairs[0..] == pairs;
  }

  lemma {:induction false} CollectFrom(pairs: seq<PairLayout>, n: nat, acc: map<string, string>)
    requires n <= |pairs| && Lists(pairs[..n], acc)
    ensures var r := Collect(pairs[n..], acc);
            && (r.Ok? ==> Lists(pairs, r.value))
            && (r.Err? ==> exists i, j :: 0 <= i < j < |pairs| && pairs[i].key == pairs[j].key &&
                                          r == Err(DuplicateKey(pairs[i].key)))
    decreases |pairs| - n
  {
    if n == |pairs| {
      assert pairs[..n] == pairs;
    } else {
      var p := pairs[n];
      assert pairs[n..][0] == p && pairs[n..][1..] == pairs[n + 1..];
      if p.key in acc {
        var i :| 0 <= i < n && pairs[..n][i].key == p.key;
        assert pairs[i].key == pairs[n].key;
      } else {
        var next := pairs[..n + 1];
        assert next == pairs[..n] + [p];
        ListsSnoc(pairs[..n], p, acc);
        CollectFrom(pairs, n + 1, acc[p.key := p.value]);
      }
    }
  }

  lemma ListsSnoc(pairs: seq<PairLayout>, p: PairLayout, m: map<string, string>)
    requires Lists(pairs, m) && p.key !in m
    ensures Lists(pairs + [p], m[p.key := p.value])
  {
    var next, m' := pairs + [p], m[p.key := p.value];
    forall k ensures k in m' <==> exists i :: 0 <= i < |next| && next[i].key == k {
      if k in m {
        var i :| 0 <= i < |pairs| && pairs[i].key == k;
        assert next[i].key == k;
      } else if k == p.key {
        assert next[|pairs|].key == k;
      }
    }
    forall i, j | 0 <= i < j < |next| ensures next[i].key != next[j].key {
      assert pairs[i].key in m;
    }
  }

  // ----- completeness: every layout parses to its meaning -----

  lemma EscapePadding(s: string)
    requires Padding(s)
    ensures Escape(s) == s
  {
    EscapePlain(s);
  }

  /** Padded text before a stop reads back as the text with its padding still on the right. */
  lemma PaddedTextReads(before: string, text: string, after: string, rest: string)
    requires Padding(before) && Padding(after) && Bare(text, IsBlank)
    requires text != "" || after == ""
    requires rest == "" || Stops(rest[0], false)
    ensures ReadChars(SkipBlanks(before + (Escape(text) + after + rest)), false) == Ok(Read(text + after, rest))
    ensures TrimRight(text + after, IsBlank) == text
  {
    var tail := Escape(text) + after + rest;
    EscapeAppend(text, after);
    EscapePadding(after);
    if text != "" {
      EscapeEnds(text);
      assert tail[0] == Escape(text)[0];
    } else {
      assert tail == rest;
    }
    TrimLeftSplits(before + tail, before, tail, IsBlank);
    ReadCharsReads(text + after, rest, false);
    TrimRightSplits(text + after, text, after, IsBlank);
  }

  /** The parser skips all padding around an empty value at once. */
  lemma EmptyTextReads(before: string, after: string, rest: string)
    requires Padding(before) && Padding(after)
    requires rest == "" || Stops(rest[0], false)
    ensures ReadChars(SkipBlanks(before + (after + rest)), false) == Ok(Read("", rest))
  {
    assert before + (after + rest) == (before + after) + rest;
    TrimLeftSplits((before + after) + rest, before + after, rest, IsBlank);
    ReadCharsReads("", rest, false);
    assert Escape("") + rest == rest;
  }

  lemma ValueReads(p: PairLayout, rest: string)
    requires WellFormedPair(p) && (rest == "" || Stops(rest[0], false))
    ensures var r := ReadChars(SkipBlanks(RenderValue(p) + rest), false);
            r.Ok? && TrimRight(r.value.text, IsBlank) == p.value && r.value.rest == rest
  {
    Associate(p.beforeValue, Escape(p.value) + p.afterValue, rest);
    if p.value == "" {
      assert Escape(p.value) + p.afterValue == p.afterValue;
      EmptyTextReads(p.beforeValue, p.afterValue, rest);
    } else {
      PaddedTextReads(p.beforeValue, p.value, p.afterValue, rest);
    }
  }

  lemma PairReads(p: PairLayout, rest: string)
    requires WellFormedPair(p) && (rest == "" || Stops(rest[0], false))
    ensures ParsePair(RenderPair(p) + rest) == Ok(Pair(p.key, p.value, rest))
  {
    var afterKey := "=" + (RenderValue(p) + rest);
    NestPair(p.beforeKey, Escape(p.key) + p.afterKey, RenderValue(p), rest);
    PaddedTextReads(p.beforeKey, p.key, p.afterKey, afterKey);
    assert afterKey[1..] == RenderValue(p) + rest;
    ValueReads(p, rest);
  }

  lemma NestPair(a: string, b: string, c: string, d: string)
    ensures a + (b + "=" + c) + d == a + (b + ("=" + (c + d)))
  {
  }

  lemma {:induction false} PairsRead(pairs: seq<PairLayout>, acc: map<string, string>)
    requires pairs != [] && forall p :: p in pairs ==> WellFormedPair(p)
    ensures ParsePairs(RenderPairs(pairs), acc) == Collect(pairs, acc)
  {
    var rest := if |pairs| == 1 then ")" else "," + RenderPairs(pairs[1..]);
    PairReads(pairs[0], rest);
    if |pairs| > 1 && pairs[0].key !in acc {
      assert rest[1..] == RenderPairs(pairs[1..]);
      PairsRead(pairs[1..], acc[pairs[0].key := pairs[0].value]);
    }
  }

  /** A list that holds a pair does not look like an empty one. */
  lemma PairsDoNotClose(pairs: seq<PairLayout>)
    requires pairs != [] && WellFormedPair(pairs[0])
    ensures var body := SkipBlanks(RenderPairs(pairs));
            body != "" && body[0] != ')' && ParsePairs(body, map[]) == ParsePairs(RenderPairs(pairs), map[])
  {
    var p := pairs[0];
    var rest := if |pairs| == 1 then ")" else "," + RenderPairs(pairs[1..]);
    var tail := Escape(p.key) + p.afterKey + "=" + RenderValue(p) + rest;
    assert RenderPairs(pairs) == p.beforeKey + tail;
    EscapeEnds(p.key);
    assert tail[0] == Escape(p.key)[0];
    TrimLeftSplits(p.beforeKey + tail, p.beforeKey, tail, IsBlank);
    SkippingTwice(RenderPairs(pairs));
  }

  lemma SkippingTwice(s: string)
    ensures ParsePairs(SkipBlanks(s), map[]) == ParsePairs(s, map[])
  {
    hide ParsePair;
    PairSkipsTwice(s);
  }

  lemma PairSkipsTwice(s: string)
    ensures ParsePair(SkipBlanks(s)) == ParsePair(s)
  {
    hide SkipBlanks, ReadChars, TrimRight, TrimLeft;
    SkipBlanksTwice(s);
  }

  lemma SkipBlanksTwice(s: string)
    ensures SkipBlanks(SkipBlanks(s)) == SkipBlanks(s)
  {
    TrimLeftTwice(s, IsBlank);
  }

  lemma TableReads(table: string, beforeOpen: string, rest: string)
    requires table != "" && !IsBlank(table[|table| - 1]) && Padding(beforeOpen)
    requires rest == "" || rest[0] == '('
    ensures ReadChars(Escape(table) + beforeOpen + rest, true) == Ok(Read(table + beforeOpen, rest))
    ensures TrimRight(table + beforeOpen, IsBlank) == table
  {
    EscapeAppend(table, beforeOpen);
    EscapePadding(beforeOpen);
    ReadCharsReads(table + beforeOpen, rest, true);
    TrimRightSplits(table + beforeOpen, table, beforeOpen, IsBlank);
  }

  lemma NothingFollows(table: string)
    requires table != "" && !IsBlank(table[|table| - 1])
    ensures ParseTrimmed(Escape(table)) == Ok(TableRef(table, map[]))
  {
    TableReads(table, "", "");
    assert Escape(table) + "" + "" == Escape(table);
    assert table + "" == table;
  }

  /** Once the table name is read, the parameters decide. */
  lemma ParamsFollow(table: string, beforeOpen: string, rest: string)
    requires table != "" && !IsBlank(table[|table| - 1]) && Padding(beforeOpen)
    ensures ParseTrimmed(Escape(table) + beforeOpen + "(" + rest) == OnTable(table, ParseParams("(" + rest))
  {
    TableReads(table, beforeOpen, "(" + rest);
    Associate(Escape(table) + beforeOpen, "(", rest);
  }

  lemma EmptyListReads(inside: string)
    requires Padding(inside)
    ensures ParseParams("(" + (inside + ")")) == Ok(map[])
  {
    assert ("(" + (inside + ")"))[1..] == inside + ")";
    TrimLeftSplits(inside + ")", inside, ")", IsBlank);
  }

  lemma ListReads(pairs: seq<PairLayout>)
    requires pairs != [] && forall p :: p in pairs ==> WellFormedPair(p)
    ensures ParseParams("(" + RenderPairs(pairs)) == Collect(pairs, map[])
  {
    assert ("(" + RenderPairs(pairs))[1..] == RenderPairs(pairs);
    PairsDoNotClose(pairs);
    PairsRead(pairs, map[]);
  }

  /** Completeness: however a reference is laid out, it parses to what the layout means. */
  lemma LayoutParses(lay: Layout)
    requires WellFormed(lay)
    ensures ParseTrimmed(Render(lay)) == Meaning(lay)
  {
    match lay
    case NoList(table) =>
      NothingFollows(table);
    case EmptyList(table, beforeOpen, inside) =>
      Associate(Escape(table) + beforeOpen + "(", inside, ")");
      ParamsFollow(table, beforeOpen, inside + ")");
      EmptyListReads(inside);
    case List(table, beforeOpen, pairs) =>
      ParamsFollow(table, beforeOpen, RenderPairs(pairs));
      ListReads(pairs);
  }

  // ----- soundness: whatever parses was some layout -----

  lemma PairWasWritten(s: string) returns (p: PairLayout)
    requires ParsePair(s).Ok?
    ensures WellFormedPair(p)
    ensures var r := ParsePair(s).value; p.key == r.key && p.value == r.value && s == RenderPair(p) + r.rest
  {
    var beforeKey, key, afterKey, afterText := TextWasWritten(s);
    var beforeValue, value, afterValue, rest := TextWasWritten(afterText[1..]);
    p := PairLayout(beforeKey, key, afterKey, beforeValue, value, afterValue);
    PairText(p, afterText, rest);
  }

  lemma PairText(p: PairLayout, afterText: string, rest: string)
    requires afterText != "" && afterText[0] == '='
    requires afterText[1..] == p.beforeValue + (Escape(p.value) + p.afterValue + rest)
    ensures RenderPair(p) + rest == p.beforeKey + (Escape(p.key) + p.afterKey + afterText)
  {
    Associate(p.beforeValue, Escape(p.value) + p.afterValue, rest);
    assert afterText == "=" + afterText[1..];
    NestPair(p.beforeKey, Escape(p.key) + p.afterKey, RenderValue(p), rest);
  }

  /** What a skip and a read consumed is some text between padding. */
  lemma TextWasWritten(s: string) returns (before: string, text: string, after: string, rest: string)
    requires ReadChars(SkipBlanks(s), false).Ok?
    ensures Padding(before) && Padding(after) && Bare(text, IsBlank)
    ensures var r := ReadChars(SkipBlanks(s), false).value; text == TrimRight(r.text, IsBlank) && rest == r.rest
    ensures s == before + (Escape(text) + after + rest)
  {
    hide ReadChars, Escape;
    var skipped := SkipBlanks(s);
    before := s[..|s| - |skipped|];
    var read := ReadChars(skipped, false).value;
    ReadCharsDecodes(skipped, false);
    text, after := SplitRight(skipped, read.text, read.rest);
    rest := read.rest;
    assert s == before + skipped;
  }

  /** Decoded text that starts without padding splits into bare text and trailing padding. */
  lemma SplitRight(s: string, text: string, rest: string) returns (kept: string, pad: string)
    requires s == Escape(text) + rest
    requires s != "" ==> !IsBlank(s[0])
    ensures kept == TrimRight(text, IsBlank) && Padding(pad) && text == kept + pad
    ensures Bare(kept, IsBlank) && s == Escape(kept) + pad + rest
  {
    kept := TrimRight(text, IsBlank);
    pad := text[|kept|..];
    assert text == kept + pad;
    EscapeAppend(kept, pad);
    EscapePadding(pad);
    if kept != "" {
      EscapeEnds(text);
      assert text[0] == kept[0];
      assert s[0] == Escape(text)[0];
    }
  }

  lemma {:induction false} PairsWereWritten(s: string, acc: map<string, string>) returns (pairs: seq<PairLayout>)
    requires ParsePairs(s, acc).Ok?
    ensures pairs != [] && (forall p :: p in pairs ==> WellFormedPair(p))
    ensures s == RenderPairs(pairs) && Collect(pairs, acc) == ParsePairs(s, acc)
    decreases |s|
  {
    hide ParsePair, RenderPair, WellFormedPair;
    var p := PairWasWritten(s);
    var rest := ParsePair(s).value.rest;
    if rest[0] == ',' {
      var more := PairsWereWritten(rest[1..], acc[p.key := p.value]);
      pairs := [p] + more;
      assert pairs[1..] == more;
      assert rest == "," + RenderPairs(more);
    } else {
      pairs := [p];
      assert rest == ")";
    }
  }

  /** The table name and the padding after it, as they were written. */
  lemma TableWasWritten(s: string) returns (table: string, beforeOpen: string, rest: string)
    requires ReadChars(s, true).Ok?
    ensures var r := ReadChars(s, true).value; table == TrimRight(r.text, IsBlank) && rest == r.rest
    ensures table != "" ==> !IsBlank(table[|table| - 1])
    ensures Padding(beforeOpen) && s == Escape(table) + beforeOpen + rest && (rest == "" || rest[0] == '(')
  {
    hide ReadChars, Escape;
    var read := ReadChars(s, true).value;
    ReadCharsDecodes(s, true);
    table := TrimRight(read.text, IsBlank);
    beforeOpen := read.text[|table|..];
    rest := read.rest;
    assert read.text == table + beforeOpen;
    EscapeAppend(table, beforeOpen);
    EscapePadding(beforeOpen);
  }

  /** Soundness: an accepted text is the rendering of a well-formed layout that means the result. */
  lemma ParsedWasLaidOut(s: string) returns (lay: Layout)
    requires ParseTrimmed(s).Ok?
    requires Bare(s, IsSpace)
    ensures WellFormed(lay) && Render(lay) == s && Meaning(lay) == ParseTrimmed(s)
  {
    var table, beforeOpen, rest := TableWasWritten(s);
    if rest == "" {
      lay := NoList(table);
      NoPaddingAtEnd(s, table, beforeOpen);
    } else {
      lay := ListWasWritten(table, beforeOpen, rest);
    }
  }

  /** Trimmed input has no padding after a table name that ends it. */
  lemma NoPaddingAtEnd(s: string, table: string, pad: string)
    requires table != "" && !IsBlank(table[|table| - 1]) && Padding(pad)
    requires s == Escape(table) + pad + "" && Bare(s, IsSpace)
    ensures s == Escape(table)
  {
    EscapeEnds(table);
    assert s == Escape(table) + pad;
    TrimRightSplits(s, Escape(table), pad, IsBlank);
    assert TrimRight(s, IsBlank) == s;
  }

  lemma ListWasWritten(table: string, beforeOpen: string, rest: string) returns (lay: Layout)
    requires table != "" && !IsBlank(table[|table| - 1]) && Padding(beforeOpen)
    requires rest != "" && rest[0] == '(' && ParseParams(rest).Ok?
    ensures WellFormed(lay) && Render(lay) == Escape(table) + beforeOpen + rest
    ensures Meaning(lay) == Ok(TableRef(table, ParseParams(rest).value))
  {
    hide Render, Meaning, WellFormed, ParsePairs, Escape, SkipBlanks, Padding;
    var inside, body := SkipWasWritten(rest[1..]);
    assert rest == "(" + rest[1..];
    Associate(Escape(table) + beforeOpen, "(", rest[1..]);
    if body != "" && body[0] == ')' {
      assert body == ")";
      lay := EmptyListWasWritten(table, beforeOpen, inside);
    } else {
      lay := PairsInList(table, beforeOpen, inside, body);
    }
  }

  lemma SkipWasWritten(s: string) returns (skipped: string, body: string)
    ensures Padding(skipped) && body == SkipBlanks(s) && s == skipped + body
  {
    body := SkipBlanks(s);
    skipped := s[..|s| - |body|];
  }

  lemma EmptyListWasWritten(table: string, beforeOpen: string, inside: string) returns (lay: Layout)
    requires table != "" && !IsBlank(table[|table| - 1]) && Padding(beforeOpen) && Padding(inside)
    ensures WellFormed(lay) && Render(lay) == Escape(table) + beforeOpen + "(" + (inside + ")")
    ensures Meaning(lay) == Ok(TableRef(table, map[]))
  {
    hide Escape;
    lay := EmptyList(table, beforeOpen, inside);
    Associate(Escape(table) + beforeOpen + "(", inside, ")");
  }

  lemma PairsInList(table: string, beforeOpen: string, inside: string, body: string) returns (lay: Layout)
    requires table != "" && !IsBlank(table[|table| - 1]) && Padding(beforeOpen) && Padding(inside)
    requires ParsePairs(body, map[]).Ok?
    ensures WellFormed(lay) && Render(lay) == Escape(table) + beforeOpen + "(" + (inside + body)
    ensures Meaning(lay) == Ok(TableRef(table, ParsePairs(body, map[]).value))
  {
    hide ParsePairs, RenderPairs, Collect, Escape;
    var written := PairsWereWritten(body, map[]);
    var pairs := PadFirst(inside, written);
    lay := List(table, beforeOpen, pairs);
  }

  /** The padding after the opening parenthesis belongs to the first key. */
  lemma PadFirst(inside: string, pairs: seq<PairLayout>) returns (padded: seq<PairLayout>)
    requires Padding(inside) && pairs != [] && forall p :: p in pairs ==> WellFormedPair(p)
    ensures padded != [] && forall p :: p in padded ==> WellFormedPair(p)
    ensures RenderPairs(padded) == inside + RenderPairs(pairs) && Collect(padded, map[]) == Collect(pairs, map[])
  {
    var p := pairs[0];
    var first := p.(beforeKey := inside + p.beforeKey);
    padded := [first] + pairs[1..];
    assert RenderPair(first) == inside + RenderPair(p);
    assert padded[1..] == pairs[1..];
    assert p in pairs;
    forall q | q in padded ensures WellFormedPair(q) {
      assert q == first || q in pairs[1..];
    }
  }

  // ----- the main theorem -----

  /** `lay` is a way to write `ref`: any key order, any spaces and tabs around the separators. */
  ghost predicate Writes(lay: Layout, text: string, ref: TableRef) {
    && WellFormed(lay)
    && Render(lay) == text
    && lay.table == ref.table
    && (if lay.List? then Lists(lay.pairs, ref.params) else ref.params == map[])
  }

  lemma MeaningIsWritten(lay: Layout, ref: TableRef)
    requires WellFormed(lay)
    ensures Meaning(lay) == Ok(ref) <==> Writes(lay, Render(lay), ref)
  {
    if lay.List? {
      CollectLists(lay.pairs);
      if Writes(lay, Render(lay), ref) {
        SameListing(lay.pairs, Collect(lay.pairs, map[]).value, ref.params);
      }
    }
  }

  lemma SameListing(pairs: seq<PairLayout>, m: map<string, string>, m': map<string, string>)
    requires Lists(pairs, m) && Lists(pairs, m')
    ensures m == m'
  {
    forall k | k in m || k in m' ensures k in m && k in m' && m[k] == m'[k] {
      var i :| 0 <= i < |pairs| && pairs[i].key == k;
    }
  }

  /** `Parse` is sound and complete for the lenient grammar. */
  lemma ParsesExactlyTheGrammar(s: string, ref: TableRef)
    ensures Parsed(s) == Ok(ref) <==> exists lay :: Writes(lay, TrimSpace(s), ref)
  {
    var text := TrimSpace(s);
    TrimSpaceIsBare(s);
    if Parsed(s) == Ok(ref) {
      var lay := ParsedWasLaidOut(text);
      MeaningIsWritten(lay, ref);
      assert Writes(lay, text, ref);
    }
    if lay :| Writes(lay, text, ref) {
      LayoutParses(lay);
      MeaningIsWritten(lay, ref);
    }
  }

  /** A well-laid-out list is rejected only for a repeated key, and the error names one. */
  lemma RepeatedKeyIsReported(s: string, lay: Layout)
    requires WellFormed(lay) && lay.List? && Render(lay) == TrimSpace(s)
    ensures Parsed(s).Err? <==> !DistinctKeys(lay.pairs)
    ensures Parsed(s).Err? ==>
              exists i, j :: 0 <= i < j < |lay.pairs| && lay.pairs[i].key == lay.pairs[j].key &&
                             Parsed(s) == Err(DuplicateKey(lay.pairs[i].key))
  {
    LayoutParses(lay);
    CollectLists(lay.pairs);
  }
}
