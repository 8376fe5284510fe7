/** The lenient reference parser: tables/tables.go, `parser`, `readChars`, `Parse`. The functions say
    what each production reads off the front of a text; the class moves a cursor over the source as
    the code does and is proved to compute those functions. */
module Parsing {
  import opened Text
  import opened TableRefs

  datatype Problem =
    | DanglingBackslash
    | InvalidEscape(esc: char)
    | Unescaped(c: char)
    | EmptyTableName
    | TrailingData
    | EmptyParameterKey
    | ExpectedEquals
    | UnterminatedList
    | UnexpectedInList(found: char)

  /** What `errors.Is` can tell apart (ErrSyntax, ErrDuplicateKey), with the reason of a syntax error. */
  datatype ParseError = Syntax(problem: Problem) | DuplicateKey(key: string)

  /** Text decoded from the front of the input, and the input left over. */
  datatype Read = Read(text: string, rest: string)

  /** An unescaped character that ends the current production without being consumed. */
  predicate Stops(c: char, topLevel: bool) {
    if topLevel then c == '(' else c == ',' || c == '=' || c == ')'
  }

  function Prepend(text: string, r: Result<Read, ParseError>): Result<Read, ParseError> {
    match r
    case Ok(read) => Ok(Read(text + read.text, read.rest))
    case Err(e) => Err(e)
  }

  /** What the next character means: decoded text of that many input characters, the end of the
      production, or an error. */
  datatype Next = Decoded(c: char) | Stop | Fail(problem: Problem)

  function Scan(s: string, topLevel: bool): (next: Next)
    ensures next.Decoded? ==> |EscapeChar(next.c)| <= |s|
  {
    if s == "" then Stop
    else if s[0] == '\\' then
      if |s| < 2 then Fail(DanglingBackslash)
      else if !IsReserved(s[1]) then Fail(InvalidEscape(s[1]))
      else Decoded(s[1])
    else if Stops(s[0], topLevel) then Stop
    else if IsReserved(s[0]) then Fail(Unescaped(s[0]))
    else Decoded(s[0])
  }

  function ReadChars(s: string, topLevel: bool): (r: Result<Read, ParseError>)
    ensures r.Ok? ==> |r.value.rest| <= |s|
  {
    match Scan(s, topLevel)
    case Stop => Ok(Read("", s))
    case Fail(problem) => Err(Syntax(problem))
    case Decoded(c) => Prepend([c], ReadChars(s[|EscapeChar(c)|..], topLevel))
  }

  function SkipBlanks(s: string): string {
    TrimLeft(s, IsBlank)
  }

  /** A decoded pair, and the input left over. */
  datatype Pair = Pair(key: string, value: string, rest: string)

  /** One `key=value` pair, up to the character after the value. */
  function ParsePair(s: string): (r: Result<Pair, ParseError>)
    ensures r.Ok? ==> |r.value.rest| < |s| && (r.value.rest == "" || Stops(r.value.rest[0], false))
  {
    var keyRead := ReadChars(SkipBlanks(s), false);
    if keyRead.Err? then Err(keyRead.error) else
    var key := TrimRight(keyRead.value.text, IsBlank);
    var afterKey := keyRead.value.rest;
    if key == "" then Err(Syntax(EmptyParameterKey)) else
    if afterKey == "" || afterKey[0] != '=' then Err(Syntax(ExpectedEquals)) else
    var valueText := SkipBlanks(afterKey[1..]);
    var valueRead := ReadChars(valueText, false);
    if valueRead.Err? then Err(valueRead.error) else
    ReadCharsDecodes(valueText, false);
    Ok(Pair(key, TrimRight(valueRead.value.text, IsBlank), valueRead.value.rest))
  }

  /** The loop over `key=value` pairs, with the parameters read so far. */
  function ParsePairs(s: string, acc: map<string, string>): Result<map<string, string>, ParseError>
    decreases |s|
  {
    var pair := ParsePair(s);
    if pair.Err? then Err(pair.error) else
    var Pair(key, value, rest) := pair.value;
    if key in acc then Err(DuplicateKey(key)) else
    var acc' := acc[key := value];
    if rest == "" then Err(Syntax(UnterminatedList))
    else if rest[0] == ',' then ParsePairs(rest[1..], acc')
    else if rest[0] == ')' then (if |rest| == 1 then Ok(acc') else Err(Syntax(TrailingData)))
    else Err(Syntax(UnexpectedInList(rest[0])))
  }

  /** What follows the table name. */
  function ParseParams(s: string): Result<map<string, string>, ParseError>
    requires s == "" || s[0] == '('
  {
    if s == "" then Ok(map[]) else
    var body := SkipBlanks(s[1..]);
    if body != "" && body[0] == ')' then (if |body| == 1 then Ok(map[]) else Err(Syntax(TrailingData)))
    else ParsePairs(body, map[])
  }

  function ParseTrimmed(s: string): Result<TableRef, ParseError> {
    var tableRead := ReadChars(s, true);
    if tableRead.Err? then Err(tableRead.error) else
    var table := TrimRight(tableRead.value.text, IsBlank);
    if table == "" then Err(Syntax(EmptyTableName)) else
    ReadCharsDecodes(s, true);
    OnTable(table, ParseParams(tableRead.value.rest))
  }

  function OnTable(table: string, params: Result<map<string, string>, ParseError>): Result<TableRef, ParseError> {
    if params.Err? then Err(params.error) else Ok(TableRef(table, params.value))
  }

  /** The value of `Parse` on every text. */
  function Parsed(s: string): Result<TableRef, ParseError> {
    ParseTrimmed(TrimSpace(s))
  }

  /** Decoding is exact: the consumed input is the escaped form of the text, and the production ended
      at the end of input or at a stop character. In particular `peek` after a successful read yields
      0 only at the end of input, never because of a NUL in it. */
  lemma {:induction false} ReadCharsDecodes(s: string, topLevel: bool)
    requires ReadChars(s, topLevel).Ok?
    ensures var r := ReadChars(s, topLevel).value;
            s == Escape(r.text) + r.rest && (r.rest == "" || Stops(r.rest[0], topLevel))
  {
    var next := Scan(s, topLevel);
    if next.Decoded? {
      var tail := s[|EscapeChar(next.c)|..];
      ReadCharsDecodes(tail, topLevel);
      DecodedCons(s, next.c, tail, ReadChars(tail, topLevel).value);
    }
  }

  lemma DecodedCons(s: string, c: char, tail: string, read: Read)
    requires s == EscapeChar(c) + tail && tail == Escape(read.text) + read.rest
    ensures s == Escape([c] + read.text) + read.rest
  {
    EscapeCons(c, read.text);
  }

  lemma ReadCharsStep(c: char, s: string, topLevel: bool)
    requires IsReserved(c) || !Stops(c, topLevel)
    ensures ReadChars(EscapeChar(c) + s, topLevel) == Prepend([c], ReadChars(s, topLevel))
  {
    assert Scan(EscapeChar(c) + s, topLevel) == Decoded(c);
    assert (EscapeChar(c) + s)[|EscapeChar(c)|..] == s;
  }

  /** The converse: an escaped text followed by a stop or the end of input decodes to that text. */
  lemma {:induction false} ReadCharsReads(text: string, rest: string, topLevel: bool)
    requires rest == "" || Stops(rest[0], topLevel)
    ensures ReadChars(Escape(text) + rest, topLevel) == Ok(Read(text, rest))
  {
    if text == "" {
      assert Escape(text) + rest == rest;
    } else {
      var c, tail := text[0], text[1..];
      ReadCharsReads(tail, rest, topLevel);
      ReadCharsStep(c, Escape(tail) + rest, topLevel);
      Associate(EscapeChar(c), Escape(tail), rest);
      assert text == [c] + tail;
    }
  }

  // ----- the cursor -----

  class Parser {
    const src: string
    var pos: nat

    constructor (src: string)
      ensures this.src == src && pos == 0
    {
      this.src := src;
      pos := 0;
    }

    ghost predicate Valid()
      reads this
    {
      pos <= |src|
    }

    ghost function Rest(): string
      reads this
      requires Valid()
    {
      src[pos..]
    }

    /** Go's `peek`: NUL at the end of input. */
    function Peek(): (c: char)
      reads this
      requires Valid()
      ensures c == if Rest() == "" then '\0' else Rest()[0]
    {
      if pos >= |src| then '\0' else src[pos]
    }

    method Advance()
      requires Valid() && Rest() != ""
      modifies this
      ensures Valid() && Rest() == old(Rest())[1..]
    {
      pos := pos + 1;
    }

    method SkipWS()
      requires Valid()
      modifies this
      ensures Valid() && Rest() == SkipBlanks(old(Rest()))
    {
      ghost var skipped := SkipBlanks(src[pos..]);
      while pos < |src| && (src[pos] == ' ' || src[pos] == '\t')
        invariant Valid()
        invariant SkipBlanks(src[pos..]) == skipped
      {
        assert src[pos..][1..] == src[pos + 1..];
        pos := pos + 1;
      }
    }

    /** The branches of `readChars` on the character at the cursor. */
    method Classify(topLevel: bool) returns (next: Next)
      requires Valid() && pos < |src|
      ensures next == Scan(Rest(), topLevel)
    {
      var c := src[pos];
      if c == '\\' {
        if pos + 1 >= |src| {
          return Fail(DanglingBackslash);
        }
        var esc := src[pos + 1];
        if !IsReserved(esc) {
          return Fail(InvalidEscape(esc));
        }
        return Decoded(esc);
      }
      if topLevel {
        if c == '(' {
          return Stop;
        }
        if c == ')' || c == ',' || c == '=' {
          return Fail(Unescaped(c));
        }
      } else {
        if c == ',' || c == '=' || c == ')' {
          return Stop;
        }
        if c == '(' {
          return Fail(Unescaped(c));
        }
      }
      return Decoded(c);
    }

    method ReadText(topLevel: bool) returns (r: Result<string, ParseError>)
      requires Valid()
      modifies this
      ensures Valid()
      ensures Delivers(r, Rest(), ReadChars(old(Rest()), topLevel))
    {
      hide ReadChars, Scan, Prepend;
      var sb := "";
      ghost var whole := ReadChars(Rest(), topLevel);
      StartReading(src, pos, topLevel);
      while pos < |src|
        invariant Valid()
        invariant Reading(sb, src, pos, topLevel, whole)
        decreases |src| - pos
      {
        var next := Classify(topLevel);
        ReadOn(sb, src, pos, topLevel, whole);
        if next.Stop? {
          return Ok(sb);
        }
        if next.Fail? {
          return Err(Syntax(next.problem));
        }
        sb := sb + [next.c];
        pos := pos + |EscapeChar(next.c)|;
      }
      ReadOn(sb, src, pos, topLevel, whole);
      NothingToScan(topLevel);
      return Ok(sb);
    }
  }

  lemma NothingToScan(topLevel: bool)
    ensures Scan("", topLevel) == Stop
  {
  }

  /** What the cursor hands back when the spec reads `whole`. */
  ghost predicate Delivers(r: Result<string, ParseError>, rest: string, whole: Result<Read, ParseError>) {
    match whole
    case Ok(read) => r == Ok(read.text) && rest == read.rest
    case Err(e) => r == Err(e)
  }

  /** The text in hand and what is still to be read make up the whole. */
  ghost predicate Reading(sb: string, src: string, pos: nat, topLevel: bool, whole: Result<Read, ParseError>) {
    pos <= |src| && Prepend(sb, ReadChars(src[pos..], topLevel)) == whole
  }

  lemma StartReading(src: string, pos: nat, topLevel: bool)
    requires pos <= |src|
    ensures Reading("", src, pos, topLevel, ReadChars(src[pos..], topLevel))
  {
    var r := ReadChars(src[pos..], topLevel);
    if r.Ok? {
      assert "" + r.value.text == r.value.text;
    }
  }

  /** Reading one more character moves it from the input to the text in hand. */
  lemma ReadOn(sb: string, src: string, pos: nat, topLevel: bool, whole: Result<Read, ParseError>)
    requires Reading(sb, src, pos, topLevel, whole)
    ensures match Scan(src[pos..], topLevel)
            case Decoded(c) => Reading(sb + [c], src, pos + |EscapeChar(c)|, topLevel, whole)
            case Stop => whole == Ok(Read(sb, src[pos..]))
            case Fail(problem) => whole == Err(Syntax(problem))
  {
    match Scan(src[pos..], topLevel)
    case Decoded(c) =>
      assert src[pos..][|EscapeChar(c)|..] == src[pos + |EscapeChar(c)|..];
      var r := ReadChars(src[pos + |EscapeChar(c)|..], topLevel);
      if r.Ok? {
        Associate(sb, [c], r.value.text);
      }
    case Stop =>
      assert sb + "" == sb;
    case Fail(_) =>
  }

  method ReadPair(p: Parser) returns (r: Result<(string, string), ParseError>)
    requires p.Valid()
    modifies p
    ensures p.Valid()
    ensures match ParsePair(old(p.Rest()))
            case Ok(pair) => r == Ok((pair.key, pair.value)) && p.Rest() == pair.rest
            case Err(e) => r == Err(e)
  {
    hide ReadChars, SkipBlanks, TrimRight;
    p.SkipWS();
    var keyRead := p.ReadText(false);
    if keyRead.Err? {
      return Err(keyRead.error);
    }
    var key := TrimRight(keyRead.value, IsBlank);
    if key == "" {
      return Err(Syntax(EmptyParameterKey));
    }
    if p.Peek() != '=' {
      return Err(Syntax(ExpectedEquals));
    }
    p.Advance();
    p.SkipWS();
    var valueRead := p.ReadText(false);
    if valueRead.Err? {
      return Err(valueRead.error);
    }
    return Ok((key, TrimRight(valueRead.value, IsBlank)));
  }

  method ReadPairs(p: Parser) returns (r: Result<map<string, string>, ParseError>)
    requires p.Valid()
    modifies p
    ensures r == ParsePairs(old(p.Rest()), map[])
  {
    hide ParsePair;
    var params := map[];
    while true
      invariant p.Valid()
      invariant ParsePairs(p.Rest(), params) == ParsePairs(old(p.Rest()), map[])
      decreases |p.Rest()|
    {
      ghost var start := p.Rest();
      var pair := ReadPair(p);
      if pair.Err? {
        return Err(pair.error);
      }
      var (key, value) := pair.value;
      if key in params {
        return Err(DuplicateKey(key));
      }
      params := params[key := value];
      if p.Peek() == ',' {
        p.Advance();
        continue;
      }
      if p.Peek() == ')' {
        p.Advance();
        if p.pos != |p.src| {
          return Err(Syntax(TrailingData));
        }
        return Ok(params);
      }
      if p.Peek() == '\0' {
        // A NUL in the input never gets here: the value was read up to a stop character or the end.
        return Err(Syntax(UnterminatedList));
      }
      return Err(Syntax(UnexpectedInList(p.Peek())));
    }
  }

  method ReadParams(p: Parser) returns (r: Result<map<string, string>, ParseError>)
    requires p.Valid() && (p.Rest() == "" || p.Rest()[0] == '(')
    modifies p
    ensures r == ParseParams(old(p.Rest()))
  {
    if p.pos == |p.src| {
      return Ok(map[]);
    }
    // The name ended at an opening parenthesis: the branch for any other character is dead.
    assert p.Peek() == '(';
    p.Advance();
    p.SkipWS();
    if p.Peek() == ')' {
      p.Advance();
      if p.pos != |p.src| {
        return Err(Syntax(TrailingData));
      }
      return Ok(map[]);
    }
    r := ReadPairs(p);
  }

  method Parse(s: string) returns (r: Result<TableRef, ParseError>)
    ensures r == Parsed(s)
  {
    var p := new Parser(TrimSpace(s));
    assert p.Rest() == p.src;
    var tableRead := p.ReadText(true);
    if tableRead.Err? {
      return Err(tableRead.error);
    }
    ReadCharsDecodes(p.src, true);
    var table := TrimRight(tableRead.value, IsBlank);
    if table == "" {
      return Err(Syntax(EmptyTableName));
    }
    var params := ReadParams(p);
    if params.Err? {
      return Err(params.error);
    }
    return Ok(TableRef(table, params.value));
  }
}
