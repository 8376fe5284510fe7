/** Backtick delimiters around a reference: tables/tables.go, `WrapInBackticks`, `UnwrapFromBackticks`. */
module Backticks {
  import opened Text
  import opened TableRefs
  import opened Parsing
  import opened Canonical

  datatype UnwrapError = NotWrapped | UnescapedBacktick(at: nat)

  function Double(c: char): string {
    if c == '`' then "``" else [c]
  }

  function Doubled(s: string): string {
    if s == "" then "" else Double(s[0]) + Doubled(s[1..])
  }

  function Wrapped(s: string): string {
    "`" + Doubled(s) + "`"
  }

  lemma {:induction false} DoubledAppend(a: string, b: string)
    ensures Doubled(a + b) == Doubled(a) + Doubled(b)
  {
    if a == "" {
      assert a + b == b;
    } else {
      assert (a + b)[1..] == a[1..] + b;
      DoubledAppend(a[1..], b);
    }
  }

  lemma DoubledSnoc(s: string, c: char)
    ensures Doubled(s + [c]) == Doubled(s) + Double(c)
  {
    DoubledAppend(s, [c]);
    assert Doubled([c]) == Double(c) + "";
  }

  method WrapInBackticks(s: string) returns (w: string)
    ensures w == Wrapped(s)
  {
    var sb := "`";
    for i := 0 to |s|
      invariant sb == "`" + Doubled(s[..i])
    {
      assert s[..i + 1] == s[..i] + [s[i]];
      DoubledSnoc(s[..i], s[i]);
      if s[i] == '`' {
        sb := sb + "`";
      }
      sb := sb + [s[i]];
    }
    assert s[..|s|] == s;
    return sb + "`";
  }

  /** A doubled text and an odd backtick after it is no doubled text. */
  lemma {:induction false} OddBacktick(read: string, rest: string, s: string)
    requires rest != "" && rest[0] == '`' && (|rest| == 1 || rest[1] != '`')
    ensures Doubled(s) != Doubled(read) + rest
  {
    if read == "" {
      assert Doubled(read) + rest == rest;
    } else {
      assert (Doubled(read) + rest)[0] == read[0];
      if s != "" && s[0] == read[0] {
        OddBacktick(read[1..], rest, s[1..]);
        SamePrefix(Double(s[0]), Doubled(s[1..]), Doubled(read[1..]) + rest);
        Associate(Double(read[0]), Doubled(read[1..]), rest);
      }
    }
  }

  /** The first `i` characters of the payload are the doubled form of the text in hand. */
  ghost predicate Undoubled(inner: string, sb: string, i: nat) {
    i <= |inner| && inner[..i] == Doubled(sb)
  }

  lemma StartUndoubling(inner: string)
    ensures Undoubled(inner, "", 0)
  {
  }

  lemma NoPayload(inner: string, sb: string, i: nat)
    requires Undoubled(inner, sb, i) && i < |inner|
    requires inner[i] == '`' && (i + 1 >= |inner| || inner[i + 1] != '`')
    ensures forall s :: inner != Doubled(s)
  {
    forall s ensures inner != Doubled(s) {
      assert inner == inner[..i] + inner[i..];
      OddBacktick(sb, inner[i..], s);
    }
  }

  lemma UnwrapStep(inner: string, sb: string, i: nat, c: char)
    requires Undoubled(inner, sb, i)
    requires i + |Double(c)| <= |inner| && inner[i..i + |Double(c)|] == Double(c)
    ensures Undoubled(inner, sb + [c], i + |Double(c)|)
  {
    DoubledSnoc(sb, c);
    assert inner[..i + |Double(c)|] == inner[..i] + inner[i..i + |Double(c)|];
  }

  /** The character is a backtick after doubled text, and is not doubled itself. */
  ghost predicate OddBacktickAt(inner: string, i: int) {
    && 0 <= i < |inner| && inner[i] == '`' && (i + 1 == |inner| || inner[i + 1] != '`')
    && exists read :: Undoubled(inner, read, i)
  }

  /** The loop over the text between the outer delimiters. */
  method Undouble(inner: string) returns (r: Result<string, UnwrapError>)
    ensures r.Ok? ==> inner == Doubled(r.value)
    ensures r.Err? ==> r.error.UnescapedBacktick? && forall s :: inner != Doubled(s)
    ensures r.Err? ==> OddBacktickAt(inner, r.error.at - 1)
  {
    var sb, i := "", 0;
    StartUndoubling(inner);
    hide Doubled;
    while i < |inner|
      invariant i <= |inner|
      invariant Undoubled(inner, sb, i)
    {
      if inner[i] != '`' {
        UnwrapStep(inner, sb, i, inner[i]);
        sb := sb + [inner[i]];
        i := i + 1;
        continue;
      }
      if i + 1 >= |inner| || inner[i + 1] != '`' {
        NoPayload(inner, sb, i);
        return Err(UnescapedBacktick(i + 1));
      }
      UnwrapStep(inner, sb, i, '`');
      sb := sb + "`";
      i := i + 2;
    }
    assert inner[..i] == inner;
    return Ok(sb);
  }

  method UnwrapFromBackticks(w: string) returns (r: Result<string, UnwrapError>)
    ensures r.Ok? ==> w == Wrapped(r.value)
    ensures r.Err? ==> forall s :: w != Wrapped(s)
    ensures r.Err? && r.error.UnescapedBacktick? ==> |w| >= 2 && OddBacktickAt(w[1..|w| - 1], r.error.at - 1)
    ensures r == Err(NotWrapped) <==> |w| < 2 || w[0] != '`' || w[|w| - 1] != '`'
  {
    if |w| < 2 || w[0] != '`' || w[|w| - 1] != '`' {
      return Err(NotWrapped);
    }
    hide Doubled;
    r := Undouble(w[1..|w| - 1]);
    forall s ensures Wrapped(s)[1..|Wrapped(s)| - 1] == Doubled(s) {
    }
  }

  lemma {:induction false} DoubledIsInjective(a: string, b: string)
    requires Doubled(a) == Doubled(b)
    ensures a == b
  {
    if a != "" && b != "" {
      assert Doubled(a)[0] == a[0] && Doubled(b)[0] == b[0];
      SamePrefix(Double(a[0]), Doubled(a[1..]), Doubled(b[1..]));
      DoubledIsInjective(a[1..], b[1..]);
      assert a == [a[0]] + a[1..] && b == [b[0]] + b[1..];
    }
  }

  /** With the contract of `UnwrapFromBackticks`: it succeeds with `s` exactly on `Wrapped(s)`. */
  lemma WrappedIsInjective(a: string, b: string)
    ensures Wrapped(a) == Wrapped(b) <==> a == b
  {
    if Wrapped(a) == Wrapped(b) {
      assert Wrapped(a)[1..|Wrapped(a)| - 1] == Doubled(a);
      assert Wrapped(b)[1..|Wrapped(b)| - 1] == Doubled(b);
      DoubledIsInjective(a, b);
    }
  }

  /** The recipe of the package documentation: print, wrap, unwrap, parse. */
  method StoreAndLoad(ref: TableRef) returns (r: Result<TableRef, ParseError>)
    ensures r == Ok(ref) <==> RoundTrips(ref)
  {
    var text := String(ref);
    var stored := WrapInBackticks(text);
    var inner := UnwrapFromBackticks(stored);
    assert inner.Ok?;
    WrappedIsInjective(inner.value, text);
    r := Parse(inner.value);
    RoundTrip(ref);
  }
}
