/** Options, results, and the string operations of Go's standard library that the modelled code
    calls: `strings.TrimSpace`, `strings.TrimRight` and `sort.Strings`. A string is a sequence of
    code points, so Go's byte order on valid UTF-8 is the order of the code points. */
module Text {

  datatype Option<+T> = None | Some(value: T)

  datatype Result<+T, +E> = Ok(value: T) | Err(error: E)

  /** Go's `unicode.IsSpace`, which `strings.TrimSpace` uses. */
  predicate IsSpace(c: char) {
    || '\t' <= c <= '\r'
    || c == ' '
    || c == '\U{0085}'
    || c == '\U{00A0}'
    || c == '\U{1680}'
    || '\U{2000}' <= c <= '\U{200A}'
    || c == '\U{2028}'
    || c == '\U{2029}'
    || c == '\U{202F}'
    || c == '\U{205F}'
    || c == '\U{3000}'
  }

  /** The characters with the property White_Space, one by one. */
  lemma SpacesListed(c: char)
    ensures IsSpace(c) <==>
            c in {'\t', '\n', '\U{000B}', '\U{000C}', '\r', ' ', '\U{0085}', '\U{00A0}', '\U{1680}', '\U{2000}',
                  '\U{2001}', '\U{2002}', '\U{2003}', '\U{2004}', '\U{2005}', '\U{2006}', '\U{2007}', '\U{2008}',
                  '\U{2009}', '\U{200A}', '\U{2028}', '\U{2029}', '\U{202F}', '\U{205F}', '\U{3000}'}
  {
  }

  /** The separator padding that the reference parser tolerates: a space or a tab. */
  predicate IsBlank(c: char) {
    c == ' ' || c == '\t'
  }

  ghost predicate All(s: string, p: char -> bool) {
    forall i :: 0 <= i < |s| ==> p(s[i])
  }

  lemma Associate(a: string, b: string, c: string)
    ensures a + b + c == a + (b + c)
  {
  }

  lemma SamePrefix(p: string, x: string, y: string)
    ensures p + x == p + y <==> x == y
  {
    assert (p + x)[|p|..] == x && (p + y)[|p|..] == y;
  }

  function TrimLeft(s: string, p: char -> bool): (r: string)
    ensures |r| <= |s| && r == s[|s| - |r|..] && All(s[..|s| - |r|], p)
    ensures r != "" ==> !p(r[0])
  {
    if s != "" && p(s[0]) then
      var r := TrimLeft(s[1..], p);
      PaddingGrows(s, r, p);
      r
    else s
  }

  lemma PaddingGrows(s: string, r: string, p: char -> bool)
    requires s != "" && p(s[0]) && |r| < |s|
    requires r == s[1..][|s| - 1 - |r|..] && All(s[1..][..|s| - 1 - |r|], p)
    ensures r == s[|s| - |r|..] && All(s[..|s| - |r|], p)
  {
    var pad := s[..|s| - |r|];
    assert pad == [s[0]] + s[1..][..|s| - 1 - |r|];
  }

  function TrimRight(s: string, p: char -> bool): (r: string)
    ensures |r| <= |s| && r == s[..|r|] && All(s[|r|..], p)
    ensures r != "" ==> !p(r[|r| - 1])
  {
    if s != "" && p(s[|s| - 1]) then TrimRight(s[..|s| - 1], p) else s
  }

  function TrimSpace(s: string): string {
    TrimRight(TrimLeft(s, IsSpace), IsSpace)
  }

  /** Neither end of the string is a character that `p` would trim. */
  predicate Bare(s: string, p: char -> bool) {
    s != "" ==> !p(s[0]) && !p(s[|s| - 1])
  }

  /** Trimming removes exactly the padding: whatever splits into a part that ends outside `p` and a
      tail inside `p` is split there. */
  lemma {:induction false} TrimRightSplits(s: string, kept: string, pad: string, p: char -> bool)
    requires s == kept + pad && All(pad, p)
    requires kept != "" ==> !p(kept[|kept| - 1])
    ensures TrimRight(s, p) == kept
  {
    if pad == "" {
      assert s == kept;
    } else {
      var shorter := pad[..|pad| - 1];
      assert pad[|pad| - 1] == s[|s| - 1];
      TrimRightSplits(s[..|s| - 1], kept, shorter, p);
    }
  }

  lemma {:induction false} TrimLeftSplits(s: string, pad: string, kept: string, p: char -> bool)
    requires s == pad + kept && All(pad, p)
    requires kept != "" ==> !p(kept[0])
    ensures TrimLeft(s, p) == kept
  {
    if pad == "" {
      assert s == kept;
    } else {
      TrimLeftSplits(s[1..], pad[1..], kept, p);
    }
  }

  lemma TrimLeftTwice(s: string, p: char -> bool)
    ensures TrimLeft(TrimLeft(s, p), p) == TrimLeft(s, p)
  {
  }

  lemma TrimSpaceIsBare(s: string)
    ensures Bare(TrimSpace(s), IsSpace)
  {
    var left := TrimLeft(s, IsSpace);
    var r := TrimRight(left, IsSpace);
    if r != "" {
      assert r[0] == left[0];
    }
  }

  lemma TrimSpaceKeepsBare(s: string)
    requires Bare(s, IsSpace)
    ensures TrimSpace(s) == s
  {
  }

  // ----- the order of sort.Strings -----

  predicate Less(a: string, b: string) {
    if b == "" then false
    else if a == "" then true
    else a[0] < b[0] || (a[0] == b[0] && Less(a[1..], b[1..]))
  }

  predicate AtMost(a: string, b: string) {
    a == b || Less(a, b)
  }

  /** Up to here the two agree, and here `a` ends or has the smaller character. */
  ghost predicate ComesFirstAt(a: string, b: string, i: nat) {
    i <= |a| && i < |b| && a[..i] == b[..i] && (i == |a| || a[i] < b[i])
  }

  /** The order of dictionaries: a proper prefix comes first, otherwise the first difference decides. */
  lemma {:induction false} LessAtFirstDifference(a: string, b: string)
    ensures Less(a, b) <==> exists i :: ComesFirstAt(a, b, i)
  {
    if a != "" && b != "" && a[0] == b[0] {
      LessAtFirstDifference(a[1..], b[1..]);
      if i :| ComesFirstAt(a[1..], b[1..], i) {
        LongerPrefix(a, b, i);
      }
      if i :| ComesFirstAt(a, b, i) {
        ShorterPrefix(a, b, i);
      }
    } else if Less(a, b) {
      assert ComesFirstAt(a, b, 0);
    } else if i :| ComesFirstAt(a, b, i) {
      SameFirst(a, b, i);
    }
  }

  lemma LongerPrefix(a: string, b: string, i: nat)
    requires a != "" && b != "" && a[0] == b[0] && ComesFirstAt(a[1..], b[1..], i)
    ensures ComesFirstAt(a, b, i + 1)
  {
    assert a[..i + 1] == [a[0]] + a[1..][..i] && b[..i + 1] == [b[0]] + b[1..][..i];
  }

  lemma ShorterPrefix(a: string, b: string, i: nat)
    requires a != "" && b != "" && a[0] == b[0] && ComesFirstAt(a, b, i)
    ensures i > 0 && ComesFirstAt(a[1..], b[1..], i - 1)
  {
    assert i > 0 ==> a[1..][..i - 1] == a[..i][1..] && b[1..][..i - 1] == b[..i][1..];
  }

  lemma SameFirst(a: string, b: string, i: nat)
    requires ComesFirstAt(a, b, i)
    ensures i > 0 ==> a != "" && b != "" && a[0] == b[0]
  {
    assert i > 0 ==> a[..i][0] == b[..i][0];
  }

  lemma {:induction false} LessIsTotal(a: string, b: string)
    ensures Less(a, b) || a == b || Less(b, a)
    ensures !(Less(a, b) && Less(b, a)) && (a == b ==> !Less(a, b))
  {
    if a != "" && b != "" {
      LessIsTotal(a[1..], b[1..]);
      assert a == [a[0]] + a[1..] && b == [b[0]] + b[1..];
    }
  }

  lemma {:induction false} LessIsTransitive(a: string, b: string, c: string)
    requires Less(a, b) && Less(b, c)
    ensures Less(a, c)
  {
    if a != "" && a[0] == b[0] == c[0] {
      LessIsTransitive(a[1..], b[1..], c[1..]);
    }
  }

  ghost predicate Sorted(s: seq<string>) {
    forall i, j :: 0 <= i < j < |s| ==> AtMost(s[i], s[j])
  }

  function Insert(x: string, s: seq<string>): (r: seq<string>)
    requires Sorted(s)
    ensures multiset(r) == multiset(s) + multiset{x}
    ensures Sorted(r)
  {
    if s == [] then [x]
    else if AtMost(x, s[0]) then
      SortedCons(x, s);
      [x] + s
    else
      var rest := Insert(x, s[1..]);
      InsertKeepsHead(x, s, rest);
      [s[0]] + rest
  }

  lemma SortedCons(x: string, s: seq<string>)
    requires Sorted(s) && (s != [] ==> AtMost(x, s[0]))
    ensures Sorted([x] + s)
  {
    var r := [x] + s;
    forall i, j | 0 <= i < j < |r| ensures AtMost(r[i], r[j]) {
      if i == 0 {
        assert r[j] == s[j - 1];
        if j > 1 && x != s[0] && s[0] != s[j - 1] {
          assert AtMost(s[0], s[j - 1]);
          LessIsTransitive(x, s[0], s[j - 1]);
        }
      }
    }
  }

  lemma InsertKeepsHead(x: string, s: seq<string>, rest: seq<string>)
    requires Sorted(s) && s != [] && !AtMost(x, s[0])
    requires Sorted(rest) && multiset(rest) == multiset(s[1..]) + multiset{x}
    ensures Sorted([s[0]] + rest)
    ensures multiset([s[0]] + rest) == multiset(s) + multiset{x}
  {
    LessIsTotal(x, s[0]);
    assert s == [s[0]] + s[1..];
    if rest != [] {
      assert rest[0] in multiset(rest);
      if rest[0] != x {
        assert rest[0] in multiset(s[1..]);
        var i :| 0 <= i < |s| - 1 && s[1..][i] == rest[0];
        assert AtMost(s[0], s[i + 1]);
      }
    }
    SortedCons(s[0], rest);
  }

  /** `sort.Strings`: its contract fixes the result, see SortedIsUnique. */
  function Sort(s: seq<string>): (r: seq<string>)
    ensures Sorted(r) && multiset(r) == multiset(s)
  {
    if s == [] then []
    else
      assert s == [s[0]] + s[1..];
      Insert(s[0], Sort(s[1..]))
  }

  lemma HeadIsLeast(s: seq<string>, x: string)
    requires Sorted(s) && x in s
    ensures AtMost(s[0], x)
  {
    var i :| 0 <= i < |s| && s[i] == x;
  }

  lemma SameHead(a: seq<string>, b: seq<string>)
    requires Sorted(a) && Sorted(b) && a != [] && multiset(a) == multiset(b)
    ensures |a| == |b| && a[0] == b[0]
  {
    assert |a| == |multiset(a)| == |multiset(b)| == |b|;
    assert a[0] in multiset(b) && b[0] in multiset(a);
    HeadIsLeast(a, b[0]);
    HeadIsLeast(b, a[0]);
    LessIsTotal(a[0], b[0]);
  }

  lemma SameTail(a: seq<string>, b: seq<string>)
    requires a != [] && b != [] && a[0] == b[0] && multiset(a) == multiset(b)
    ensures multiset(a[1..]) == multiset(b[1..])
  {
    assert a == [a[0]] + a[1..] && b == [b[0]] + b[1..];
    assert multiset(a[1..]) == multiset(a) - multiset{a[0]};
    assert multiset(b[1..]) == multiset(b) - multiset{b[0]};
  }

  lemma SortedTail(s: seq<string>)
    requires Sorted(s) && s != []
    ensures Sorted(s[1..])
  {
  }

  /** A multiset of strings has one sorted listing, so nothing depends on how `sort.Strings` works. */
  lemma {:induction false} SortedIsUnique(a: seq<string>, b: seq<string>)
    requires Sorted(a) && Sorted(b) && multiset(a) == multiset(b)
    ensures a == b
  {
    hide Sorted;
    if a == [] {
      assert |multiset(b)| == 0;
    } else {
      SameHead(a, b);
      SameTail(a, b);
      SortedTail(a);
      SortedTail(b);
      SortedIsUnique(a[1..], b[1..]);
      assert a == [a[0]] + a[1..] && b == [b[0]] + b[1..];
    }
  }
}
