/** Table references and their strict encoder: tables/tables.go, `TableRef`, `String`, `writeEscaped`. */
module TableRefs {
  import opened Text

  /** A Go reference with a nil parameter map and one with an empty map are the same value here. */
  datatype TableRef = TableRef(table: string, params: map<string, string>)

  predicate IsReserved(c: char) {
    c == '(' || c == ')' || c == ',' || c == '=' || c == '\\'
  }

  // ----- escaping -----

  function EscapeChar(c: char): string {
    if IsReserved(c) then ['\\', c] else [c]
  }

  function Escape(s: string): string {
    if s == "" then "" else EscapeChar(s[0]) + Escape(s[1..])
  }

  lemma EscapeCons(c: char, s: string)
    ensures Escape([c] + s) == EscapeChar(c) + Escape(s)
  {
    assert ([c] + s)[1..] == s;
  }

  lemma {:induction false} EscapeAppend(a: string, b: string)
    ensures Escape(a + b) == Escape(a) + Escape(b)
  {
    if a == "" {
      assert a + b == b;
    } else {
      assert (a + b)[1..] == a[1..] + b;
      EscapeAppend(a[1..], b);
    }
  }

  lemma {:induction false} EscapePlain(s: string)
    requires forall i :: 0 <= i < |s| ==> !IsReserved(s[i])
    ensures Escape(s) == s
  {
    if s != "" {
      EscapePlain(s[1..]);
    }
  }

  /** Both ends of an escaped string are trimmed exactly when the ends of the plain one are. */
  lemma EscapeEnds(s: string)
    requires s != ""
    ensures Escape(s) != ""
    ensures Escape(s)[0] == if IsReserved(s[0]) then '\\' else s[0]
    ensures Escape(s)[|Escape(s)| - 1] == s[|s| - 1]
  {
    var front, last := s[..|s| - 1], s[|s| - 1..];
    assert s == front + last;
    EscapeAppend(front, last);
    assert last[1..] == "";
    assert Escape(last) == EscapeChar(last[0]);
  }

  method WriteEscaped(sb: string, s: string) returns (r: string)
    ensures r == sb + Escape(s)
  {
    r := sb;
    for i := 0 to |s|
      invariant r + Escape(s[i..]) == sb + Escape(s)
    {
      var c := s[i];
      ghost var before := r;
      assert s[i..][1..] == s[i + 1..];
      if IsReserved(c) {
        r := r + ['\\'];
      }
      r := r + [c];
      assert r + Escape(s[i + 1..]) == before + Escape(s[i..]);
    }
    assert s[|s|..] == "";
  }

  // ----- parameters in sorted key order -----

  /** The sorted listing of a set of keys; SortedIsUnique makes it the only one. */
  ghost function SortedKeys(keys: set<string>): (r: seq<string>)
    ensures Sorted(r) && multiset(r) == multiset(keys)
  {
    if keys == {} then [] else
    var k :| k in keys;
    assert keys == keys - {k} + {k};
    Insert(k, SortedKeys(keys - {k}))
  }

  lemma SortedKeysHasAll(keys: set<string>)
    ensures forall k :: k in keys <==> k in SortedKeys(keys)
  {
    forall k ensures k in keys <==> k in SortedKeys(keys) {
      assert k in multiset(SortedKeys(keys)) <==> k in multiset(keys);
    }
  }

  lemma CountedOnce(s: seq<string>, i: nat, j: nat)
    requires i < j < |s| && multiset(s)[s[i]] <= 1
    ensures s[i] != s[j]
  {
    var front, back := s[..j], s[j..];
    assert s == front + back;
    assert front[i] in multiset(front) && back[0] in multiset(back);
  }

  lemma SortedKeysAreDistinct(m: map<string, string>)
    ensures forall i, j :: 0 <= i < j < |SortedKeys(m.Keys)| ==> SortedKeys(m.Keys)[i] != SortedKeys(m.Keys)[j]
  {
    var keys := SortedKeys(m.Keys);
    forall i, j | 0 <= i < j < |keys| ensures keys[i] != keys[j] {
      assert multiset(m.Keys)[keys[i]] <= 1;
      CountedOnce(keys, i, j);
    }
  }

  /** Collects the keys of a map in whatever order the iteration yields them. */
  method ListKeys(m: map<string, string>) returns (keys: seq<string>)
    ensures multiset(keys) == multiset(m.Keys)
  {
    keys := [];
    var rest := m.Keys;
    while rest != {}
      invariant rest <= m.Keys
      invariant multiset(keys) + multiset(rest) == multiset(m.Keys)
      decreases rest
    {
      var k :| k in rest;
      ghost var before := rest;
      rest := rest - {k};
      assert before == rest + {k};
      keys := keys + [k];
    }
  }

  function EncodePair(k: string, v: string): string {
    Escape(k) + "=" + Escape(v)
  }

  /** The pairs of the given keys, separated by commas and closed by a parenthesis. */
  function EncodePairs(keys: seq<string>, m: map<string, string>): string
    requires keys != [] && forall k :: k in keys ==> k in m
  {
    EncodePair(keys[0], m[keys[0]]) +
    if |keys| == 1 then ")" else "," + EncodePairs(keys[1..], m)
  }

  ghost function EncodeParams(m: map<string, string>): string
    requires m != map[]
  {
    SortedKeysHasAll(m.Keys);
    SortedKeysNonEmpty(m);
    "(" + EncodePairs(SortedKeys(m.Keys), m)
  }

  ghost function Encode(ref: TableRef): string {
    Escape(ref.table) + if ref.params == map[] then "" else EncodeParams(ref.params)
  }

  lemma SortedKeysNonEmpty(m: map<string, string>)
    requires m != map[]
    ensures SortedKeys(m.Keys) != []
  {
    SortedKeysHasAll(m.Keys);
    var k :| k in m;
    assert k in SortedKeys(m.Keys);
  }

  /** What remains to be written once the first `i` pairs are out. */
  ghost function Remaining(keys: seq<string>, i: nat, m: map<string, string>): string
    requires i <= |keys| && forall k :: k in keys ==> k in m
  {
    if i == |keys| then ")"
    else (if i > 0 then "," else "") + EncodePairs(keys[i..], m)
  }

  lemma AppendPair(a: string, b: string, c: string, d: string, e: string, f: string)
    ensures a + (b + (c + d + e + f)) == a + b + c + d + e + f
  {
  }

  lemma RemainingStep(sb: string, keys: seq<string>, i: nat, m: map<string, string>)
    requires i < |keys| && forall k :: k in keys ==> k in m
    ensures sb + Remaining(keys, i, m) ==
            sb + (if i > 0 then "," else "") + Escape(keys[i]) + "=" + Escape(m[keys[i]]) + Remaining(keys, i + 1, m)
  {
    assert keys[i..][1..] == keys[i + 1..];
    var comma := if i > 0 then "," else "";
    var ek, ev := Escape(keys[i]), Escape(m[keys[i]]);
    AppendPair(sb, comma, ek, "=", ev, Remaining(keys, i + 1, m));
  }

  method WriteParams(prefix: string, m: map<string, string>) returns (sb: string)
    requires m != map[]
    ensures sb == prefix + EncodeParams(m)
  {
    sb := prefix + "(";
    var listed := ListKeys(m);
    var keys := Sort(listed);
    SortedIsUnique(keys, SortedKeys(m.Keys));
    SortedKeysHasAll(m.Keys);
    SortedKeysNonEmpty(m);
    ghost var whole := prefix + EncodeParams(m);
    assert keys[0..] == keys;
    for i := 0 to |keys|
      invariant sb + Remaining(keys, i, m) == whole
    {
      var k := keys[i];
      RemainingStep(sb, keys, i, m);
      sb := sb + if i > 0 then "," else "";
      sb := WriteEscaped(sb, k);
      sb := sb + "=";
      sb := WriteEscaped(sb, m[k]);
    }
    sb := sb + ")";
  }

  /** `TableRef.String`: one canonical text, whatever order the map is iterated in. */
  method String(r: TableRef) returns (s: string)
    ensures s == Encode(r)
  {
    s := WriteEscaped("", r.table);
    if |r.params| > 0 {
      s := WriteParams(s, r.params);
    }
  }
}
