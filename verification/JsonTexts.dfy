/** What a JSON text looks like from outside (section 2 of RFC 8259): a scanner that only knows where
    strings begin and end. It shows that a label hashed in front of a JSON value is not found again inside
    another one, although nothing separates the two. */
module JsonTexts {

  datatype Mode = Outside | Inside | Escaped

  function Next(m: Mode, c: char): Mode {
    match m
    case Outside => if c == '"' then Inside else Outside
    case Inside => if c == '"' then Outside else if c == '\\' then Escaped else Inside
    case Escaped => Inside
  }

  function Scan(s: string, m: Mode): Mode {
    if s == "" then m else Scan(s[1..], Next(m, s[0]))
  }

  /** Outside strings: white space, quotes, structural characters, numbers, and true, false and null. */
  predicate MayStandOutside(c: char) {
    || c in {' ', '\t', '\n', '\r', '"', '{', '}', '[', ']', ':', ',', '-', '+', '.', 'E'}
    || '0' <= c <= '9'
    || c in {'t', 'r', 'u', 'e', 'f', 'a', 'l', 's', 'n'}
  }

  /** A JSON text, or the rest of one: strings are closed at the end. */
  ghost predicate IsJsonText(s: string, m: Mode) {
    if s == "" then m.Outside?
    else (m.Outside? ==> MayStandOutside(s[0])) && IsJsonText(s[1..], Next(m, s[0]))
  }

  /** The labels `columns` and `dependencyValues` start like this. */
  predicate StartsLabel(s: string) {
    |s| > 1 && ((s[0] == 'c' && s[1] == 'o') || (s[0] == 'd' && s[1] == 'e'))
  }

  /** Strings are closed at the end, and outside of them is neither a backslash nor one of those labels. */
  ghost predicate IsClean(s: string, m: Mode) {
    if s == "" then m.Outside?
    else (m.Outside? ==> s[0] != '\\' && !StartsLabel(s)) && IsClean(s[1..], Next(m, s[0]))
  }

  lemma {:induction false} JsonIsClean(s: string, m: Mode)
    requires IsJsonText(s, m)
    ensures IsClean(s, m)
  {
    if s != "" {
      JsonIsClean(s[1..], Next(m, s[0]));
    }
  }

  /** No label is formed where two texts meet. */
  predicate Meets(x: string, y: string) {
    x == "" || y == "" || !StartsLabel([x[|x| - 1], y[0]])
  }

  lemma {:induction false} CleanAppend(x: string, y: string, m: Mode)
    requires IsClean(x, m) && IsClean(y, Outside) && Meets(x, y)
    ensures IsClean(x + y, m)
  {
    if x == "" {
      assert x + y == y;
    } else {
      assert (x + y)[1..] == x[1..] + y;
      assert Meets(x[1..], y);
      CleanAppend(x[1..], y, Next(m, x[0]));
    }
  }

  /** The rest of a clean text is clean in the mode that the part before it ends in. */
  lemma {:induction false} CleanRest(x: string, y: string, m: Mode)
    requires IsClean(x + y, m)
    ensures IsClean(y, Scan(x, m))
  {
    if x == "" {
      assert x + y == y;
    } else {
      assert (x + y)[1..] == x[1..] + y;
      CleanRest(x[1..], y, Next(m, x[0]));
    }
  }

  /** What is string and what is not changes places when a text is read from inside a string, and both
      readings cannot end outside. */
  lemma {:induction false} OneReading(s: string)
    ensures !(IsClean(s, Outside) && IsClean(s, Inside))
  {
    if s != "" && s[0] != '\\' {
      OneReading(s[1..]);
    }
  }

  ghost predicate IsPlain(s: string) {
    forall i :: 0 <= i < |s| ==> s[i] != '"' && s[i] != '\\'
  }

  lemma {:induction false} PlainStaysInside(s: string, m: Mode)
    requires IsPlain(s) && !m.Outside? && s != ""
    ensures Scan(s, m) == Inside
  {
    if |s| > 1 {
      PlainStaysInside(s[1..], Next(m, s[0]));
    }
  }

  /** A clean text is no part of another one behind such a label. */
  lemma LabelIsNotWithin(x: string, w: string, mark: string, y: string)
    requires IsClean(x, Outside) && IsClean(y, Outside) && StartsLabel(mark) && IsPlain(mark)
    ensures x != w + (mark + y)
  {
    if x == w + (mark + y) {
      CleanRest(w, mark + y, Outside);
      var m := Scan(w, Outside);
      assert StartsLabel(mark + y);
      assert !m.Outside?;
      CleanRest(mark, y, m);
      PlainStaysInside(mark, m);
      OneReading(y);
    }
  }
}
