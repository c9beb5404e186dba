/**
 * ASCII string helpers that stand for the JavaScript string operations the form uses:
 * `String.prototype.trim`, the `\s+` whitespace class, `toUpperCase` and the
 * `[^A-Za-z0-9_-]` character filter. Only ASCII characters are classified.
 */
module Text {

  /** ASCII white space as matched by `\s`: space, tab, line feed, vertical tab, form feed, carriage return. */
  predicate IsSpace(c: char) {
    c == ' ' || '\t' <= c <= '\r'
  }

  predicate AllSpace(s: string) {
    forall i :: 0 <= i < |s| ==> IsSpace(s[i])
  }

  predicate NoSpace(s: string) {
    forall i :: 0 <= i < |s| ==> !IsSpace(s[i])
  }

  /** Drops the leading white space of `s`. */
  function TrimStart(s: string): (r: string)
    ensures |r| <= |s| && r == s[|s| - |r|..]
    ensures forall i :: 0 <= i < |s| - |r| ==> IsSpace(s[i])
    ensures r == [] || !IsSpace(r[0])
  {
    if s != [] && IsSpace(s[0]) then
      var r := TrimStart(s[1..]);
      assert s[|s| - |r|..] == s[1..][|s| - 1 - |r|..];
      r
    else s
  }

  /** Drops the trailing white space of `s`. */
  function TrimEnd(s: string): (r: string)
    ensures |r| <= |s| && r == s[..|r|]
    ensures forall i :: |r| <= i < |s| ==> IsSpace(s[i])
    ensures r == [] || !IsSpace(r[|r| - 1])
  {
    if s != [] && IsSpace(s[|s| - 1]) then
      var p := s[..|s| - 1];
      var r := TrimEnd(p);
      assert s[..|r|] == p[..|r|];
      r
    else s
  }

  /** `String.prototype.trim`: white space removed at both ends. */
  function Trim(s: string): (r: string)
    ensures |r| <= |s|
    ensures r == [] || (!IsSpace(r[0]) && !IsSpace(r[|r| - 1]))
  {
    TrimEnd(TrimStart(s))
  }

  /**
   * Trimming cuts white space at the two ends and nothing else: the result is
   * the slice of `s` that starts after the leading white space.
   */
  lemma TrimCutsOnlySpace(s: string)
    ensures var lead := |s| - |TrimStart(s)|; var r := Trim(s);
      lead + |r| <= |s| && r == s[lead..lead + |r|]
      && AllSpace(s[..lead]) && AllSpace(s[lead + |r|..])
  {
    TrimIsSlice(s);
    LeadingCut(s);
    TrailingCut(s);
  }

  lemma TrimIsSlice(s: string)
    ensures var lead := |s| - |TrimStart(s)|;
      lead + |Trim(s)| <= |s| && Trim(s) == s[lead..lead + |Trim(s)|]
  {
    var t := TrimStart(s);
    var r := TrimEnd(t);
    var lead := |s| - |t|;
    assert t == s[lead..] && r == t[..|r|];
  }

  lemma LeadingCut(s: string)
    ensures AllSpace(s[..|s| - |TrimStart(s)|])
  {
    var front := s[..|s| - |TrimStart(s)|];
    forall i | 0 <= i < |front|
      ensures IsSpace(front[i])
    {
      assert front[i] == s[i];
    }
  }

  lemma TrailingCut(s: string)
    ensures |s| - |TrimStart(s)| + |Trim(s)| <= |s|
    ensures AllSpace(s[|s| - |TrimStart(s)| + |Trim(s)|..])
  {
    var t := TrimStart(s);
    var r := TrimEnd(t);
    var k := |s| - |t| + |r|;
    var back := s[k..];
    forall i | 0 <= i < |back|
      ensures IsSpace(back[i])
    {
      assert back[i] == t[|r| + i];
    }
  }

  /** The trimmed text is empty exactly when the input is all white space. */
  lemma {:induction false} TrimEmptyIff(s: string)
    ensures Trim(s) == [] <==> AllSpace(s)
  {
    var t := TrimStart(s);
    if Trim(s) == [] {
      assert s == s[..|s| - |t|] + t;
      assert t == t[|TrimEnd(t)|..];
    }
  }

  /** Text without white space at either end is its own trim. */
  lemma TrimOfTrimmed(s: string)
    requires s == [] || (!IsSpace(s[0]) && !IsSpace(s[|s| - 1]))
    ensures Trim(s) == s
  {
    if s != [] {
      assert TrimStart(s) == s;
    }
  }

  /** Trimming twice is trimming once. */
  lemma TrimIdempotent(s: string)
    ensures Trim(Trim(s)) == Trim(s)
  {
    TrimOfTrimmed(Trim(s));
  }

  /** ASCII upper-casing of one character. */
  function UpperChar(c: char): char {
    if 'a' <= c <= 'z' then (c as int - 32) as char else c
  }

  predicate IsLowerLetter(c: char) {
    'a' <= c <= 'z'
  }

  /** `toUpperCase` restricted to ASCII. */
  function Upper(s: string): (r: string)
    ensures |r| == |s|
    ensures forall i :: 0 <= i < |s| ==> r[i] == UpperChar(s[i])
  {
    if s == [] then [] else [UpperChar(s[0])] + Upper(s[1..])
  }

  /** Upper-casing works character by character: it distributes over concatenation. */
  lemma UpperAppend(a: string, b: string)
    ensures Upper(a + b) == Upper(a) + Upper(b)
  {
    var u, v := Upper(a + b), Upper(a) + Upper(b);
    forall i | 0 <= i < |u|
      ensures u[i] == v[i]
    {
      if i < |a| {
        assert (a + b)[i] == a[i];
      } else {
        assert (a + b)[i] == b[i - |a|];
      }
    }
  }

  /** After upper-casing no lower-case letter is left, and white space is exactly where it was. */
  lemma UpperShape(s: string)
    ensures forall i :: 0 <= i < |s| ==> !IsLowerLetter(Upper(s)[i])
    ensures forall i :: 0 <= i < |s| ==> (IsSpace(Upper(s)[i]) <==> IsSpace(s[i]))
  {
  }

  /** Every maximal run of white space becomes one underscore. */
  function CollapseSpaces(s: string): (r: string)
    ensures NoSpace(r)
    ensures |r| <= |s|
    decreases |s|
  {
    if s == [] then []
    else if IsSpace(s[0]) then "_" + CollapseSpaces(TrimStart(s[1..]))
    else [s[0]] + CollapseSpaces(s[1..])
  }

  /** Skipping a white-space run lands on the first character after it. */
  lemma {:induction false} TrimStartOfSpaceRun(w: string, b: string)
    requires AllSpace(w) && (b == [] || !IsSpace(b[0]))
    ensures TrimStart(w + b) == b
  {
    if w == [] {
      assert w + b == b;
    } else {
      assert (w + b)[0] == w[0] && (w + b)[1..] == w[1..] + b;
      TrimStartOfSpaceRun(w[1..], b);
    }
  }

  /**
   * The run law: a maximal white-space run after a stretch without white space
   * becomes exactly one `_`, and the text on either side is kept.
   */
  lemma {:induction false} CollapseSpacesRun(a: string, w: string, b: string)
    requires NoSpace(a) && w != [] && AllSpace(w) && (b == [] || !IsSpace(b[0]))
    ensures CollapseSpaces(a + w + b) == a + "_" + CollapseSpaces(b)
  {
    if a == [] {
      assert a + w + b == w + b;
      assert (w + b)[1..] == w[1..] + b;
      TrimStartOfSpaceRun(w[1..], b);
    } else {
      var s := a + w + b;
      assert s[0] == a[0] && s[1..] == a[1..] + w + b;
      CollapseSpacesRun(a[1..], w, b);
      assert [a[0]] + (a[1..] + "_" + CollapseSpaces(b)) == a + "_" + CollapseSpaces(b);
    }
  }

  /** Text without white space passes through unchanged. */
  lemma {:induction false} CollapseSpacesIdentity(s: string)
    requires NoSpace(s)
    ensures CollapseSpaces(s) == s
  {
    if s != [] {
      CollapseSpacesIdentity(s[1..]);
    }
  }

  /** Collapsing is idempotent. */
  lemma CollapseSpacesIdempotent(s: string)
    ensures CollapseSpaces(CollapseSpaces(s)) == CollapseSpaces(s)
  {
    CollapseSpacesIdentity(CollapseSpaces(s));
  }

  /** Characters matched by `[A-Za-z0-9_-]`. */
  predicate IsPidChar(c: char) {
    'A' <= c <= 'Z' || 'a' <= c <= 'z' || '0' <= c <= '9' || c == '_' || c == '-'
  }

  predicate AllPidChars(s: string) {
    forall i :: 0 <= i < |s| ==> IsPidChar(s[i])
  }

  /** Drops every character outside letters, digits, `_` and `-`. */
  function KeepPidChars(s: string): (r: string)
    ensures AllPidChars(r)
    ensures |r| <= |s|
  {
    if s == [] then []
    else if IsPidChar(s[0]) then [s[0]] + KeepPidChars(s[1..])
    else KeepPidChars(s[1..])
  }

  /** The filter works character by character: it distributes over concatenation. */
  lemma {:induction false} KeepPidCharsAppend(a: string, b: string)
    ensures KeepPidChars(a + b) == KeepPidChars(a) + KeepPidChars(b)
  {
    if a == [] {
      assert a + b == b;
    } else {
      assert (a + b)[0] == a[0] && (a + b)[1..] == a[1..] + b;
      KeepPidCharsAppend(a[1..], b);
      if IsPidChar(a[0]) {
        assert [a[0]] + (KeepPidChars(a[1..]) + KeepPidChars(b))
            == ([a[0]] + KeepPidChars(a[1..])) + KeepPidChars(b);
      }
    }
  }

  /** A string made only of allowed characters is kept whole. */
  lemma {:induction false} KeepPidCharsIdentity(s: string)
    requires AllPidChars(s)
    ensures KeepPidChars(s) == s
  {
    if s != [] {
      KeepPidCharsIdentity(s[1..]);
    }
  }

  /** A string with no allowed character is removed entirely. */
  lemma {:induction false} KeepPidCharsNone(s: string)
    requires forall i :: 0 <= i < |s| ==> !IsPidChar(s[i])
    ensures KeepPidChars(s) == []
  {
    if s != [] {
      KeepPidCharsNone(s[1..]);
    }
  }
}
