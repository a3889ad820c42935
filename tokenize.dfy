/**
 * Go's strings.Fields: split a string around each run of white space (as
 * unicode.IsSpace defines it) and drop the empty pieces.
 */
module Tokenize {

  /** unicode.IsSpace: the Latin-1 spaces, then the White_Space property above Latin-1. */
  predicate IsSpace(c: char) {
    c == '\t' || c == '\n' || c == '\U{B}' || c == '\U{C}' || c == '\r' || c == ' '
    || c == '\U{85}' || c == '\U{A0}'
    || c == '\U{1680}' || ('\U{2000}' <= c <= '\U{200A}') || c == '\U{2028}' || c == '\U{2029}'
    || c == '\U{202F}' || c == '\U{205F}' || c == '\U{3000}'
  }

  /** A token: non-empty and free of white space. */
  predicate IsWord(w: string) {
    |w| > 0 && forall j :: 0 <= j < |w| ==> !IsSpace(w[j])
  }

  /** Some non-space character occurs in s. */
  predicate HasWord(s: string) {
    exists i :: 0 <= i < |s| && !IsSpace(s[i])
  }

  /** Every character of w occurs in s. */
  predicate CharsOf(w: string, s: string) {
    forall j :: 0 <= j < |w| ==> w[j] in s
  }

  /** The length of the longest prefix of s without white space. */
  function WordEnd(s: string): (n: nat)
    ensures n <= |s|
    ensures forall j :: 0 <= j < n ==> !IsSpace(s[j])
    ensures n < |s| ==> IsSpace(s[n])
    decreases |s|
  {
    if s == [] || IsSpace(s[0]) then 0 else 1 + WordEnd(s[1..])
  }

  /** strings.Fields: the maximal runs of non-space characters of s, in order. */
  function Fields(s: string): (r: seq<string>)
    ensures forall i :: 0 <= i < |r| ==> IsWord(r[i])
    decreases |s|
  {
    if s == [] then []
    else if IsSpace(s[0]) then Fields(s[1..])
    else
      var n := WordEnd(s);
      [s[..n]] + Fields(s[n..])
  }

  lemma CharsOfSuffix(w: string, s: string, m: nat)
    requires m <= |s| && CharsOf(w, s[m..])
    ensures CharsOf(w, s)
  {
    forall j | 0 <= j < |w| ensures w[j] in s {
      var i :| 0 <= i < |s[m..]| && s[m..][i] == w[j];
      assert s[m + i] == w[j];
    }
  }

  /** Every token of s is a word made of characters of s. */
  lemma {:induction false} FieldsAreWords(s: string)
    ensures forall k :: 0 <= k < |Fields(s)| ==> IsWord(Fields(s)[k]) && CharsOf(Fields(s)[k], s)
    decreases |s|
  {
    if s == [] {
    } else if IsSpace(s[0]) {
      FieldsAreWords(s[1..]);
      forall k | 0 <= k < |Fields(s)| ensures CharsOf(Fields(s)[k], s) {
        CharsOfSuffix(Fields(s[1..])[k], s, 1);
      }
    } else {
      var n := WordEnd(s);
      var rest := s[n..];
      FieldsAreWords(rest);
      assert s == s[..n] + rest;
      forall k | 0 <= k < |Fields(s)| ensures IsWord(Fields(s)[k]) && CharsOf(Fields(s)[k], s) {
        var w := Fields(s)[k];
        if k == 0 {
          assert w == s[..n];
        } else {
          assert w == Fields(rest)[k - 1];
          CharsOfSuffix(w, s, n);
        }
      }
    }
  }

  /** The tokens joined with single spaces (strings.Join(ts, " ")). */
  function Join(ts: seq<string>): string {
    if ts == [] then []
    else if |ts| == 1 then ts[0]
    else ts[0] + [' '] + Join(ts[1..])
  }

  /**
   * Reference definition of "runs of white space collapsed to one space and
   * the ends trimmed", character by character: white space is dropped, and a
   * non-space character is followed by one space exactly when white space
   * follows it and a non-space character comes later.
   */
  function Collapse(s: string): string
    decreases |s|
  {
    if s == [] then []
    else if IsSpace(s[0]) then Collapse(s[1..])
    else if |s| > 1 && IsSpace(s[1]) && HasWord(s[1..]) then [s[0], ' '] + Collapse(s[1..])
    else [s[0]] + Collapse(s[1..])
  }

  /** Fields finds no token exactly when s is all white space. */
  lemma {:induction false} FieldsEmpty(s: string)
    ensures Fields(s) == [] <==> !HasWord(s)
    decreases |s|
  {
    if s != [] && IsSpace(s[0]) {
      FieldsEmpty(s[1..]);
      if HasWord(s) {
        var i :| 0 <= i < |s| && !IsSpace(s[i]);
        assert s[1..][i - 1] == s[i];
      }
    }
  }

  /** Collapse of an all-space string is empty. */
  lemma {:induction false} CollapseNoWord(s: string)
    requires !HasWord(s)
    ensures Collapse(s) == []
    decreases |s|
  {
    if s != [] {
      assert IsSpace(s[0]);
      assert !HasWord(s[1..]) by {
        forall i | 0 <= i < |s[1..]| ensures IsSpace(s[1..][i]) {
          assert s[1..][i] == s[i + 1];
        }
      }
      CollapseNoWord(s[1..]);
    }
  }

  /** Collapse of a leading word followed by a space (or nothing). */
  lemma {:induction false} CollapseWord(s: string, n: nat)
    requires 0 < n <= |s|
    requires forall j :: 0 <= j < n ==> !IsSpace(s[j])
    requires n == |s| || IsSpace(s[n])
    ensures Collapse(s) == s[..n] + (if HasWord(s[n..]) then [' '] + Collapse(s[n..]) else [])
    decreases n
  {
    if n == 1 {
      if |s| > 1 {
        assert s[1..] == s[n..];
        if !HasWord(s[1..]) {
          CollapseNoWord(s[1..]);
        }
      }
    } else {
      assert !IsSpace(s[1]);
      assert s[1..][n - 1..] == s[n..];
      CollapseWord(s[1..], n - 1);
      assert s[..n] == [s[0]] + s[1..][..n - 1];
    }
  }

  /**
   * Joining the tokens of s with single spaces gives s with every run of
   * white space collapsed to one space and both ends trimmed.
   */
  lemma {:induction false} JoinFields(s: string)
    ensures Join(Fields(s)) == Collapse(s)
    decreases |s|
  {
    if s == [] {
    } else if IsSpace(s[0]) {
      JoinFields(s[1..]);
    } else {
      var n := WordEnd(s);
      var rest := s[n..];
      assert Fields(s) == [s[..n]] + Fields(rest);
      JoinFields(rest);
      FieldsEmpty(rest);
      CollapseWord(s, n);
      if Fields(rest) != [] {
        assert ([s[..n]] + Fields(rest))[1..] == Fields(rest);
      }
    }
  }

  /** WordEnd of a word followed by a space (or nothing) is the word's length. */
  lemma WordEndOfWord(w: string, rest: string)
    requires IsWord(w)
    requires rest == [] || IsSpace(rest[0])
    ensures WordEnd(w + rest) == |w|
  {
    var s := w + rest;
    assert forall j :: 0 <= j < |w| ==> s[j] == w[j];
    assert |w| < |s| ==> s[|w|] == rest[0];
  }

  /** A word followed by white space (or by nothing) is split off as one token. */
  lemma FieldsWord(w: string, rest: string)
    requires IsWord(w)
    requires rest == [] || IsSpace(rest[0])
    ensures Fields(w + rest) == [w] + Fields(rest)
  {
    var s := w + rest;
    WordEndOfWord(w, rest);
    assert s[0] == w[0];
    assert s[..|w|] == w && s[|w|..] == rest;
  }

  /** Leading white space produces no token. */
  lemma {:induction false} FieldsSkipSpaces(sp: string, rest: string)
    requires forall j :: 0 <= j < |sp| ==> IsSpace(sp[j])
    ensures Fields(sp + rest) == Fields(rest)
    decreases |sp|
  {
    if sp != [] {
      assert (sp + rest)[1..] == sp[1..] + rest;
      FieldsSkipSpaces(sp[1..], rest);
    } else {
      assert sp + rest == rest;
    }
  }

  /** A leading space of x + y is dropped as it is from x. */
  lemma FieldsAppendSpace(x: string, y: string)
    requires x != [] && IsSpace(x[0])
    ensures Fields(x + y) == Fields(x[1..] + y)
  {
    assert (x + y)[0] == x[0] && (x + y)[1..] == x[1..] + y;
  }

  /** A leading word of x that white space ends inside x is split off x + y unchanged. */
  lemma FieldsAppendWord(x: string, y: string)
    requires x != [] && !IsSpace(x[0]) && IsSpace(x[|x| - 1])
    ensures WordEnd(x) < |x|
    ensures Fields(x + y) == [x[..WordEnd(x)]] + Fields(x[WordEnd(x)..] + y)
  {
    var n := WordEnd(x);
    var w, rest := x[..n], x[n..];
    assert x == w + rest && x + y == w + (rest + y);
    FieldsWord(w, rest + y);
  }

  /** A white-space character at the end of a field produces no token. */
  lemma {:induction false} FieldsTrailingSpace(x: string, c: char)
    requires IsSpace(c)
    ensures Fields(x + [c]) == Fields(x)
    decreases |x|
  {
    var s := x + [c];
    if x == [] {
      assert s[1..] == [];
    } else if IsSpace(x[0]) {
      assert s[0] == x[0] && s[1..] == x[1..] + [c];
      FieldsTrailingSpace(x[1..], c);
    } else {
      var n := WordEnd(x);
      var w, rest := x[..n], x[n..];
      assert x == w + rest && s == w + (rest + [c]);
      if n < |x| {
        FieldsWord(w, rest);
        FieldsWord(w, rest + [c]);
        FieldsTrailingSpace(rest, c);
      } else {
        assert rest == [] && x == x + [];
        FieldsWord(x, []);
        FieldsWord(x, [c]);
        assert [c][1..] == [];
      }
    }
  }

  /** A field split at a white-space character gives the tokens of both parts. */
  lemma FieldsSpaceJoin(x: string, y: string)
    requires y != [] && IsSpace(y[0])
    ensures Fields(x + y) == Fields(x) + Fields(y)
  {
    assert x + y == (x + [y[0]]) + y[1..];
    FieldsAppend(x + [y[0]], y[1..]);
    FieldsTrailingSpace(x, y[0]);
  }

  /** Splitting distributes over a concatenation whose left part ends in white space. */
  lemma {:induction false} FieldsAppend(x: string, y: string)
    requires x == [] || IsSpace(x[|x| - 1])
    ensures Fields(x + y) == Fields(x) + Fields(y)
    decreases |x|
  {
    if x == [] {
      assert x + y == y;
    } else if IsSpace(x[0]) {
      FieldsAppendSpace(x, y);
      FieldsAppend(x[1..], y);
    } else {
      FieldsAppendWord(x, y);
      var n := WordEnd(x);
      FieldsAppend(x[n..], y);
    }
  }

  /** Splitting what Join built gives back the tokens. */
  lemma {:induction false} FieldsJoin(ts: seq<string>)
    requires forall k :: 0 <= k < |ts| ==> IsWord(ts[k])
    ensures Fields(Join(ts)) == ts
  {
    if ts == [] {
    } else if |ts| == 1 {
      FieldsWord(ts[0], []);
      assert ts[0] + [] == ts[0];
    } else {
      var w, tail := ts[0], Join(ts[1..]);
      assert Join(ts) == w + ([' '] + tail) && ([' '] + tail)[0] == ' ';
      FieldsWord(w, [' '] + tail);
      FieldsSkipSpaces([' '], tail);
      FieldsJoin(ts[1..]);
    }
  }
}
