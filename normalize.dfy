/**
 * The text normaliser applied to every comic title and transcript: one
 * substitution pass of the pattern  [^a-zA-Z0-9]|Alt:|Alt-title:  by a single
 * space (leftmost-first, as Go's regexp does it), followed by lowercasing.
 *
 * Strings are sequences of runes. After the substitution only ASCII letters,
 * digits and spaces are left, so lowercasing only ever meets ASCII letters.
 */
module Normalize {

  /** The two boilerplate markers the pattern removes as a whole. */
  const AltMarker: string := "Alt:"
  const AltTitleMarker: string := "Alt-title:"

  /** The character class  [a-zA-Z0-9]  of the pattern. */
  predicate IsAlnum(c: char) {
    ('a' <= c <= 'z') || ('A' <= c <= 'Z') || ('0' <= c <= '9')
  }

  /** The characters a cleaned string is made of:  [a-z0-9 ]. */
  predicate IsCleanChar(c: char) {
    ('a' <= c <= 'z') || ('0' <= c <= '9') || c == ' '
  }

  predicate IsClean(s: string) {
    forall i :: 0 <= i < |s| ==> IsCleanChar(s[i])
  }

  /** A marker occurrence starts at position i of s. */
  predicate MarkerAt(s: string, i: nat)
    requires i <= |s|
  {
    AltMarker <= s[i..] || AltTitleMarker <= s[i..]
  }

  predicate HasMarker(s: string) {
    exists i :: 0 <= i <= |s| && MarkerAt(s, i)
  }

  /** The effect of lowercasing on the characters that survive the substitution. */
  function LowerChar(c: char): (r: char)
    ensures IsAlnum(c) ==> IsAlnum(r) && !('A' <= r <= 'Z')
    ensures !('A' <= c <= 'Z') ==> r == c
  {
    if 'A' <= c <= 'Z' then (c as int - 'A' as int + 'a' as int) as char else c
  }

  /**
   * strings.ToLower on ASCII: each upper-case letter becomes its lower-case
   * counterpart, every other rune is kept, and no upper-case letter is left.
   */
  function Lower(s: string): (r: string)
    ensures |r| == |s|
    ensures forall i :: 0 <= i < |s| && 'A' <= s[i] <= 'Z' ==> r[i] as int == s[i] as int + 32
    ensures forall i :: 0 <= i < |s| && !('A' <= s[i] <= 'Z') ==> r[i] == s[i]
    ensures forall i :: 0 <= i < |r| ==> !('A' <= r[i] <= 'Z')
  {
    seq(|s|, i requires 0 <= i < |s| => LowerChar(s[i]))
  }

  /**
   * How many runes one match, or one kept rune, takes at the head of s. The
   * alternatives are tried in the order of the pattern: a non-alphanumeric
   * rune, then Alt:, then Alt-title:; when none matches, the rune is kept.
   * Markers are found even in the middle of a word.
   */
  function Consumed(s: string): (n: nat)
    requires s != []
    ensures 1 <= n <= |s|
  {
    if !IsAlnum(s[0]) then 1
    else if AltMarker <= s then |AltMarker|
    else if AltTitleMarker <= s then |AltTitleMarker|
    else 1
  }

  /** What the scan writes for the head of s: one space for a match, else the rune itself. */
  function Emitted(s: string): (e: string)
    requires s != []
    ensures |e| == 1 && (e[0] == ' ' || IsAlnum(e[0]))
  {
    if IsAlnum(s[0]) && !(AltMarker <= s) && !(AltTitleMarker <= s) then [s[0]] else [' ']
  }

  /**
   * ReplaceAllString of the pattern by " ", as a left-to-right scan: at each
   * position, the leftmost-first match is replaced by one space and the scan
   * resumes after it. The result is never longer than s.
   */
  function Substitute(s: string): (r: string)
    ensures |r| <= |s|
    decreases |s|
  {
    if s == [] then [] else Emitted(s) + Substitute(s[Consumed(s)..])
  }

  /** The substitution leaves only spaces and ASCII letters and digits. */
  lemma {:induction false} SubstituteAlphabet(s: string)
    ensures forall i :: 0 <= i < |Substitute(s)| ==> Substitute(s)[i] == ' ' || IsAlnum(Substitute(s)[i])
    decreases |s|
  {
    if s != [] {
      var e, x := Emitted(s), Substitute(s[Consumed(s)..]);
      SubstituteAlphabet(s[Consumed(s)..]);
      assert forall i :: 0 < i < |e + x| ==> (e + x)[i] == x[i - 1];
    }
  }

  /**
   * The whole normalisation of one field: substitution, then lowercasing.
   * Every character of the result is in [a-z0-9 ], and it is never longer.
   */
  function Clean(s: string): (r: string)
    ensures IsClean(r)
    ensures |r| <= |s|
  {
    SubstituteAlphabet(s);
    Lower(Substitute(s))
  }

  /** What cleaning makes of one character outside any marker. */
  function PerChar(c: char): char {
    if IsAlnum(c) then LowerChar(c) else ' '
  }

  /**
   * Without markers, cleaning is a per-character map: alphanumerics are kept
   * lowercased in place, and every other character becomes exactly one space.
   */
  lemma {:induction false} SubstituteNoMarker(s: string)
    requires !HasMarker(s)
    ensures |Substitute(s)| == |s|
    ensures forall i :: 0 <= i < |s| ==> Substitute(s)[i] == (if IsAlnum(s[i]) then s[i] else ' ')
    decreases |s|
  {
    if s != [] {
      assert !MarkerAt(s, 0);
      assert !HasMarker(s[1..]) by {
        forall i | 0 <= i <= |s[1..]| ensures !MarkerAt(s[1..], i) {
          assert s[1..][i..] == s[i + 1..];
          assert !MarkerAt(s, i + 1);
        }
      }
      SubstituteNoMarker(s[1..]);
    }
  }

  /** A marker anywhere in s makes the substitution strictly shorter than s. */
  lemma {:induction false} SubstituteMarkerShrinks(s: string, k: nat)
    requires k <= |s| && MarkerAt(s, k)
    ensures |Substitute(s)| < |s|
    decreases |s|
  {
    assert s != [] by { assert AltMarker <= s[k..] || AltTitleMarker <= s[k..]; }
    if !IsAlnum(s[0]) {
      assert k > 0 by { assert s[k..][0] == 'A'; }
      assert s[1..][k - 1..] == s[k..];
      SubstituteMarkerShrinks(s[1..], k - 1);
    } else if AltMarker <= s || AltTitleMarker <= s {
    } else {
      assert k > 0;
      assert s[1..][k - 1..] == s[k..];
      SubstituteMarkerShrinks(s[1..], k - 1);
    }
  }

  /**
   * Cleaning keeps the length exactly when no marker occurs; when none does,
   * each alphanumeric is kept lowercased in place and each other character
   * becomes one space.
   */
  lemma CleanKeepsAlnums(s: string)
    ensures |Clean(s)| == |s| <==> !HasMarker(s)
    ensures !HasMarker(s) ==> forall i :: 0 <= i < |s| ==> Clean(s)[i] == PerChar(s[i])
  {
    if HasMarker(s) {
      var k :| 0 <= k <= |s| && MarkerAt(s, k);
      SubstituteMarkerShrinks(s, k);
    } else {
      SubstituteNoMarker(s);
    }
  }

  /** Both markers start with an upper-case 'A', so a string without one holds no marker. */
  lemma NoCapitalANoMarker(s: string)
    requires forall i :: 0 <= i < |s| ==> s[i] != 'A'
    ensures !HasMarker(s)
  {
    forall i | 0 <= i <= |s| ensures !MarkerAt(s, i) {
      if i < |s| {
        assert s[i..][0] == s[i];
      }
    }
  }

  /** A clean string holds no marker: markers start with an upper-case 'A'. */
  lemma CleanHasNoMarker(t: string)
    requires IsClean(t)
    ensures !HasMarker(t)
  {
    forall i | 0 <= i <= |t| ensures !MarkerAt(t, i) {
      if i < |t| {
        assert IsCleanChar(t[i]) && t[i..][0] == t[i];
      }
    }
  }

  /** The fixed points of cleaning are exactly the strings over [a-z0-9 ]. */
  lemma CleanFixpoint(t: string)
    ensures Clean(t) == t <==> IsClean(t)
  {
    if IsClean(t) {
      CleanHasNoMarker(t);
      CleanKeepsAlnums(t);
      forall i | 0 <= i < |t| ensures Clean(t)[i] == t[i] {
        assert IsCleanChar(t[i]);
      }
    }
  }

  /** Cleaning is idempotent. */
  lemma CleanIdempotent(s: string)
    ensures Clean(Clean(s)) == Clean(s)
  {
    CleanFixpoint(Clean(s));
  }

  /**
   * A prefix m of a + b that holds the first character of b nowhere after its
   * own first position is a prefix of a alone.
   */
  lemma PrefixStops(m: string, a: string, b: string)
    requires a != [] && b != []
    requires forall j :: 0 < j < |m| ==> m[j] != b[0]
    ensures m <= a + b <==> m <= a
  {
    assert (a + b)[|a|] == b[0];
    if m <= a {
      assert forall j :: 0 <= j < |m| ==> (a + b)[j] == a[j];
    }
  }

  /** The rune c occurs in neither marker after its first position. */
  predicate NeverInsideMarker(c: char) {
    (forall j :: 0 < j < |AltMarker| ==> AltMarker[j] != c)
    && (forall j :: 0 < j < |AltTitleMarker| ==> AltTitleMarker[j] != c)
  }

  /**
   * A boundary before a rune that cannot continue a marker (a space, or the
   * upper-case 'A' that starts one): no match can run across it.
   */
  predicate IsCut(b: string) {
    b != [] && NeverInsideMarker(b[0])
  }

  /** The scan makes the same choice at the head of a + b as at the head of a. */
  lemma HeadSplit(a: string, b: string)
    requires a != [] && IsCut(b)
    ensures Consumed(a + b) == Consumed(a) && Emitted(a + b) == Emitted(a)
  {
    assert (a + b)[0] == a[0];
    PrefixStops(AltMarker, a, b);
    PrefixStops(AltTitleMarker, a, b);
  }

  /**
   * No marker runs across a space or into an upper-case 'A' (both markers hold
   * 'A' only at their start), so the substitution works piecewise there.
   */
  lemma {:induction false} SubstituteSplit(a: string, b: string)
    requires IsCut(b)
    ensures Substitute(a + b) == Substitute(a) + Substitute(b)
    decreases |a|
  {
    if a == [] {
      assert a + b == b;
    } else {
      var n := Consumed(a);
      SplitStep(a, b);
      SubstituteSplit(a[n..], b);
      var e, x, y := Emitted(a), Substitute(a[n..]), Substitute(b);
      assert e + (x + y) == (e + x) + y;
    }
  }

  /** One step of the scan over a + b stays inside a. */
  lemma SplitStep(a: string, b: string)
    requires a != [] && IsCut(b)
    ensures Substitute(a + b) == Emitted(a) + Substitute(a[Consumed(a)..] + b)
  {
    HeadSplit(a, b);
    var n := Consumed(a);
    assert (a + b)[n..] == a[n..] + b;
  }

  /** Lowercasing works piecewise. */
  lemma LowerSplit(x: string, y: string)
    ensures Lower(x + y) == Lower(x) + Lower(y)
  {
    assert forall i :: 0 <= i < |x| ==> (x + y)[i] == x[i];
    assert forall i :: 0 <= i < |y| ==> (x + y)[|x| + i] == y[i];
  }

  /** Cleaning works piecewise around a space or an upper-case 'A'. */
  lemma CleanSplit(a: string, b: string)
    requires IsCut(b)
    ensures Clean(a + b) == Clean(a) + Clean(b)
  {
    SubstituteSplit(a, b);
    LowerSplit(Substitute(a), Substitute(b));
  }

  /** A marker starts with an upper-case 'A'. */
  lemma MarkerIsCut(m: string, q: string)
    requires m == AltMarker || m == AltTitleMarker
    ensures IsCut(m + q)
  {
    assert (m + q)[0] == m[0];
  }

  /** A marker at the head of the input becomes one space. */
  lemma SubstituteMarkerHead(m: string, q: string)
    requires m == AltMarker || m == AltTitleMarker
    ensures Substitute(m + q) == [' '] + Substitute(q)
  {
    var s := m + q;
    assert s[..|m|] == m && s[|m|..] == q;
    if m == AltTitleMarker {
      assert s[3] == '-';
    }
  }

  /**
   * Each whole Alt: or Alt-title: marker becomes exactly one space, wherever
   * it stands, and what is before and after it is substituted on its own.
   */
  lemma SubstituteMarker(p: string, m: string, q: string)
    requires m == AltMarker || m == AltTitleMarker
    ensures Substitute(p + (m + q)) == Substitute(p) + ([' '] + Substitute(q))
  {
    MarkerIsCut(m, q);
    SubstituteSplit(p, m + q);
    SubstituteMarkerHead(m, q);
  }

  /** Cleaning turns each whole marker into exactly one space. */
  lemma CleanMarker(p: string, m: string, q: string)
    requires m == AltMarker || m == AltTitleMarker
    ensures Clean(p + (m + q)) == Clean(p) + ([' '] + Clean(q))
  {
    var sp, sq := Substitute(p), Substitute(q);
    SubstituteMarker(p, m, q);
    assert Clean(p + (m + q)) == Lower(sp + ([' '] + sq));
    LowerSplit(sp, [' '] + sq);
    LowerSplit([' '], sq);
    assert Lower([' ']) == [' '];
  }
}
