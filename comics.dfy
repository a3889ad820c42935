/**
 * The comic records and the two in-place passes over the collection:
 * cleanTranscripts (normalise every title and transcript into a fresh
 * collection of MAX slots) and splitTranscript / splitTitle (attach the
 * tokens of each field to its record).
 */
module Comics {
  import opened Normalize
  import opened Tokenize

  /** One comic: the Xkcd record, fields in the order the record declares them. */
  datatype Doc = Doc(
    num: int,
    url: string,
    year: string,
    month: string,
    day: string,
    title: string,
    titleFields: seq<string>,
    transcript: string,
    transcriptFields: seq<string>)

  /** The number of comics fetched, and of slots in a cleaned collection. */
  const MAX: nat := 100

  /** The zero value of the record (a nil token slice is the empty sequence). */
  const Zero: Doc := Doc(0, "", "", "", "", "", [], "", [])

  /** A token made only of lower-case ASCII letters and digits. */
  predicate IsCleanToken(w: string) {
    |w| > 0 && forall j :: 0 <= j < |w| ==> ('a' <= w[j] <= 'z') || ('0' <= w[j] <= '9')
  }

  /** A record whose title and transcript went through the normaliser. */
  predicate IsCleanDoc(d: Doc) {
    IsClean(d.title) && IsClean(d.transcript)
  }

  function CleanDoc(d: Doc): Doc {
    d.(title := Clean(d.title), transcript := Clean(d.transcript))
  }

  /** What cleanTranscripts returns for a collection. */
  function Cleaned(docs: seq<Doc>): (r: seq<Doc>)
    ensures |r| == MAX
    ensures forall i :: 0 <= i < |r| ==> IsCleanDoc(r[i])
    ensures forall i :: 0 <= i < |r| ==> r[i].num == (if i < |docs| then docs[i].num else 0)
  {
    var r := seq(MAX, i requires 0 <= i < MAX => CleanDoc(if i < |docs| then docs[i] else Zero));
    assert forall i :: 0 <= i < |r| ==> r[i] == CleanDoc(if i < |docs| then docs[i] else Zero);
    r
  }

  /** A record after both splitTranscript and splitTitle. */
  function TokenizeDoc(d: Doc): Doc {
    d.(transcriptFields := Fields(d.transcript), titleFields := Fields(d.title))
  }

  function Tokenized(docs: seq<Doc>): (r: seq<Doc>)
    ensures |r| == |docs|
  {
    seq(|docs|, i requires 0 <= i < |docs| => TokenizeDoc(docs[i]))
  }

  /**
   * The cleaned collection has exactly MAX records. The first min(|docs|, MAX)
   * are the input records with only the title and the transcript changed, and
   * both of those are over [a-z0-9 ]; any remaining slot is the zero record.
   */
  lemma CleanedShape(docs: seq<Doc>)
    ensures |Cleaned(docs)| == MAX
    ensures forall i :: 0 <= i < MAX && i < |docs| ==>
      var d, c := docs[i], Cleaned(docs)[i];
      c.num == d.num && c.url == d.url && c.year == d.year && c.month == d.month && c.day == d.day
      && c.titleFields == d.titleFields && c.transcriptFields == d.transcriptFields
      && c.title == Clean(d.title) && c.transcript == Clean(d.transcript)
    ensures forall i :: |docs| <= i < MAX ==> Cleaned(docs)[i] == Zero
    ensures forall i :: 0 <= i < MAX ==> IsCleanDoc(Cleaned(docs)[i])
  {
    assert Clean("") == "";
    assert CleanDoc(Zero) == Zero;
    forall i | |docs| <= i < MAX ensures Cleaned(docs)[i] == Zero {
      assert Cleaned(docs)[i] == CleanDoc(Zero);
    }
    forall i | 0 <= i < MAX ensures IsCleanDoc(Cleaned(docs)[i]) {
      var d := if i < |docs| then docs[i] else Zero;
      assert Cleaned(docs)[i] == CleanDoc(d);
    }
  }

  /**
   * Every token split from a cleaned record is a non-empty run of lower-case
   * letters and digits.
   */
  lemma TokenizedCleanTokens(d: Doc)
    requires IsCleanDoc(d)
    ensures forall w :: w in TokenizeDoc(d).titleFields ==> IsCleanToken(w)
    ensures forall w :: w in TokenizeDoc(d).transcriptFields ==> IsCleanToken(w)
  {
    forall w | w in Fields(d.title) ensures IsCleanToken(w) {
      FieldsOfCleanAreCleanTokens(d.title, w);
    }
    forall w | w in Fields(d.transcript) ensures IsCleanToken(w) {
      FieldsOfCleanAreCleanTokens(d.transcript, w);
    }
  }

  lemma FieldsOfCleanAreCleanTokens(s: string, w: string)
    requires IsClean(s) && w in Fields(s)
    ensures IsCleanToken(w)
  {
    FieldsAreWords(s);
    var k :| 0 <= k < |Fields(s)| && Fields(s)[k] == w;
    forall j | 0 <= j < |w| ensures ('a' <= w[j] <= 'z') || ('0' <= w[j] <= '9') {
      assert w[j] in s && !IsSpace(w[j]);
    }
  }

  /** Cleaning a field that starts with a space keeps that space. */
  lemma CleanKeepsLeadingSpace(q: string)
    requires q != [] && q[0] == ' '
    ensures Clean(q) != [] && Clean(q)[0] == ' '
  {
    assert Substitute(q) == [' '] + Substitute(q[1..]);
  }

  /** The tokens of a cleaned field split at a space are those of the two parts. */
  lemma SpaceSeparatesTokens(p: string, q: string)
    requires q != [] && q[0] == ' '
    ensures Fields(Clean(p + q)) == Fields(Clean(p)) + Fields(Clean(q))
  {
    assert IsCut(q);
    CleanSplit(p, q);
    CleanKeepsLeadingSpace(q);
    FieldsSpaceJoin(Clean(p), Clean(q));
  }

  /**
   * An "Alt:" or "Alt-title:" marker separates the tokens of a cleaned field
   * exactly as a space does, and contributes none of its own.
   */
  lemma MarkerSeparatesTokens(p: string, m: string, q: string)
    requires m == AltMarker || m == AltTitleMarker
    ensures Fields(Clean(p + (m + q))) == Fields(Clean(p)) + Fields(Clean(q))
  {
    CleanMarker(p, m, q);
    FieldsSpaceJoin(Clean(p), [' '] + Clean(q));
    assert ([' '] + Clean(q))[1..] == Clean(q);
  }

  /**
   * Go's copy(dst, src): the first min(len(dst), len(src)) records of src are
   * copied into dst, the rest of dst is kept, and the count is returned.
   */
  method Copy(dst: array<Doc>, src: array<Doc>) returns (n: nat)
    modifies dst
    ensures n == if src.Length < dst.Length then src.Length else dst.Length
    ensures forall k :: 0 <= k < n ==> dst[k] == old(src[k])
    ensures forall k :: n <= k < dst.Length ==> dst[k] == old(dst[k])
  {
    n := if src.Length < dst.Length then src.Length else dst.Length;
    forall k | 0 <= k < n {
      dst[k] := src[k];
    }
  }

  /**
   * cleanTranscripts: a fresh collection of MAX records, the first
   * min(docs.Length, MAX) copied from docs, the rest zero, then every title
   * and transcript normalised in place. The input is not changed.
   */
  method CleanTranscripts(docs: array<Doc>) returns (clean: array<Doc>)
    ensures fresh(clean)
    ensures clean[..] == Cleaned(docs[..])
  {
    clean := new Doc[MAX](_ => Zero);
    var _ := Copy(clean, docs);
    ghost var copied := clean[..];
    NormaliseAll(clean);
    CleanedOfPadded(docs[..], copied, clean[..]);
  }

  /** The loop of cleanTranscripts: substitute, then lowercase, every title and transcript. */
  method NormaliseAll(docs: array<Doc>)
    modifies docs
    ensures forall k :: 0 <= k < docs.Length ==> docs[k] == CleanDoc(old(docs[k]))
  {
    for i := 0 to docs.Length
      invariant forall k :: 0 <= k < i ==> docs[k] == CleanDoc(old(docs[k]))
      invariant forall k :: i <= k < docs.Length ==> docs[k] == old(docs[k])
    {
      var d := docs[i];
      var transcript, title := Substitute(d.transcript), Substitute(d.title);
      transcript, title := Lower(transcript), Lower(title);
      docs[i] := d.(transcript := transcript, title := title);
    }
  }

  /** Cleaning every record of the padded copy of docs gives Cleaned(docs). */
  lemma CleanedOfPadded(docs: seq<Doc>, padded: seq<Doc>, result: seq<Doc>)
    requires |padded| == MAX && forall k :: 0 <= k < MAX ==> padded[k] == if k < |docs| then docs[k] else Zero
    requires |result| == MAX && forall k :: 0 <= k < MAX ==> result[k] == CleanDoc(padded[k])
    ensures result == Cleaned(docs)
  {
  }

  /** splitTranscript: each record gets the tokens of its transcript; nothing else changes. */
  method SplitTranscript(docs: array<Doc>)
    modifies docs
    ensures forall i :: 0 <= i < docs.Length ==>
      docs[i] == old(docs[i]).(transcriptFields := Fields(old(docs[i]).transcript))
  {
    for i := 0 to docs.Length
      invariant forall k :: 0 <= k < i ==>
        docs[k] == old(docs[k]).(transcriptFields := Fields(old(docs[k]).transcript))
      invariant forall k :: i <= k < docs.Length ==> docs[k] == old(docs[k])
    {
      docs[i] := docs[i].(transcriptFields := Fields(docs[i].transcript));
    }
  }

  /** splitTitle: each record gets the tokens of its title; nothing else changes. */
  method SplitTitle(docs: array<Doc>)
    modifies docs
    ensures forall i :: 0 <= i < docs.Length ==>
      docs[i] == old(docs[i]).(titleFields := Fields(old(docs[i]).title))
  {
    for i := 0 to docs.Length
      invariant forall k :: 0 <= k < i ==>
        docs[k] == old(docs[k]).(titleFields := Fields(old(docs[k]).title))
      invariant forall k :: i <= k < docs.Length ==> docs[k] == old(docs[k])
    {
      docs[i] := docs[i].(titleFields := Fields(docs[i].title));
    }
  }
}
