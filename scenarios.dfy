/**
 * A worked example of the whole pipeline on a concrete collection: comic 1
 * titled "Cat Dog" and comic 2 with the transcript "dog runs", padded to
 * MAX slots as cleanTranscripts does, then split, indexed and searched.
 */
module Scenarios {
  import opened Normalize
  import opened Tokenize
  import opened Comics
  import opened InvertedIndex

  /** Cleaning a string without an upper-case 'A' character by character. */
  lemma CleanByChar(s: string, e: string)
    requires forall i :: 0 <= i < |s| ==> s[i] != 'A'
    requires |e| == |s| && forall i :: 0 <= i < |s| ==> PerChar(s[i]) == e[i]
    ensures Clean(s) == e
  {
    NoCapitalANoMarker(s);
    CleanKeepsAlnums(s);
  }

  /**
   * A field that cleans, character by character, into words joined by single
   * spaces splits into exactly those words.
   */
  lemma FieldsOfCleanByChar(t: string, ws: seq<string>)
    requires forall k :: 0 <= k < |ws| ==> IsWord(ws[k])
    requires forall i :: 0 <= i < |t| ==> t[i] != 'A'
    requires |Join(ws)| == |t| && forall i :: 0 <= i < |t| ==> PerChar(t[i]) == Join(ws)[i]
    ensures Fields(Clean(t)) == ws
  {
    CleanByChar(t, Join(ws));
    FieldsJoin(ws);
  }

  /** The tokens of the two non-empty fields of the example. */
  lemma CatAndDogFields(title: string, transcript: string)
    requires title == "Cat Dog" && transcript == "dog runs"
    ensures Fields(Clean(title)) == ["cat", "dog"]
    ensures Fields(Clean(transcript)) == ["dog", "runs"]
  {
    FieldsOfCleanByChar(title, ["cat", "dog"]);
    FieldsOfCleanByChar(transcript, ["dog", "runs"]);
  }

  /** White space around one word splits off just that word. */
  lemma FieldsPadded(sp1: string, w: string, sp2: string)
    requires IsWord(w)
    requires forall j :: 0 <= j < |sp1| ==> IsSpace(sp1[j])
    requires forall j :: 0 <= j < |sp2| ==> IsSpace(sp2[j])
    ensures Fields(sp1 + (w + sp2)) == [w]
  {
    FieldsSkipSpaces(sp1, w + sp2);
    if sp2 == [] {
      assert w + sp2 == w + [];
    }
    FieldsWord(w, sp2);
    assert sp2 == sp2 + [];
    FieldsSkipSpaces(sp2, []);
  }

  /** "Hello," cleans to "hello " and gives the one token "hello". */
  lemma HelloPiece(a: string)
    requires a == "Hello,"
    ensures Fields(Clean(a)) == ["hello"]
  {
    CleanByChar(a, "hello ");
    assert "hello " == "" + ("hello" + " ");
    FieldsPadded("", "hello", " ");
  }

  /** " World! " cleans to " world  " and gives the one token "world". */
  lemma WorldPiece(b: string)
    requires b == " World! "
    ensures Fields(Clean(b)) == ["world"]
  {
    CleanByChar(b, " world  ");
    assert " world  " == " " + ("world" + "  ");
    FieldsPadded(" ", "world", "  ");
  }

  /** " extra" is left as it is and gives the one token "extra". */
  lemma ExtraPiece(c: string)
    requires c == " extra"
    ensures Fields(Clean(c)) == ["extra"]
  {
    CleanByChar(c, c);
    assert c == " " + ("extra" + "");
    FieldsPadded(" ", "extra", "");
  }

  /**
   * The field "Hello, World! Alt: extra", given in pieces: the "Alt:" marker
   * becomes a separator, like the punctuation around it, and never shows up
   * as a token.
   */
  lemma AltMarkerFields(a: string, b: string, c: string)
    requires a == "Hello," && b == " World! " && c == " extra"
    ensures Fields(Clean(a + b + AltMarker + c)) == ["hello", "world", "extra"]
  {
    HelloPiece(a);
    WorldPiece(b);
    ExtraPiece(c);
    var bc := b + (AltMarker + c);
    assert a + b + AltMarker + c == a + bc;
    assert bc[0] == b[0];
    SpaceSeparatesTokens(a, bc);
    MarkerSeparatesTokens(b, AltMarker, c);
  }

  /** The two records after cleaning and splitting. */
  lemma CatAndDogTokens(collection: seq<Doc>)
    requires collection == [Zero.(num := 1, title := "Cat Dog"), Zero.(num := 2, transcript := "dog runs")]
    ensures var docs := Prepared(collection);
      && docs[0].num == 1 && docs[0].titleFields == ["cat", "dog"] && docs[0].transcriptFields == []
      && docs[1].num == 2 && docs[1].titleFields == [] && docs[1].transcriptFields == ["dog", "runs"]
  {
    var c0, c1 := Cleaned(collection)[0], Cleaned(collection)[1];
    assert c0 == CleanDoc(collection[0]) && c1 == CleanDoc(collection[1]);
    assert Prepared(collection)[0] == TokenizeDoc(c0) && Prepared(collection)[1] == TokenizeDoc(c1);
    assert Clean("") == "" && Fields("") == [];
    CatAndDogFields(collection[0].title, collection[1].transcript);
  }

  /** The list of any word in the index of two comics numbered 1 and 2. */
  lemma TwoComicsGet(first: seq<Doc>, w: string)
    requires |first| == 2 && first[0].num == 1 && first[1].num == 2
    ensures w in IndexOf(first) <==> Mentions(first[0], w) || Mentions(first[1], w)
    ensures Get(IndexOf(first), w) ==
      (if Mentions(first[0], w) then [1] else []) + (if Mentions(first[1], w) then [2] else [])
  {
    var one := first[..1];
    assert one[..0] == [] && one[0] == first[0] && first[..|first| - 1] == one;
    var h0 := if Mentions(first[0], w) then [1] else [];
    var h := h0 + (if Mentions(first[1], w) then [2] else []);
    assert Hits(one, w) == [] + h0 == h0;
    assert Hits(first, w) == h;
    assert Dedup(h0) == h0 by {
      if h0 == [1] {
        assert h0[..0] == [];
      }
    }
    if Mentions(first[1], w) {
      DedupAppend(h0, 2);
    } else {
      assert h == h0 + [] == h0;
    }
    IndexOfGet(first, w);
  }

  lemma TokenMembership(t0: seq<string>, t1: seq<string>)
    requires t0 == ["cat", "dog"] && t1 == ["dog", "runs"]
    ensures "dog" in t0 && "dog" in t1
    ensures "cat" in t0 && "cat" !in t1
    ensures "runs" !in t0 && "runs" in t1
    ensures "fish" !in t0 && "fish" !in t1 && "Dog" !in t0 && "Dog" !in t1
  {
    assert t0[0] == "cat" && t0[1] == "dog" && t1[0] == "dog" && t1[1] == "runs";
    assert "cat"[0] != "dog"[0] && "cat"[0] != "runs"[0] && "dog"[0] != "runs"[0];
    assert "fish"[0] !in ['c', 'd', 'r'] && "Dog"[0] !in ['c', 'd', 'r'];
  }

  /** Searches in the index of the two split records. */
  lemma CatAndDogIndex(first: seq<Doc>)
    requires |first| == 2
    requires first[0].num == 1 && first[0].titleFields == ["cat", "dog"] && first[0].transcriptFields == []
    requires first[1].num == 2 && first[1].titleFields == [] && first[1].transcriptFields == ["dog", "runs"]
    ensures var index := IndexOf(first);
      && IndexSearch("dog", index) == Some([1, 2])
      && IndexSearch("cat", index) == Some([1])
      && IndexSearch("runs", index) == Some([2])
      && IndexSearch("fish", index) == None
      && IndexSearch("Dog", index) == None
  {
    TokenMembership(first[0].titleFields, first[1].transcriptFields);
    assert [1] + [2] == [1, 2] && [1] + [] == [1] && [] + [2] == [2];
    TwoComicsGet(first, "dog");
    TwoComicsGet(first, "cat");
    TwoComicsGet(first, "runs");
    TwoComicsGet(first, "fish");
    TwoComicsGet(first, "Dog");
  }

  /**
   * Over the whole pipeline: "dog" finds both comics, "cat" and "runs" one
   * each, and "fish" and the unnormalised "Dog" find nothing.
   */
  lemma CatAndDog(collection: seq<Doc>)
    requires collection == [Zero.(num := 1, title := "Cat Dog"), Zero.(num := 2, transcript := "dog runs")]
    ensures var index := IndexOf(Prepared(collection));
      && IndexSearch("dog", index) == Some([1, 2])
      && IndexSearch("cat", index) == Some([1])
      && IndexSearch("runs", index) == Some([2])
      && IndexSearch("fish", index) == None
      && IndexSearch("Dog", index) == None
  {
    CatAndDogTokens(collection);
    PaddingAddsNothing(collection);
    CatAndDogIndex(Prepared(collection)[..2]);
  }
}
