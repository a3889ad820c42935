/**
 * The inverted index: createIndex (with its growIndex closure), indexSearch,
 * and the normalise-split-index sequence that the program runs over the
 * fetched collection.
 *
 * The index is a value here: Go's map is grown in place through a pointer,
 * and the model threads the map through the same steps instead.
 */
module InvertedIndex {
  import opened Normalize
  import opened Tokenize
  import opened Comics

  datatype Option<T> = None | Some(value: T)

  /** Token to the comic numbers whose title or transcript tokens hold it. */
  type Index = map<string, seq<int>>

  /** The token occurs among the transcript tokens or the title tokens of d. */
  predicate Mentions(d: Doc, w: string) {
    w in d.transcriptFields || w in d.titleFields
  }

  predicate NoDup(s: seq<int>) {
    forall i, j :: 0 <= i < j < |s| ==> s[i] != s[j]
  }

  /** The list stored under w, or the empty list when w is not a key. */
  function Get(idx: Index, w: string): seq<int> {
    if w in idx then idx[w] else []
  }

  /** One iteration of growIndex: append n under w unless it is already there. */
  function AddWord(idx: Index, w: string, n: int): Index {
    if w in idx then
      if n in idx[w] then idx else idx[w := idx[w] + [n]]
    else
      idx[w := [n]]
  }

  /** growIndex(fields, &index) for a comic numbered n: the words in order. */
  function AddWords(idx: Index, ws: seq<string>, n: int): (r: Index)
    ensures forall w :: w in r <==> w in idx || w in ws
    ensures forall w :: w in ws ==> w in r && n in r[w]
    ensures forall w :: w in idx ==> w in r && idx[w] <= r[w]
  {
    if ws == [] then idx else AddWord(AddWords(idx, ws[..|ws| - 1], n), ws[|ws| - 1], n)
  }

  /** The body of createIndex's outer loop for one comic: transcript, then title. */
  function AddDoc(idx: Index, d: Doc): Index {
    AddWords(AddWords(idx, d.transcriptFields, d.num), d.titleFields, d.num)
  }

  /** The map createIndex returns for a collection. */
  function IndexOf(docs: seq<Doc>): (r: Index)
    ensures forall w :: w in r ==> r[w] != []
  {
    if docs == [] then map[] else AddDoc(IndexOf(docs[..|docs| - 1]), docs[|docs| - 1])
  }

  // Reference definition of what the index holds, independent of the loops.

  /** The numbers of the comics that mention w, in collection order, with repeats. */
  function Hits(docs: seq<Doc>, w: string): seq<int> {
    if docs == [] then []
    else
      var d := docs[|docs| - 1];
      Hits(docs[..|docs| - 1], w) + (if Mentions(d, w) then [d.num] else [])
  }

  /** The first occurrence of each element, in order. */
  function Dedup(s: seq<int>): (r: seq<int>)
    ensures forall x :: x in r <==> x in s
    ensures NoDup(r)
  {
    if s == [] then []
    else if s[|s| - 1] in s[..|s| - 1] then Dedup(s[..|s| - 1])
    else Dedup(s[..|s| - 1]) + [s[|s| - 1]]
  }

  function AppendNew(s: seq<int>, n: int): seq<int> {
    if n in s then s else s + [n]
  }

  /** Deduplicating one more hit appends it unless it is already listed. */
  lemma DedupAppend(h: seq<int>, n: int)
    ensures Dedup(h + [n]) == AppendNew(Dedup(h), n)
  {
    var hs := h + [n];
    assert hs[..|hs| - 1] == h && hs[|hs| - 1] == n;
    assert (n in Dedup(h)) == (n in h);
  }

  /** What growIndex does to the list of any one word. */
  lemma {:induction false} AddWordsGet(idx: Index, ws: seq<string>, n: int, w: string)
    ensures w in AddWords(idx, ws, n) <==> w in idx || w in ws
    ensures Get(AddWords(idx, ws, n), w) == if w in ws then AppendNew(Get(idx, w), n) else Get(idx, w)
  {
    if ws != [] {
      var init, last := ws[..|ws| - 1], ws[|ws| - 1];
      assert ws == init + [last];
      AddWordsGet(idx, init, n, w);
    }
  }

  /** What one comic adds to the list of any one word. */
  lemma AddDocGet(idx: Index, d: Doc, w: string)
    ensures w in AddDoc(idx, d) <==> w in idx || Mentions(d, w)
    ensures Get(AddDoc(idx, d), w) == if Mentions(d, w) then AppendNew(Get(idx, w), d.num) else Get(idx, w)
  {
    AddWordsGet(idx, d.transcriptFields, d.num, w);
    AddWordsGet(AddWords(idx, d.transcriptFields, d.num), d.titleFields, d.num, w);
  }

  /**
   * The list createIndex stores under w is the numbers of the comics that
   * mention w, each once, in the order of first occurrence; w is a key
   * exactly when some comic mentions it.
   */
  lemma {:induction false} IndexOfGet(docs: seq<Doc>, w: string)
    ensures w in IndexOf(docs) <==> Hits(docs, w) != []
    ensures Get(IndexOf(docs), w) == Dedup(Hits(docs, w))
  {
    if docs != [] {
      var init, d := docs[..|docs| - 1], docs[|docs| - 1];
      IndexOfGet(init, w);
      AddDocGet(IndexOf(init), d, w);
      var h := Hits(init, w);
      if Mentions(d, w) {
        assert Hits(docs, w) == h + [d.num];
        DedupAppend(h, d.num);
        assert IndexOf(docs) == AddDoc(IndexOf(init), d);
        assert Get(IndexOf(docs), w) == AppendNew(Get(IndexOf(init), w), d.num);
      } else {
        assert Hits(docs, w) == h + [] == h;
      }
    }
  }

  /** n is among the hits for w exactly when a comic numbered n mentions w. */
  lemma {:induction false} HitsMember(docs: seq<Doc>, w: string, n: int)
    ensures n in Hits(docs, w) <==> exists i :: 0 <= i < |docs| && docs[i].num == n && Mentions(docs[i], w)
  {
    if docs != [] {
      var init := docs[..|docs| - 1];
      HitsMember(init, w, n);
      if exists i :: 0 <= i < |init| && init[i].num == n && Mentions(init[i], w) {
        var i :| 0 <= i < |init| && init[i].num == n && Mentions(init[i], w);
        assert docs[i] == init[i];
      }
      if exists i :: 0 <= i < |docs| && docs[i].num == n && Mentions(docs[i], w) {
        var i :| 0 <= i < |docs| && docs[i].num == n && Mentions(docs[i], w);
        if i < |init| {
          assert init[i] == docs[i];
        }
      }
    }
  }

  /**
   * Completeness and soundness of createIndex: w is a key exactly when some
   * comic mentions it, and n is listed under w exactly when a comic numbered
   * n mentions w; every list is non-empty and free of duplicates.
   */
  lemma IndexCorrect(docs: seq<Doc>)
    ensures forall w :: w in IndexOf(docs) <==> exists i :: 0 <= i < |docs| && Mentions(docs[i], w)
    ensures forall w, n :: w in IndexOf(docs) ==>
      (n in IndexOf(docs)[w] <==> exists i :: 0 <= i < |docs| && docs[i].num == n && Mentions(docs[i], w))
    ensures forall w :: w in IndexOf(docs) ==> IndexOf(docs)[w] != [] && NoDup(IndexOf(docs)[w])
  {
    var idx := IndexOf(docs);
    forall w ensures w in idx <==> exists i :: 0 <= i < |docs| && Mentions(docs[i], w) {
      IndexOfGet(docs, w);
      if w in idx {
        var n := Hits(docs, w)[0];
        HitsMember(docs, w, n);
      } else if exists i :: 0 <= i < |docs| && Mentions(docs[i], w) {
        var i :| 0 <= i < |docs| && Mentions(docs[i], w);
        HitsMember(docs, w, docs[i].num);
      }
    }
    forall w, n | w in idx
      ensures n in idx[w] <==> exists i :: 0 <= i < |docs| && docs[i].num == n && Mentions(docs[i], w)
    {
      IndexOfGet(docs, w);
      HitsMember(docs, w, n);
    }
    forall w | w in idx ensures idx[w] != [] && NoDup(idx[w]) {
      IndexOfGet(docs, w);
      assert Hits(docs, w)[0] in Hits(docs, w);
    }
  }

  /**
   * growIndex: for each word in order, append the comic number to the word's
   * list, creating the list when the word is new and skipping the append when
   * the number is already listed.
   */
  method GrowIndex(fields: seq<string>, num: int, index: Index) returns (grown: Index)
    ensures grown == AddWords(index, fields, num)
  {
    grown := index;
    for j := 0 to |fields|
      invariant grown == AddWords(index, fields[..j], num)
    {
      var word := fields[j];
      assert fields[..j + 1][..j] == fields[..j];
      assert AddWords(index, fields[..j + 1], num) == AddWord(grown, word, num);
      if word in grown {
        if num in grown[word] {
          continue;
        }
        grown := grown[word := grown[word] + [num]];
        continue;
      }
      ghost var before := grown;
      grown := grown[word := []];
      assert grown[word] + [num] == [num];
      grown := grown[word := grown[word] + [num]];
      assert grown == before[word := [num]];
    }
    assert fields[..|fields|] == fields;
  }

  /** createIndex: grow the index with each comic's transcript tokens, then its title tokens. */
  method CreateIndex(docs: array<Doc>) returns (index: Index)
    ensures index == IndexOf(docs[..])
  {
    index := map[];
    for i := 0 to docs.Length
      invariant index == IndexOf(docs[..i])
    {
      var joke := docs[i];
      index := GrowIndex(joke.transcriptFields, joke.num, index);
      index := GrowIndex(joke.titleFields, joke.num, index);
      assert docs[..i + 1][..i] == docs[..i];
    }
    assert docs[..docs.Length] == docs[..];
  }

  /** indexSearch: the list stored under the term, or nil (None) when it is not a key. */
  function IndexSearch(term: string, index: Index): (r: Option<seq<int>>)
    ensures r == None <==> term !in index
  {
    if term in index then Some(index[term]) else None
  }

  /**
   * Searching an index built from a collection: nil exactly when no comic
   * mentions the term, and otherwise the numbers of the comics that do, each
   * once, in the order of first occurrence (so never an empty list).
   */
  lemma SearchIndexOf(docs: seq<Doc>, term: string)
    ensures IndexSearch(term, IndexOf(docs)) == None <==> forall i :: 0 <= i < |docs| ==> !Mentions(docs[i], term)
    ensures IndexSearch(term, IndexOf(docs)) != None ==>
      var r := IndexSearch(term, IndexOf(docs)).value;
      r == Dedup(Hits(docs, term)) && r != [] && NoDup(r)
  {
    IndexCorrect(docs);
    IndexOfGet(docs, term);
  }

  /** The collection the index is built from: cleaned, then split into tokens. */
  function Prepared(collection: seq<Doc>): seq<Doc> {
    Tokenized(Cleaned(collection))
  }

  /**
   * Every key of the index built from a prepared collection is a non-empty
   * run of lower-case letters and digits.
   */
  lemma PreparedKeysAreCleanTokens(collection: seq<Doc>)
    ensures forall w :: w in IndexOf(Prepared(collection)) ==> IsCleanToken(w)
  {
    var cleaned := Cleaned(collection);
    var docs := Tokenized(cleaned);
    forall w | w in IndexOf(docs) ensures IsCleanToken(w) {
      IndexOfGet(docs, w);
      var h := Hits(docs, w);
      HitsMember(docs, w, h[0]);
      var i :| 0 <= i < |docs| && docs[i].num == h[0] && Mentions(docs[i], w);
      assert docs[i] == TokenizeDoc(cleaned[i]);
      TokenizedCleanTokens(cleaned[i]);
    }
  }

  /** Comics that do not mention w at the end of the collection leave its hits unchanged. */
  lemma {:induction false} HitsPrefix(docs: seq<Doc>, k: nat, w: string)
    requires k <= |docs|
    requires forall i :: k <= i < |docs| ==> !Mentions(docs[i], w)
    ensures Hits(docs, w) == Hits(docs[..k], w)
    decreases |docs| - k
  {
    if k < |docs| {
      var init := docs[..|docs| - 1];
      assert Hits(docs, w) == Hits(init, w) + [];
      assert init[..k] == docs[..k];
      HitsPrefix(init, k, w);
    } else {
      assert docs[..k] == docs;
    }
  }

  /**
   * The zero records that pad a short collection to MAX slots add nothing to
   * the index: it is the index of the slots copied from the collection.
   */
  lemma PaddingAddsNothing(collection: seq<Doc>)
    ensures var k := if |collection| < MAX then |collection| else MAX;
      IndexOf(Prepared(collection)) == IndexOf(Prepared(collection)[..k])
  {
    var k := if |collection| < MAX then |collection| else MAX;
    var docs := Prepared(collection);
    CleanedShape(collection);
    assert Fields("") == [];
    var a, b := IndexOf(docs), IndexOf(docs[..k]);
    forall w ensures (w in a <==> w in b) && Get(a, w) == Get(b, w) {
      forall i | k <= i < |docs| ensures !Mentions(docs[i], w) {
        assert docs[i] == TokenizeDoc(Zero);
      }
      HitsPrefix(docs, k, w);
      IndexOfGet(docs, w);
      IndexOfGet(docs[..k], w);
    }
    assert a.Keys == b.Keys;
    forall w | w in a ensures a[w] == b[w] {
      assert Get(a, w) == Get(b, w);
    }
  }

  /**
   * The search term is not normalised: a term that is not already a clean
   * token (empty, or holding an upper-case letter, a space or punctuation)
   * is never found.
   */
  lemma UncleanTermNotFound(collection: seq<Doc>, term: string)
    requires !IsCleanToken(term)
    ensures IndexSearch(term, IndexOf(Prepared(collection))) == None
  {
    PreparedKeysAreCleanTokens(collection);
  }

  /**
   * The program's pipeline up to the index: clean the fetched collection
   * into a fresh one, split its transcripts and titles in place, and index it.
   */
  method IndexCollection(collection: array<Doc>) returns (index: Index)
    ensures index == IndexOf(Prepared(collection[..]))
    ensures forall w :: w in index ==> IsCleanToken(w)
  {
    var clean := CleanTranscripts(collection);
    SplitTranscript(clean);
    SplitTitle(clean);
    assert clean[..] == Prepared(collection[..]);
    index := CreateIndex(clean);
    PreparedKeysAreCleanTokens(collection[..]);
  }
}
