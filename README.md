# xkcd comic search: normaliser, tokeniser and inverted index

This project is a Dafny model of the text pipeline of the xkcd search program in `HW3/xkcd.go`. The program fetches `MAX` comics, numbers 2 to 101, and then:

1. **Normalises** every title and transcript (`cleanTranscripts`). It builds a fresh collection of `MAX` records. Each match of the pattern `[^a-zA-Z0-9]|Alt:|Alt-title:` is replaced by one space, and the result is lowercased.
2. **Splits** every title and transcript into tokens with `strings.Fields` (`splitTitle`, `splitTranscript`).
3. **Indexes** the collection (`createIndex` and its `growIndex` closure). The result maps each token to the numbers of the comics whose title or transcript tokens hold it. Each number appears once per token.
4. **Looks up** search terms in the index (`indexSearch`). The result is the stored list, or nil when the term is not a key.

The model has five modules:

- `Normalize` (`normalize.dfy`). The substitution is written as a left-to-right scan with Go's leftmost-first choice between the alternatives. Lowercasing is ASCII lowercasing. Both are pure functions on strings of runes.
- `Tokenize` (`tokenize.dfy`). `strings.Fields` over the full `unicode.IsSpace` set, as a pure function. Two reference definitions come with it: `Join`, and `Collapse` (white-space runs collapsed, ends trimmed).
- `Comics` (`comics.dfy`). The `Xkcd` record as the datatype `Doc`, and the constant `MAX`. The three passes over the collection are methods on arrays that change records in place, each proved against a function on sequences.
- `InvertedIndex` (`index.dfy`). `createIndex` and `growIndex` are methods with loops, proved against the fold `IndexOf`. `IndexOf` is related to an independent reference definition: the hits for a word, deduplicated in order of first occurrence. Lookup returns an `Option` (`None` is Go's nil).
- `Scenarios` (`scenarios.dfy`). A worked example of the whole pipeline on a two-comic collection, and the cleaning and splitting of a field holding an `Alt:` marker.

Three points about the code that a reader might expect to be otherwise:

- **Order of an index list.** The code appends, so a list holds the comic numbers in the order the comics occur in the collection. It is neither sorted nor a set. A comic adds its number to a list at most once, so the order in which a comic's own transcript and title tokens are processed cannot be seen in any list. `InvertedIndex.IndexOfGet` states the order as the numbers of the mentioning comics, deduplicated, in collection order.
- **Padding of the collection.** Normalisation does not work in place on the fetched collection. The code copies it into a fresh slice of exactly `MAX` zero-valued records. A shorter collection is therefore padded with zero records, and a longer one is truncated. `InvertedIndex.PaddingAddsNothing` proves that the padding adds nothing to the index.
- **Failed fetches.** A failed fetch is not skipped. The code records a zero-valued record in its place. The model takes the collection as given, so either case is covered.

## Model

| member | source | states |
|---|---|---|
| Normalize.Lower | HW3/xkcd.go:92-93 | `strings.ToLower` on ASCII: the length is kept, each upper-case letter becomes its lower-case letter (code point plus 32), every other rune is kept, and no upper-case letter is left |
| Normalize.Substitute | HW3/xkcd.go:84-91 | The regexp replacement never lengthens its input |
| Normalize.SubstituteAlphabet | HW3/xkcd.go:84-91 | Every rune the replacement leaves is a space or an ASCII letter or digit |
| Normalize.Clean | HW3/xkcd.go:90-93 | After cleaning, every character of a field is in `[a-z0-9 ]`, and the field is no longer than before |
| Normalize.SubstituteMarker | HW3/xkcd.go:84-91 | An `Alt:` or `Alt-title:` marker anywhere in a field is replaced by exactly one space, and the text on either side is replaced as if the marker were not there |
| Normalize.CleanMarker | HW3/xkcd.go:84-93 | After cleaning, an `Alt:` or `Alt-title:` marker anywhere in a field has become exactly one space between the cleaned text before it and the cleaned text after it |
| Normalize.CleanKeepsAlnums | HW3/xkcd.go:84-93 | Cleaning keeps the length exactly when no `Alt:`/`Alt-title:` marker occurs. With no marker, each letter or digit is kept lowercased in place and every other character becomes exactly one space |
| Normalize.CleanHasNoMarker | HW3/xkcd.go:84-93 | A string over `[a-z0-9 ]` holds neither marker |
| Normalize.CleanFixpoint | HW3/xkcd.go:84-93 | The strings cleaning leaves unchanged are exactly the strings over `[a-z0-9 ]` (both directions) |
| Normalize.CleanIdempotent | HW3/xkcd.go:84-93 | Cleaning a cleaned field changes nothing |
| Normalize.SubstituteSplit | HW3/xkcd.go:84-91 | No match runs across a rune that cannot continue a marker (a space, or the `A` that starts one), so the replacement of `a + b` at such a boundary is the replacement of `a` followed by that of `b` |
| Normalize.CleanSplit | HW3/xkcd.go:84-93 | Cleaning `a + b`, where `b` starts with a rune that cannot continue a marker (a space or an `A`, for example), is cleaning `a` followed by cleaning `b` |
| Tokenize.Fields | HW3/xkcd.go:101-116 | Every token `strings.Fields` returns is non-empty and holds no white space |
| Tokenize.FieldsAreWords | HW3/xkcd.go:101-116 | Every token `strings.Fields` returns is non-empty, holds no white space, and is made of characters of its input |
| Tokenize.FieldsEmpty | HW3/xkcd.go:101-116 | A field yields no token exactly when it is all white space |
| Tokenize.JoinFields | HW3/xkcd.go:101-116 | Joining the tokens with single spaces gives the field with every white-space run collapsed to one space and both ends trimmed, as the per-character reference definition `Collapse` says |
| Tokenize.FieldsJoin | HW3/xkcd.go:101-116 | Splitting words joined by single spaces gives the words back |
| Tokenize.FieldsWord | HW3/xkcd.go:101-116 | A word followed by white space, or by nothing, is split off as one token |
| Tokenize.FieldsSkipSpaces | HW3/xkcd.go:101-116 | Leading white space produces no token |
| Tokenize.FieldsAppend | HW3/xkcd.go:101-116 | Splitting distributes over a concatenation whose left part ends in white space |
| Tokenize.FieldsTrailingSpace | HW3/xkcd.go:101-116 | A white-space rune at the end of a field produces no token |
| Tokenize.FieldsSpaceJoin | HW3/xkcd.go:101-116 | Splitting distributes over a concatenation whose right part starts with white space |
| Comics.Cleaned | HW3/xkcd.go:82-95 | The collection `cleanTranscripts` returns has exactly `MAX` records, each with its title and transcript over `[a-z0-9 ]`. Slot `i` keeps the number of input record `i`, or 0 past the end of the input |
| Comics.CleanedShape | HW3/xkcd.go:82-95 | The cleaned collection has exactly `MAX` records. The first min(len, `MAX`) are copies of the input with only `Title` and `Transcript` changed, to their cleaned form. Every other slot is the zero record. Every title and transcript is over `[a-z0-9 ]` |
| Comics.Copy | HW3/xkcd.go:83 | Go's `copy`: copies min(len(dst), len(src)) records, returns that count, and leaves the rest of `dst` as it was |
| Comics.NormaliseAll | HW3/xkcd.go:89-94 | The loop of `cleanTranscripts`: every record gets its cleaned title and transcript, and nothing else changes |
| Comics.CleanTranscripts | HW3/xkcd.go:80-98 | Returns a fresh array equal to `Cleaned` of the input, whose shape `Comics.CleanedShape` states |
| Comics.SplitTranscript | HW3/xkcd.go:101-107 | Each record's `TranscriptFields` becomes `strings.Fields` of its transcript, and no other field or record changes |
| Comics.SplitTitle | HW3/xkcd.go:110-116 | Each record's `TitleFields` becomes `strings.Fields` of its title, and no other field or record changes |
| Comics.SpaceSeparatesTokens | HW3/xkcd.go:84-104 | The tokens of a cleaned field split before a space are the tokens of the first part followed by those of the second |
| Comics.MarkerSeparatesTokens | HW3/xkcd.go:84-104 | An `Alt:` or `Alt-title:` marker separates the tokens of a cleaned field exactly as a space does, and yields no token of its own |
| Comics.TokenizedCleanTokens | HW3/xkcd.go:80-116 | Every token split from a cleaned record is a non-empty run of lower-case ASCII letters and digits |
| InvertedIndex.AddWords | HW3/xkcd.go:128-144 | After `growIndex`, the keys are the old keys and the tokens. Every token's list holds the comic number, and every old list survives as a prefix of the new one |
| InvertedIndex.IndexOf | HW3/xkcd.go:120-151 | Every list in the map `createIndex` builds is non-empty |
| InvertedIndex.DedupAppend | HW3/xkcd.go:131-141 | Deduplicating one more hit appends it to the deduplicated list exactly when it is not already there, which is the `slices.Contains` test of `growIndex` |
| InvertedIndex.GrowIndex | HW3/xkcd.go:128-144 | `growIndex` over a comic's tokens gives `AddWords`: for each token in order, the comic number is appended unless already listed, and a new key is created with just that number |
| InvertedIndex.AddWordsGet | HW3/xkcd.go:128-144 | After `growIndex`, a word is a key exactly when it was one or is among the tokens. Its list gains the comic number at the end exactly when the word is among the tokens and the number is not yet listed |
| InvertedIndex.AddDocGet | HW3/xkcd.go:146-147 | One comic, transcript then title, adds its number to exactly the words it mentions, once each |
| InvertedIndex.CreateIndex | HW3/xkcd.go:120-151 | `createIndex` returns the map `IndexOf` of the collection |
| InvertedIndex.IndexOfGet | HW3/xkcd.go:120-151 | A word is a key exactly when some comic mentions it. Its list is the numbers of the comics that mention it, deduplicated and in order of first occurrence (the reference `Dedup(Hits(..))`) |
| InvertedIndex.HitsMember | HW3/xkcd.go:126-149 | A number is among the hits for a word exactly when a comic with that number mentions the word |
| InvertedIndex.IndexCorrect | HW3/xkcd.go:126-149 | Completeness and soundness: a word is a key exactly when some comic mentions it, a number is listed under it exactly when a comic with that number mentions it, and every list is non-empty and free of duplicates |
| InvertedIndex.IndexSearch | HW3/xkcd.go:155-162 | Lookup returns nil exactly when the term is not a key |
| InvertedIndex.SearchIndexOf | HW3/xkcd.go:155-162 | On a built index, lookup returns nil exactly when no comic mentions the term. Otherwise it returns a non-empty, duplicate-free list: the mentioning comics in order of first occurrence |
| InvertedIndex.PreparedKeysAreCleanTokens | HW3/xkcd.go:80-151 | Every key of the index of a cleaned and split collection is a non-empty run of lower-case ASCII letters and digits |
| InvertedIndex.UncleanTermNotFound | HW3/xkcd.go:155-162 | The search term is not normalised, so a term that is not already a clean token (for example one with an upper-case letter) is never found |
| InvertedIndex.HitsPrefix | HW3/xkcd.go:126-149 | Comics at the end of the collection that do not mention a word leave its hits unchanged |
| InvertedIndex.PaddingAddsNothing | HW3/xkcd.go:82-151 | The zero records that pad a short collection to `MAX` slots add nothing: the index equals the index of the copied slots alone |
| InvertedIndex.IndexCollection | HW3/xkcd.go:191-202 | The pipeline in `main` (clean, split transcripts, split titles, index) returns `IndexOf` of the cleaned and split collection, and every key is a clean token |
| Scenarios.AltMarkerFields | HW3/xkcd.go:84-104 | The field "Hello, World! Alt: extra" cleans and splits into exactly the tokens "hello", "world" and "extra": the marker becomes a separator and leaves no token |
| Scenarios.CatAndDog | HW3/xkcd.go:80-162 | On comic 1 titled "Cat Dog" and comic 2 with transcript "dog runs": "dog" finds [1, 2], "cat" finds [1], "runs" finds [2], and "fish" and the unnormalised "Dog" find nothing |

## Left out

- `processUrl` and `buildCollection` (HTTP requests, JSON decoding, process exit on a transport error) are network and I/O. The collection is an input of the model. So is the URL off-by-one in `buildCollection`, which fetches comics 2 to 101.
- `printResults` and the argument handling and logging in `main` are console I/O. `InvertedIndex.IndexCollection` models only the steps of `main` that build the index.
- The error path of `regexp.Compile` in `cleanTranscripts` is unreachable because the pattern is a constant. `Comics.CleanTranscripts` therefore has no error result.
- Go's regexp engine is not modelled in general. Only this one pattern is modelled, as a scan.
- `strings.ToLower` is modelled on ASCII letters only. After the substitution no other letter is left.
- Strings are sequences of runes. Bytes that are not valid UTF-8 are not modelled.
- `Normalize.Lower`: Go's Unicode case mapping of non-ASCII letters is not stated, because such letters are replaced by spaces before lowercasing.
- The index is a value threaded through `CreateIndex` and `GrowIndex`. Go's map is shared through a pointer and updated in place, so aliasing of the map is not modelled.
- Go's `int` width is not modelled. Comic numbers are only stored and compared, never computed with.
- The difference between a nil slice and an empty one is modelled only for the result of `indexSearch`, where it is observable. Everywhere else both are the empty sequence.
- Comics.NormaliseAll: the four field assignments of the loop body are combined into one record update per iteration. The values written are the same.
- HW2 (HTML word counting over an external parser library) and HW4 (empty CRUD stubs over a float map) are not part of this model.
