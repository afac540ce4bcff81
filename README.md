# LiteralMatchingSearcher in Dafny

A model of the phrase ("literal") matching searcher of the `bmi-p2-03`
search engine. It also proves properties of the model.

The searcher is bound to an index by `build`. `search` takes a query and:

1. cuts it at spaces into terms, with Java's `String.split(" ")`;
2. looks up the first term's posting list;
3. folds `concatPostings` over the posting lists of the remaining terms;
4. scores every surviving posting with a tf-idf weighting;
5. returns the scored documents sorted by decreasing score.

`concatPostings` is a positional intersection. For each posting of the
current term it finds the previous stage's posting for the same document by
binary search. It then walks two nested position loops with an early exit and
keeps the merged posting if it has at least one position.

The modules follow that structure:

- `Postings` holds the posting datatype, the posting-list orderings, a
  reference lookup `FindDoc` and the JDK `Collections.binarySearch` loop.
- `Adjacency` holds the nested position loops (`AdjacentPositions`). They are
  specified by the functions `Scan` and `Adjacent`. `Filter` is a
  membership-test reference definition, and they are proved equal to it
  when the inner positions are strictly increasing.
- `Intersection` holds `concatPostings` as written (`ConcatPostings`). It is
  specified by the function `Concat`, and the lemmas give its properties.
  `Concat` takes a `Mode`:
  - `AsWritten` is the code: both position loops walk the previous posting.
  - `Corrected` is the merge the method's documentation describes: current
    positions against previous positions.

  Every general lemma is proved for both modes.
- `Indexing` is the read-only index: a term-to-posting-list map, the set of
  document identifiers and the per-document module.
- `QuerySplit` models `String.split(" ")`.
- `PhraseResolution` holds the fold over the terms (`Phrase`, and
  `FinalPostings` for a whole query) and its properties, including what a
  final position means under each mode.
- `Ranking` holds the scored results, the weighting as a function parameter,
  and the in-place sort with its permutation lemmas.
- `Searching` holds the `LiteralMatchingSearcher` class with its `index`
  field and the methods `Build` and `Search`. `FoldTerms` and `ScorePostings`
  are the two loops of `search`.

Two behaviours of the code shape the model:

- Java's `String.split(" ")` drops trailing empty strings. So a query made
  only of spaces splits into zero terms, and `search` returns an empty list
  at line 65. A query with no space at all is one term, and the empty query
  is one empty term.
- The two position loops of `concatPostings` (lines 139-140) both walk
  `prevPosting.getTermPositions()`. The method's doc comment (lines 109-112)
  describes postings of the current list with positions consecutive to the
  previous list's. The model follows the code and also states the merge the
  comment describes (see Findings).

## Model

Source paths are relative to the repository root. Lemmas that take a
`Mode` hold for the code and for the corrected merge alike.

| member | source | states |
|---|---|---|
| Postings.FindDoc | bmi-p2-03/src/es/uam/eps/bmi/search/searching/LiteralMatchingSearcher.java:129-134 | the lookup of a document in a posting list: a found index holds the document and no earlier one does; no result means no posting holds it |
| Postings.FindDocUnique | bmi-p2-03/src/es/uam/eps/bmi/search/searching/LiteralMatchingSearcher.java:129-136 | in a list with one posting per document, the lookup of a posting's document finds exactly that posting |
| Postings.BinarySearch | bmi-p2-03/src/es/uam/eps/bmi/search/searching/LiteralMatchingSearcher.java:129-131 | Collections.binarySearch with the docID comparator on a docID-sorted list: a non-negative result indexes a posting of that document; a negative result -(ip + 1) has every docID before ip smaller and every docID from ip on larger |
| Adjacency.ScanSound | bmi-p2-03/src/es/uam/eps/bmi/search/searching/LiteralMatchingSearcher.java:140-146 | the inner loop only ever appends the candidate c, and only when c - 1 is an inner position, whatever the order of the inner positions |
| Adjacency.ScanIncreasing | bmi-p2-03/src/es/uam/eps/bmi/search/searching/LiteralMatchingSearcher.java:140-146 | over strictly increasing inner positions the early break loses nothing: the inner loop appends c exactly once if c - 1 is an inner position and nothing otherwise |
| Adjacency.AdjacentSound | bmi-p2-03/src/es/uam/eps/bmi/search/searching/LiteralMatchingSearcher.java:139-148 | every position the nested loops append is an outer position directly after an inner position |
| Adjacency.AdjacentIsFilter | bmi-p2-03/src/es/uam/eps/bmi/search/searching/LiteralMatchingSearcher.java:139-147 | over strictly increasing inner positions the nested loops with the early break compute the plain filter "outer positions c, in order, with c - 1 among the inner positions" |
| Adjacency.FilterMembers | bmi-p2-03/src/es/uam/eps/bmi/search/searching/LiteralMatchingSearcher.java:139-147 | the filter keeps a position if and only if it is an outer position directly after an inner one |
| Adjacency.FilterIncreasing | bmi-p2-03/src/es/uam/eps/bmi/search/searching/LiteralMatchingSearcher.java:139-148 | the filter is an order-preserving selection, so it is strictly increasing when the outer positions are |
| Adjacency.AdjacentPositions | bmi-p2-03/src/es/uam/eps/bmi/search/searching/LiteralMatchingSearcher.java:139-148 | the two nested for loops with the early break append exactly the positions of the specification Adjacent, candidate by candidate, in order (and so, by the lemmas above, the filter when the inner positions increase) |
| Intersection.ConcatPostings | bmi-p2-03/src/es/uam/eps/bmi/search/searching/LiteralMatchingSearcher.java:122-158 | concatPostings as written: walking the current list in order, a binary search per posting, the nested loops over the previous posting's positions, a posting kept when it has a position; its result is Concat in the AsWritten mode, whose meaning the lemmas below state |
| Intersection.MergeOneMembers | bmi-p2-03/src/es/uam/eps/bmi/search/searching/LiteralMatchingSearcher.java:129-153 | one current posting contributes at most one posting, and exactly its merge with the previous posting of its document when that merge has a position |
| Intersection.ConcatNoLongerThanCurrent | bmi-p2-03/src/es/uam/eps/bmi/search/searching/LiteralMatchingSearcher.java:127-153 | at most one output posting per current posting, so the result is no longer than the current list |
| Intersection.ConcatSound | bmi-p2-03/src/es/uam/eps/bmi/search/searching/LiteralMatchingSearcher.java:127-153 | every output posting is the merge of some current posting with the previous posting of the same document, with at least one position |
| Intersection.ConcatComplete | bmi-p2-03/src/es/uam/eps/bmi/search/searching/LiteralMatchingSearcher.java:127-153 | the merge of any current posting whose document is in the previous list, when it has a position, is in the result |
| Intersection.ConcatMembers | bmi-p2-03/src/es/uam/eps/bmi/search/searching/LiteralMatchingSearcher.java:127-156 | both directions at once: a posting is in the result if and only if it is such a merge |
| Intersection.ConcatDocsInBoth | bmi-p2-03/src/es/uam/eps/bmi/search/searching/LiteralMatchingSearcher.java:127-153 | every output posting's document is in both lists, and the posting has at least one position |
| Intersection.ConcatEmpty | bmi-p2-03/src/es/uam/eps/bmi/search/searching/LiteralMatchingSearcher.java:122-158 | an empty list on either side gives an empty result |
| Intersection.ConcatSorted | bmi-p2-03/src/es/uam/eps/bmi/search/searching/LiteralMatchingSearcher.java:127-153 | the result follows the current list's order, so with both lists sorted by docID and one posting per document, so is the result |
| Intersection.ConcatNoLongerThanPrevious | bmi-p2-03/src/es/uam/eps/bmi/search/searching/LiteralMatchingSearcher.java:127-153 | with both lists sorted by docID and one posting per document, the result is no longer than the previous list either |
| Intersection.AsWrittenIgnoresCurrentPositions | bmi-p2-03/src/es/uam/eps/bmi/search/searching/LiteralMatchingSearcher.java:139-140 | as written, two current lists that agree on terms and documents give the same result: the current positions are never read |
| Intersection.MergedIncreasing | bmi-p2-03/src/es/uam/eps/bmi/search/searching/LiteralMatchingSearcher.java:114-115 | in either mode, merging two postings whose positions strictly increase gives strictly increasing positions |
| Intersection.AsWrittenPositions | bmi-p2-03/src/es/uam/eps/bmi/search/searching/LiteralMatchingSearcher.java:135-148 | as written, the posting kept for a document holds exactly the previous positions c with c - 1 also a previous position, strictly increasing |
| Intersection.CorrectedPositions | bmi-p2-03/src/es/uam/eps/bmi/search/searching/LiteralMatchingSearcher.java:109-112 | corrected, the posting kept for a document holds exactly the current positions directly after a previous position |
| Intersection.AsWrittenMissesAdjacentTerms | bmi-p2-03/src/es/uam/eps/bmi/search/searching/LiteralMatchingSearcher.java:139-140 | "the" at 4 and "cat" at 5 in document 7: as written the merge returns nothing, corrected it returns "cat" in document 7 at 5 |
| QuerySplit.JoinFields | bmi-p2-03/src/es/uam/eps/bmi/search/searching/LiteralMatchingSearcher.java:61 | cutting the query at every space loses nothing: joining the fields with single spaces gives the query back |
| QuerySplit.FieldsHaveNoSpace | bmi-p2-03/src/es/uam/eps/bmi/search/searching/LiteralMatchingSearcher.java:61 | no field contains a space |
| QuerySplit.FieldsAllEmpty | bmi-p2-03/src/es/uam/eps/bmi/search/searching/LiteralMatchingSearcher.java:61 | every field is empty if and only if the query is all spaces |
| QuerySplit.DropTrailingEmptyShape | bmi-p2-03/src/es/uam/eps/bmi/search/searching/LiteralMatchingSearcher.java:61 | dropping trailing empty strings leaves a prefix that is empty or ends in a non-empty string, and removes only empty strings |
| QuerySplit.SplitShape | bmi-p2-03/src/es/uam/eps/bmi/search/searching/LiteralMatchingSearcher.java:61 | split(" ") is the query itself when it has no space, and otherwise a prefix of the fields without trailing empty terms |
| QuerySplit.SplitEmpty | bmi-p2-03/src/es/uam/eps/bmi/search/searching/LiteralMatchingSearcher.java:61-66 | the query splits into no terms if and only if it is non-empty and all spaces; the empty query is one empty term |
| PhraseResolution.PhraseSorted | bmi-p2-03/src/es/uam/eps/bmi/search/searching/LiteralMatchingSearcher.java:69-78 | every stage of the fold is sorted by docID with one posting per document, so each concatPostings call gets the ordered list it needs |
| PhraseResolution.FoldStep | bmi-p2-03/src/es/uam/eps/bmi/search/searching/LiteralMatchingSearcher.java:76-78 | a posting of a later stage comes from a posting of the term's list and the previous stage's posting for the same document; it carries that term and the merged positions |
| PhraseResolution.PhrasePositionsIncreasing | bmi-p2-03/src/es/uam/eps/bmi/search/searching/LiteralMatchingSearcher.java:69-78 | on an index whose postings list their positions in strictly increasing order, every stage of the fold does too, so each concatPostings call gets the sorted positions its documentation asks for |
| PhraseResolution.PhraseDocsInEveryTerm | bmi-p2-03/src/es/uam/eps/bmi/search/searching/LiteralMatchingSearcher.java:69-78 | every document left after the fold is in every term's posting list |
| PhraseResolution.PhraseNoLongerThanAnyTerm | bmi-p2-03/src/es/uam/eps/bmi/search/searching/LiteralMatchingSearcher.java:69-78 | the final list is no longer than any term's posting list |
| PhraseResolution.PhrasePositionsNotEmpty | bmi-p2-03/src/es/uam/eps/bmi/search/searching/LiteralMatchingSearcher.java:76-78 | after a second term every surviving posting has a position, so its term frequency is at least one |
| PhraseResolution.SingleTermQuery | bmi-p2-03/src/es/uam/eps/bmi/search/searching/LiteralMatchingSearcher.java:61-78 | a query without a space yields the index's posting list for it, unchanged |
| PhraseResolution.SpacesOnlyQuery | bmi-p2-03/src/es/uam/eps/bmi/search/searching/LiteralMatchingSearcher.java:61-66 | a query of spaces only leaves no postings |
| PhraseResolution.CorrectedPhraseMatchAt | bmi-p2-03/src/es/uam/eps/bmi/search/searching/LiteralMatchingSearcher.java:109-112 | corrected, a final position c of a document means a phrase match: the k-th term occurs in that document at c - (n - 1 - k) |
| PhraseResolution.AsWrittenFirstTermAt | bmi-p2-03/src/es/uam/eps/bmi/search/searching/LiteralMatchingSearcher.java:139-148 | as written, a final position c of a document after n terms only says that the first term occurs there at every one of c - n + 1 .. c |
| PhraseResolution.AsWrittenMissesTheCat | bmi-p2-03/src/es/uam/eps/bmi/search/searching/LiteralMatchingSearcher.java:69-78 | on an index where "the" is at 4 and "cat" at 5 of document 7, the query fold as written finds nothing and the corrected fold finds document 7 |
| Ranking.ScoresDocIDs | bmi-p2-03/src/es/uam/eps/bmi/search/searching/LiteralMatchingSearcher.java:86-101 | the assembled results hold one entry per final posting, for the same documents in the same order |
| Ranking.PermutationKeepsDocIDs | bmi-p2-03/src/es/uam/eps/bmi/search/searching/LiteralMatchingSearcher.java:105 | reordering the results reorders their documents alike: a permutation keeps every document as many times |
| Ranking.SwapDown | bmi-p2-03/src/es/uam/eps/bmi/search/searching/LiteralMatchingSearcher.java:105 | exchanging two neighbouring results: the new array is the old one with the two swapped, every other result in place, and the same multiset |
| Ranking.InsertLeft | bmi-p2-03/src/es/uam/eps/bmi/search/searching/LiteralMatchingSearcher.java:105 | one insertion step: a sorted prefix of length i becomes a sorted prefix of length i + 1 that is a permutation of the old first i + 1 results, and the results after i are unchanged |
| Ranking.SortByScoreDesc | bmi-p2-03/src/es/uam/eps/bmi/search/searching/LiteralMatchingSearcher.java:105 | Collections.sort with the reverse order, in place: the array ends sorted by decreasing score and is a permutation of what it was |
| Searching.LiteralMatchingSearcher.constructor | bmi-p2-03/src/es/uam/eps/bmi/search/searching/LiteralMatchingSearcher.java:36-39 | a new searcher has no index |
| Searching.LiteralMatchingSearcher.Build | bmi-p2-03/src/es/uam/eps/bmi/search/searching/LiteralMatchingSearcher.java:47-50 | build stores the given index and changes nothing else |
| Searching.FoldTerms | bmi-p2-03/src/es/uam/eps/bmi/search/searching/LiteralMatchingSearcher.java:69-78 | the loop over the remaining terms computes the fold Phrase as written, whose meaning the PhraseResolution lemmas state |
| Searching.ScorePostings | bmi-p2-03/src/es/uam/eps/bmi/search/searching/LiteralMatchingSearcher.java:81-102 | the scoring loop builds one result per final posting, in order, with the posting's document and the weighting of (documents in the index, matching documents, document module, term frequency) |
| Searching.LiteralMatchingSearcher.Search | bmi-p2-03/src/es/uam/eps/bmi/search/searching/LiteralMatchingSearcher.java:59-107 | search returns exactly the scored final postings (as a multiset), hence exactly the final documents as many times each, sorted by decreasing score; a query that splits into no terms gives no results |

## Left out

- `main` (lines 170-221) is console input and output, index loading from disk and a top-5 display; it is not part of this model.
- The tf-idf arithmetic (lines 95-100) uses `Math.log` on doubles. The score is the value of a weighting function passed to `Search`, applied to the same four inputs. Floating point, NaN and infinities are not modelled.
- `Ranking.SortByScoreDesc`: the contract states sorted and a permutation; stability is not stated. `Collections.sort` is a stable merge sort; the model is an insertion sort that moves only past strictly smaller scores, so it keeps equal scores in order too, but no lemma says so.
- `Searching.LiteralMatchingSearcher.Search`: because of the sort above, the order among results with equal scores is not stated.
- `ScoredTextDocument`'s natural order is taken to be the order of its score, since `ScoredTextDocument.java` is not part of this model.
- `Index`, `BasicIndex` and `Posting` are not part of this model. They become a datatype: a read-only map from term to posting list, the set of document identifiers and a per-document module. A term that is not in the index is taken to have an empty posting list.
- Term frequency is taken to be the number of positions, as line 151 uses it.
- `Intersection.ConcatPostings` requires the previous list to hold one posting per document in increasing docID order, not only to be sorted. With two postings for one document, `Collections.binarySearch` may return either one, and the code does not say which.
- `Searching.LiteralMatchingSearcher.Search` requires that `build` was called (otherwise the Java code throws a NullPointerException) and that every posting list of the index holds one posting per document, sorted by docID.
- Positions are natural numbers; the 32-bit `int` overflow of `prevPosition + 1` at line 141 cannot occur for them below 2^31 - 1 and is not modelled.
- `resultPosting` is built as a value. Java's in-place `addPosition` on a fresh object has no aliasing visible to the caller.
- `String.split` is modelled for the one-space pattern only, not for general regular expressions.
- `bmi-p4-03/src/es/uam/eps/bmi/social/graph/ErdosGraph.java` only wraps an external random-graph generator; it is not part of this model.

## Findings

| source | as written | input that shows it | evidently intended | confidence | as-written member | corrected member |
|---|---|---|---|---|---|---|
| bmi-p2-03/src/es/uam/eps/bmi/search/searching/LiteralMatchingSearcher.java:139-140 | both the outer and the inner position loop walk `prevPosting.getTermPositions()`, so the current posting's positions are never read; a posting survives when the previous term occurs at two consecutive positions | query "the cat" on an index with "the" at position 4 and "cat" at position 5 of document 7: the merge, and the whole fold, return nothing | the outer loop walks `currPosting.getTermPositions()`, so a current position survives when it directly follows a previous one (the method's documentation, lines 109-112) | not executed | Intersection.AsWrittenMissesAdjacentTerms | PhraseResolution.CorrectedPhraseMatchAt |
