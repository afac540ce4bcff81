/** LiteralMatchingSearcher: the searcher object, bound to an index by build,
    answering phrase queries with a ranked list of documents. */
module Searching {
  import opened Wrappers
  import opened Postings
  import opened Intersection
  import opened Indexing
  import opened QuerySplit
  import opened PhraseResolution
  import opened Ranking

  class LiteralMatchingSearcher {
    /** The index searched; None until build is called. */
    var index: Option<Index>

    constructor ()
      ensures index == None
    {
      index := None;
    }

    /** build: binds the searcher to the given index. */
    method Build(ix: Index)
      modifies this
      ensures index == Some(ix)
    {
      index := Some(ix);
    }

    /**
      search: splits the query at spaces, folds concatPostings over the terms'
      posting lists, scores every surviving posting with the weighting and
      returns the results sorted by decreasing score.
     */
    method Search(query: string, weight: Weighting) returns (results: seq<ScoredTextDocument>)
      requires index.Some? && index.value.Valid()
      ensures multiset(results) == multiset(Scores(index.value, FinalPostings(index.value, query), weight))
      ensures multiset(ResultDocIDs(results)) == multiset(DocIDs(FinalPostings(index.value, query)))
      ensures SortedByScoreDesc(results)
    {
      var ix := index.value;
      var terms := Split(query);
      if |terms| == 0 {
        return [];
      }
      var finalPostingList := FoldTerms(ix, terms);
      var resultList := ScorePostings(ix, finalPostingList, weight);

      var sorted := new ScoredTextDocument[|resultList|](j requires 0 <= j < |resultList| => resultList[j]);
      assert sorted[..] == resultList;
      SortByScoreDesc(sorted);
      results := sorted[..];
      PermutationKeepsDocIDs(results, resultList);
      ScoresDocIDs(ix, finalPostingList, weight);
    }
  }

  /** The fold of search: start from the first term's posting list and replace
      it with its concatPostings against each further term's posting list. */
  method FoldTerms(ix: Index, terms: seq<string>) returns (finalPostingList: seq<Posting>)
    requires ix.Valid() && |terms| > 0
    ensures finalPostingList == Phrase(AsWritten, ix, terms)
  {
    finalPostingList := ix.TermPostings(terms[0]);
    assert terms[..1] == [terms[0]];
    var rest := terms[1..];
    for i := 0 to |rest|
      invariant finalPostingList == Phrase(AsWritten, ix, terms[..i + 1])
    {
      PhraseSorted(AsWritten, ix, terms[..i + 1]);
      PhraseStep(AsWritten, ix, terms, i);
      finalPostingList := ConcatPostings(finalPostingList, ix.TermPostings(rest[i]));
    }
    assert terms[..|rest| + 1] == terms;
  }

  /** The scoring loop of search: one scored document per surviving posting,
      in posting-list order. */
  method ScorePostings(ix: Index, finalPostingList: seq<Posting>, weight: Weighting)
      returns (resultList: seq<ScoredTextDocument>)
    ensures resultList == Scores(ix, finalPostingList, weight)
  {
    resultList := [];
    var sentenceDocsCount := |finalPostingList|;
    var docsCount := |ix.docIds|;
    for k := 0 to |finalPostingList|
      invariant resultList == Scores(ix, finalPostingList, weight)[..k]
    {
      var posting := finalPostingList[k];
      var docMod := ix.docModule(posting.docID);
      var sentenceFrequency := posting.TermFrequency();
      var score := weight(docsCount, sentenceDocsCount, docMod, sentenceFrequency);
      resultList := resultList + [ScoredTextDocument(posting.docID, score)];
    }
  }
}
