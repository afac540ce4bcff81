/** The read-only index the searcher is built over. */
module Indexing {
  import opened Postings

  /**
    The parts of an index the searcher reads: the posting list of every
    indexed term, the set of document identifiers (its size is the number of
    documents) and the precomputed module (norm) of every document.
   */
  datatype Index = Index(postings: map<string, seq<Posting>>, docIds: set<nat>, docModule: nat -> real)
  {
    /** getTermPostings: the term's posting list, empty for an unseen term. */
    function TermPostings(term: string): seq<Posting>
    {
      if term in postings then postings[term] else []
    }

    /** Every posting list is sorted by docID with one posting per document. */
    predicate Valid()
    {
      forall t :: t in postings ==> DocIDsIncreasing(postings[t])
    }

    /** Every posting lists its positions in strictly increasing order, as the
        indexer records them while reading a document front to back. */
    predicate PositionsIncreasing()
    {
      forall t, p :: t in postings && p in postings[t] ==> Increasing(p.positions)
    }
  }
}
