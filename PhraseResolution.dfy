/**
  The left fold in search: the first term's posting list seeds it, and every
  further term replaces the list built so far with its concatPostings against
  that term's posting list.
 */
module PhraseResolution {
  import opened Postings
  import opened Adjacency
  import opened Intersection
  import opened Indexing
  import opened QuerySplit

  /** The posting list after folding over the given (non-empty) terms. */
  function Phrase(mode: Mode, ix: Index, terms: seq<string>): seq<Posting>
    requires |terms| > 0
  {
    if |terms| == 1 then ix.TermPostings(terms[0])
    else Concat(mode, Phrase(mode, ix, terms[..|terms| - 1]), ix.TermPostings(terms[|terms| - 1]))
  }

  /** The posting list search scores for a query: empty when the query splits
      into no terms, otherwise the fold over its terms. */
  function FinalPostings(ix: Index, query: string): seq<Posting>
  {
    var terms := Split(query);
    if |terms| == 0 then [] else Phrase(AsWritten, ix, terms)
  }

  /** Some posting of list for document d records an occurrence at position
      pos. */
  ghost predicate OccursAt(list: seq<Posting>, d: nat, pos: int)
  {
    exists q :: q in list && q.docID == d && 0 <= pos && pos as nat in q.positions
  }

  /** One term more for the fold. */
  lemma PhraseStep(mode: Mode, ix: Index, terms: seq<string>, i: nat)
    requires i + 1 < |terms|
    ensures Phrase(mode, ix, terms[..i + 2])
      == Concat(mode, Phrase(mode, ix, terms[..i + 1]), ix.TermPostings(terms[i + 1]))
  {
    assert terms[..i + 2][..i + 1] == terms[..i + 1];
  }

  /** Every stage of the fold stays sorted by docID with one posting per
      document. */
  lemma {:induction false} PhraseSorted(mode: Mode, ix: Index, terms: seq<string>)
    requires ix.Valid() && |terms| > 0
    ensures DocIDsIncreasing(Phrase(mode, ix, terms))
  {
    if |terms| > 1 {
      PhraseSorted(mode, ix, terms[..|terms| - 1]);
      ConcatSorted(mode, Phrase(mode, ix, terms[..|terms| - 1]), ix.TermPostings(terms[|terms| - 1]));
    }
  }

  /** Every document left at the end appears in every term's posting list. */
  lemma {:induction false} PhraseDocsInEveryTerm(mode: Mode, ix: Index, terms: seq<string>)
    requires ix.Valid() && |terms| > 0
    ensures forall p :: p in Phrase(mode, ix, terms) ==>
      forall k :: 0 <= k < |terms| ==> p.docID in DocIDs(ix.TermPostings(terms[k]))
  {
    var n := |terms|;
    if n == 1 {
      forall p | p in Phrase(mode, ix, terms) ensures p.docID in DocIDs(ix.TermPostings(terms[0])) {
        var i :| 0 <= i < |ix.TermPostings(terms[0])| && ix.TermPostings(terms[0])[i] == p;
        assert DocIDs(ix.TermPostings(terms[0]))[i] == p.docID;
      }
    } else {
      var front := terms[..n - 1];
      var previous := Phrase(mode, ix, front);
      PhraseDocsInEveryTerm(mode, ix, front);
      PhraseSorted(mode, ix, front);
      ConcatDocsInBoth(mode, previous, ix.TermPostings(terms[n - 1]));
      forall p, k | p in Phrase(mode, ix, terms) && 0 <= k < n
        ensures p.docID in DocIDs(ix.TermPostings(terms[k]))
      {
        if k < n - 1 {
          var i :| 0 <= i < |previous| && DocIDs(previous)[i] == p.docID;
          assert previous[i] in previous;
          assert front[k] == terms[k];
        }
      }
    }
  }

  /** The final list is no longer than any single term's posting list. */
  lemma {:induction false} PhraseNoLongerThanAnyTerm(mode: Mode, ix: Index, terms: seq<string>)
    requires ix.Valid() && |terms| > 0
    ensures forall k :: 0 <= k < |terms| ==> |Phrase(mode, ix, terms)| <= |ix.TermPostings(terms[k])|
  {
    var n := |terms|;
    if n > 1 {
      var front := terms[..n - 1];
      var previous, current := Phrase(mode, ix, front), ix.TermPostings(terms[n - 1]);
      PhraseNoLongerThanAnyTerm(mode, ix, front);
      PhraseSorted(mode, ix, front);
      ConcatNoLongerThanCurrent(mode, previous, current);
      ConcatNoLongerThanPrevious(mode, previous, current);
      forall k | 0 <= k < n - 1 ensures |Phrase(mode, ix, terms)| <= |ix.TermPostings(terms[k])| {
        assert front[k] == terms[k];
      }
    }
  }

  /** After a second term every surviving posting has at least one position. */
  lemma PhrasePositionsNotEmpty(mode: Mode, ix: Index, terms: seq<string>)
    requires ix.Valid() && |terms| > 1
    ensures forall p :: p in Phrase(mode, ix, terms) ==> p.positions != []
  {
    PhraseSorted(mode, ix, terms[..|terms| - 1]);
    ConcatDocsInBoth(mode, Phrase(mode, ix, terms[..|terms| - 1]), ix.TermPostings(terms[|terms| - 1]));
  }

  /** Every posting of every stage lists its positions in strictly increasing
      order, as the index's postings do. */
  lemma {:induction false} PhrasePositionsIncreasing(mode: Mode, ix: Index, terms: seq<string>)
    requires ix.Valid() && ix.PositionsIncreasing() && |terms| > 0
    ensures forall p :: p in Phrase(mode, ix, terms) ==> Increasing(p.positions)
  {
    if |terms| > 1 {
      PhrasePositionsIncreasing(mode, ix, terms[..|terms| - 1]);
      forall p | p in Phrase(mode, ix, terms)
        ensures Increasing(p.positions)
      {
        var prevPosting, currPosting := FoldStep(mode, ix, terms, p);
        MergedIncreasing(mode, prevPosting, currPosting);
      }
    }
  }

  /** A query without a space is looked up as one term and its posting list is
      the result of the fold, unchanged. */
  lemma SingleTermQuery(ix: Index, query: string)
    requires ' ' !in query
    ensures FinalPostings(ix, query) == ix.TermPostings(query)
  {
  }

  /** A query of one or more spaces and nothing else leaves no postings. */
  lemma SpacesOnlyQuery(ix: Index, query: string)
    requires query != [] && AllSpaces(query)
    ensures FinalPostings(ix, query) == []
  {
    SplitEmpty(query);
  }

  /** One step of the fold, taken apart: a posting of the stage after the
      first comes from a current posting and the previous stage's posting for
      the same document, with the merged positions. */
  lemma FoldStep(mode: Mode, ix: Index, terms: seq<string>, p: Posting)
      returns (prevPosting: Posting, currPosting: Posting)
    requires ix.Valid() && |terms| > 1 && p in Phrase(mode, ix, terms)
    ensures prevPosting in Phrase(mode, ix, terms[..|terms| - 1])
    ensures currPosting in ix.TermPostings(terms[|terms| - 1])
    ensures prevPosting.docID == currPosting.docID == p.docID
    ensures p.term == currPosting.term
    ensures p.positions == MergedPositions(mode, prevPosting, currPosting)
  {
    var previous, current := Phrase(mode, ix, terms[..|terms| - 1]), ix.TermPostings(terms[|terms| - 1]);
    PhraseSorted(mode, ix, terms[..|terms| - 1]);
    ConcatMembers(mode, previous, current);
    var j :| 0 <= j < |current| && MergedFrom(mode, previous, current[j], p);
    var i :| 0 <= i < |previous| && previous[i].docID == current[j].docID
      && p == Posting(current[j].term, current[j].docID, MergedPositions(mode, previous[i], current[j]));
    prevPosting, currPosting := previous[i], current[j];
  }

  lemma TermOccurs(ix: Index, term: string, q: Posting, pos: nat)
    requires q in ix.TermPostings(term) && pos in q.positions
    ensures OccursAt(ix.TermPostings(term), q.docID, pos)
  {
  }

  /** One step of the corrected fold at a final position c: the previous
      stage's posting for the document holds c - 1, the term's posting c. */
  lemma CorrectedStep(ix: Index, terms: seq<string>, p: Posting, c: nat)
      returns (prevPosting: Posting, currPosting: Posting)
    requires ix.Valid() && |terms| > 1 && p in Phrase(Corrected, ix, terms) && c in p.positions
    ensures prevPosting in Phrase(Corrected, ix, terms[..|terms| - 1])
    ensures currPosting in ix.TermPostings(terms[|terms| - 1])
    ensures prevPosting.docID == currPosting.docID == p.docID
    ensures c in currPosting.positions && c > 0 && c - 1 in prevPosting.positions
  {
    prevPosting, currPosting := FoldStep(Corrected, ix, terms, p);
    AdjacentSound(currPosting.positions, prevPosting.positions);
  }

  /** One step of the fold as written at a final position c: the previous
      stage's posting for the document holds both c and c - 1. */
  lemma AsWrittenStep(ix: Index, terms: seq<string>, p: Posting, c: nat)
      returns (prevPosting: Posting)
    requires ix.Valid() && |terms| > 1 && p in Phrase(AsWritten, ix, terms) && c in p.positions
    ensures prevPosting in Phrase(AsWritten, ix, terms[..|terms| - 1])
    ensures prevPosting.docID == p.docID
    ensures c in prevPosting.positions && c > 0 && c - 1 in prevPosting.positions
  {
    var currPosting;
    prevPosting, currPosting := FoldStep(AsWritten, ix, terms, p);
    AdjacentSound(prevPosting.positions, prevPosting.positions);
  }

  /** With the corrected merge the last term occurs at every final position c
      of the document. */
  lemma CorrectedLastTermAt(ix: Index, terms: seq<string>, p: Posting, c: nat)
    requires ix.Valid() && |terms| > 0
    requires p in Phrase(Corrected, ix, terms) && c in p.positions
    ensures OccursAt(ix.TermPostings(terms[|terms| - 1]), p.docID, c)
  {
    if |terms| == 1 {
      TermOccurs(ix, terms[0], p, c);
    } else {
      var prevPosting, currPosting := CorrectedStep(ix, terms, p, c);
      TermOccurs(ix, terms[|terms| - 1], currPosting, c);
    }
  }

  /** With the corrected merge the k-th term occurs at pos, |terms| - 1 - k
      positions before any final position c, in the same document. */
  lemma {:induction false} CorrectedPhraseMatchAt(ix: Index, terms: seq<string>, p: Posting, c: nat, k: nat, pos: int)
    requires ix.Valid() && |terms| > 0 && k < |terms|
    requires p in Phrase(Corrected, ix, terms) && c in p.positions
    requires pos == c - (|terms| - 1 - k)
    ensures OccursAt(ix.TermPostings(terms[k]), p.docID, pos)
  {
    var n := |terms|;
    if k == n - 1 {
      CorrectedLastTermAt(ix, terms, p, c);
    } else {
      var front := terms[..n - 1];
      assert front[k] == terms[k];
      var prevPosting, currPosting := CorrectedStep(ix, terms, p, c);
      CorrectedPhraseMatchAt(ix, front, prevPosting, c - 1, k, pos);
    }
  }

  /** As written, the positions c - |terms| + 1 .. c before any final
      position c are occurrences of the first term in that document. */
  lemma {:induction false} AsWrittenFirstTermAt(ix: Index, terms: seq<string>, p: Posting, c: nat, q: int)
    requires ix.Valid() && |terms| > 0
    requires p in Phrase(AsWritten, ix, terms) && c in p.positions
    requires c - |terms| < q <= c
    ensures OccursAt(ix.TermPostings(terms[0]), p.docID, q)
  {
    var n := |terms|;
    if n == 1 {
      TermOccurs(ix, terms[0], p, c);
    } else {
      var front := terms[..n - 1];
      assert front[0] == terms[0];
      var prevPosting := AsWrittenStep(ix, terms, p, c);
      var c' := if q == c then c else c - 1;
      AsWrittenFirstTermAt(ix, front, prevPosting, c', q);
    }
  }

  /** The phrase "the cat" on an index where "the" is at position 4 and "cat"
      at position 5 of document 7: the searcher's fold finds nothing, the
      corrected fold finds document 7 at position 5. */
  lemma AsWrittenMissesTheCat()
    ensures var ix := Index(map["the" := [Posting("the", 7, [4])], "cat" := [Posting("cat", 7, [5])]], {7}, _ => 1.0);
      Phrase(AsWritten, ix, ["the", "cat"]) == [] && Phrase(Corrected, ix, ["the", "cat"]) == [Posting("cat", 7, [5])]
  {
    var ix := Index(map["the" := [Posting("the", 7, [4])], "cat" := [Posting("cat", 7, [5])]], {7}, _ => 1.0);
    assert ["the", "cat"][..1] == ["the"];
    assert ix.TermPostings("the") == [Posting("the", 7, [4])];
    assert ix.TermPostings("cat") == [Posting("cat", 7, [5])];
    AsWrittenMissesAdjacentTerms();
  }
}
