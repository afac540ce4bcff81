/**
  concatPostings: the positional intersection of the posting list built so far
  with the posting list of the next query term.
 */
module Intersection {
  import opened Wrappers
  import opened Postings
  import opened Adjacency

  /** Which positions the merge walks as candidates. AsWritten is the
      searcher's code, whose outer loop walks the previous posting's own
      positions; Corrected walks the current posting's positions, as the
      method's documentation describes. */
  datatype Mode = AsWritten | Corrected

  /** The positions of the merged posting for a document present in both
      lists. */
  function MergedPositions(mode: Mode, prevPosting: Posting, currPosting: Posting): seq<nat>
  {
    match mode
    case AsWritten => Adjacent(prevPosting.positions, prevPosting.positions)
    case Corrected => Adjacent(currPosting.positions, prevPosting.positions)
  }

  /** What one current posting contributes: nothing when previous has no
      posting for its document or the merged positions are empty, otherwise one
      posting with the current term and document. */
  function MergeOne(mode: Mode, previous: seq<Posting>, currPosting: Posting): seq<Posting>
  {
    match FindDoc(previous, currPosting.docID)
    case None => []
    case Some(i) =>
      var positions := MergedPositions(mode, previous[i], currPosting);
      if |positions| > 0 then [Posting(currPosting.term, currPosting.docID, positions)] else []
  }

  /** The result list, built by walking the current list in order. */
  function Concat(mode: Mode, previous: seq<Posting>, current: seq<Posting>): seq<Posting>
  {
    if current == [] then []
    else Concat(mode, previous, current[..|current| - 1]) + MergeOne(mode, previous, current[|current| - 1])
  }

  /** p is the merge of current posting cp with the posting previous holds
      for the same document: cp's term and docID, the merged positions, and at
      least one of them. */
  ghost predicate MergedFrom(mode: Mode, previous: seq<Posting>, cp: Posting, p: Posting)
  {
    exists i :: 0 <= i < |previous| && previous[i].docID == cp.docID
      && p == Posting(cp.term, cp.docID, MergedPositions(mode, previous[i], cp))
      && p.positions != []
  }

  /**
    concatPostings as written: for every current posting in order, look its
    document up in previous by binary search; when found, merge positions with
    both loops over the previous posting's positions and keep the new posting
    if it has at least one position.
   */
  method ConcatPostings(previous: seq<Posting>, current: seq<Posting>) returns (result: seq<Posting>)
    requires DocIDsIncreasing(previous)
    ensures result == Concat(AsWritten, previous, current)
  {
    result := [];
    for k := 0 to |current|
      invariant result == Concat(AsWritten, previous, current[..k])
    {
      var currPosting := current[k];
      var prevPostingPos := BinarySearch(previous, currPosting.docID);
      ConcatStep(AsWritten, previous, current, k);
      if prevPostingPos >= 0 {
        FindDocUnique(previous, prevPostingPos);
        var prevPosting := previous[prevPostingPos];
        var positions := AdjacentPositions(prevPosting.positions, prevPosting.positions);
        var resultPosting := Posting(currPosting.term, currPosting.docID, positions);
        if resultPosting.TermFrequency() > 0 {
          result := result + [resultPosting];
        }
      } else {
        assert FindDoc(previous, currPosting.docID).None?;
      }
    }
    assert current[..|current|] == current;
  }

  /** Walking one more current posting appends its contribution. */
  lemma ConcatStep(mode: Mode, previous: seq<Posting>, current: seq<Posting>, k: nat)
    requires k < |current|
    ensures Concat(mode, previous, current[..k + 1]) == Concat(mode, previous, current[..k]) + MergeOne(mode, previous, current[k])
  {
    assert current[..k + 1][..k] == current[..k];
  }

  lemma MergeOneMembers(mode: Mode, previous: seq<Posting>, cp: Posting)
    requires DocIDsIncreasing(previous)
    ensures |MergeOne(mode, previous, cp)| <= 1
    ensures forall p :: p in MergeOne(mode, previous, cp) <==> MergedFrom(mode, previous, cp, p)
  {
    forall p | MergedFrom(mode, previous, cp, p) ensures p in MergeOne(mode, previous, cp) {
      var i :| 0 <= i < |previous| && previous[i].docID == cp.docID
        && p == Posting(cp.term, cp.docID, MergedPositions(mode, previous[i], cp))
        && p.positions != [];
      FindDocUnique(previous, i);
    }
  }

  /** Every current posting contributes at most one posting to the result. */
  lemma {:induction false} ConcatNoLongerThanCurrent(mode: Mode, previous: seq<Posting>, current: seq<Posting>)
    ensures |Concat(mode, previous, current)| <= |current|
  {
    if current != [] {
      ConcatNoLongerThanCurrent(mode, previous, current[..|current| - 1]);
    }
  }

  /** Every posting of the result is the merge of some current posting. */
  lemma {:induction false} ConcatSound(mode: Mode, previous: seq<Posting>, current: seq<Posting>, p: Posting)
      returns (j: nat)
    requires DocIDsIncreasing(previous) && p in Concat(mode, previous, current)
    ensures j < |current| && MergedFrom(mode, previous, current[j], p)
  {
    var front := current[..|current| - 1];
    if p in Concat(mode, previous, front) {
      j := ConcatSound(mode, previous, front, p);
      assert current[j] == front[j];
    } else {
      j := |current| - 1;
      MergeOneMembers(mode, previous, current[j]);
    }
  }

  /** The merge of every current posting is in the result. */
  lemma {:induction false} ConcatComplete(mode: Mode, previous: seq<Posting>, current: seq<Posting>, j: nat, p: Posting)
    requires DocIDsIncreasing(previous) && j < |current| && MergedFrom(mode, previous, current[j], p)
    ensures p in Concat(mode, previous, current)
  {
    var front := current[..|current| - 1];
    if j < |front| {
      assert front[j] == current[j];
      ConcatComplete(mode, previous, front, j, p);
    } else {
      MergeOneMembers(mode, previous, current[j]);
    }
  }

  /** The result holds exactly the merges of current postings with their
      documents' previous postings. */
  lemma {:induction false} ConcatMembers(mode: Mode, previous: seq<Posting>, current: seq<Posting>)
    requires DocIDsIncreasing(previous)
    ensures forall p :: (p in Concat(mode, previous, current)
      <==> exists j :: 0 <= j < |current| && MergedFrom(mode, previous, current[j], p))
  {
    forall p | p in Concat(mode, previous, current)
      ensures exists j :: 0 <= j < |current| && MergedFrom(mode, previous, current[j], p)
    {
      var j := ConcatSound(mode, previous, current, p);
    }
    forall p | exists j :: 0 <= j < |current| && MergedFrom(mode, previous, current[j], p)
      ensures p in Concat(mode, previous, current)
    {
      var j :| 0 <= j < |current| && MergedFrom(mode, previous, current[j], p);
      ConcatComplete(mode, previous, current, j, p);
    }
  }

  /** Every posting of the result is for a document present in both lists,
      carries the term of the current list's posting for it, and has at least
      one position. */
  lemma ConcatDocsInBoth(mode: Mode, previous: seq<Posting>, current: seq<Posting>)
    requires DocIDsIncreasing(previous)
    ensures forall p :: p in Concat(mode, previous, current) ==>
      p.docID in DocIDs(previous) && p.docID in DocIDs(current) && p.positions != []
      && exists j :: 0 <= j < |current| && current[j].docID == p.docID && current[j].term == p.term
  {
    ConcatMembers(mode, previous, current);
    forall p | p in Concat(mode, previous, current)
      ensures p.docID in DocIDs(previous) && p.docID in DocIDs(current)
    {
      var j :| 0 <= j < |current| && MergedFrom(mode, previous, current[j], p);
      var i :| 0 <= i < |previous| && previous[i].docID == current[j].docID
        && p == Posting(current[j].term, current[j].docID, MergedPositions(mode, previous[i], current[j]));
      assert DocIDs(previous)[i] == p.docID;
      assert DocIDs(current)[j] == p.docID;
    }
  }

  /** Nothing survives an empty list on either side. */
  lemma {:induction false} ConcatEmpty(mode: Mode, previous: seq<Posting>, current: seq<Posting>)
    requires previous == [] || current == []
    ensures Concat(mode, previous, current) == []
  {
    if current != [] {
      ConcatEmpty(mode, previous, current[..|current| - 1]);
    }
  }

  /** The result follows the current list's order, so it is sorted by docID
      with one posting per document when the current list is. */
  lemma {:induction false} ConcatSorted(mode: Mode, previous: seq<Posting>, current: seq<Posting>)
    requires DocIDsIncreasing(previous) && DocIDsIncreasing(current)
    ensures DocIDsIncreasing(Concat(mode, previous, current))
  {
    if current != [] {
      var front, last := current[..|current| - 1], current[|current| - 1];
      ConcatSorted(mode, previous, front);
      ConcatMembers(mode, previous, front);
      MergeOneMembers(mode, previous, last);
      var f := Concat(mode, previous, front);
      forall i | 0 <= i < |f| ensures f[i].docID < last.docID {
        assert f[i] in f;
        var j :| 0 <= j < |front| && MergedFrom(mode, previous, front[j], f[i]);
        assert current[j] == front[j];
      }
      var r := Concat(mode, previous, current);
      forall i, j | 0 <= i < j < |r| ensures r[i].docID < r[j].docID {
        if j < |f| {
          assert r[i] == f[i] && r[j] == f[j];
        } else {
          assert r[j] in MergeOne(mode, previous, last);
          assert r[i] == f[i];
        }
      }
    }
  }

  /** With both lists sorted by docID and one posting per document, the
      result is no longer than the previous list either. */
  lemma ConcatNoLongerThanPrevious(mode: Mode, previous: seq<Posting>, current: seq<Posting>)
    requires DocIDsIncreasing(previous) && DocIDsIncreasing(current)
    ensures |Concat(mode, previous, current)| <= |previous|
  {
    var r := Concat(mode, previous, current);
    ConcatSorted(mode, previous, current);
    ConcatDocsInBoth(mode, previous, current);
    forall x | x in DocIDs(r) ensures x in DocIDs(previous) {
      var k :| 0 <= k < |r| && DocIDs(r)[k] == x;
      assert r[k] in r;
    }
    IncreasingWithin(DocIDs(r), DocIDs(previous));
  }

  /** As written, the current postings' positions play no part: two current
      lists that agree on terms and documents give the same result. */
  lemma {:induction false} AsWrittenIgnoresCurrentPositions(previous: seq<Posting>, current: seq<Posting>, current': seq<Posting>)
    requires |current| == |current'|
    requires forall j :: 0 <= j < |current| ==>
      current[j].term == current'[j].term && current[j].docID == current'[j].docID
    ensures Concat(AsWritten, previous, current) == Concat(AsWritten, previous, current')
  {
    if current != [] {
      AsWrittenIgnoresCurrentPositions(previous, current[..|current| - 1], current'[..|current'| - 1]);
    }
  }

  /** Merging two postings with strictly increasing positions gives strictly
      increasing positions, in either mode. */
  lemma MergedIncreasing(mode: Mode, prevPosting: Posting, currPosting: Posting)
    requires Increasing(prevPosting.positions) && Increasing(currPosting.positions)
    ensures Increasing(MergedPositions(mode, prevPosting, currPosting))
  {
    match mode
    case AsWritten =>
      AdjacentIsFilter(prevPosting.positions, prevPosting.positions);
      FilterIncreasing(prevPosting.positions, prevPosting.positions);
    case Corrected =>
      AdjacentIsFilter(currPosting.positions, prevPosting.positions);
      FilterIncreasing(currPosting.positions, prevPosting.positions);
  }

  /** As written, the posting kept for a document holds exactly the positions
      c of the previous posting with c - 1 also among them, in increasing order,
      when the previous positions are strictly increasing. */
  lemma AsWrittenPositions(previous: seq<Posting>, current: seq<Posting>, p: Posting, i: nat)
    requires DocIDsIncreasing(previous)
    requires p in Concat(AsWritten, previous, current)
    requires i < |previous| && previous[i].docID == p.docID
    requires Increasing(previous[i].positions)
    ensures forall c :: c in p.positions <==> c in previous[i].positions && Follows(c, previous[i].positions)
    ensures Increasing(p.positions)
  {
    ConcatMembers(AsWritten, previous, current);
    var j :| 0 <= j < |current| && MergedFrom(AsWritten, previous, current[j], p);
    var ps := previous[i].positions;
    AdjacentIsFilter(ps, ps);
    FilterMembers(ps, ps);
    FilterIncreasing(ps, ps);
  }

  /** Corrected, the posting kept for a document holds exactly the current
      positions that directly follow a previous position, when the previous
      positions are strictly increasing. */
  lemma CorrectedPositions(previous: seq<Posting>, current: seq<Posting>, p: Posting, i: nat, j: nat)
    requires DocIDsIncreasing(previous) && DocIDsIncreasing(current)
    requires p in Concat(Corrected, previous, current)
    requires i < |previous| && previous[i].docID == p.docID
    requires j < |current| && current[j].docID == p.docID
    requires Increasing(previous[i].positions)
    ensures forall c :: c in p.positions <==> c in current[j].positions && Follows(c, previous[i].positions)
  {
    ConcatMembers(Corrected, previous, current);
    var j' :| 0 <= j' < |current| && MergedFrom(Corrected, previous, current[j'], p);
    assert j' == j;
    AdjacentIsFilter(current[j].positions, previous[i].positions);
    FilterMembers(current[j].positions, previous[i].positions);
  }

  /** The searcher's code misses the two-word phrase "the cat" in document 7
      where "the" is at position 4 and "cat" at position 5; the corrected merge
      finds it. */
  lemma AsWrittenMissesAdjacentTerms()
    ensures Concat(AsWritten, [Posting("the", 7, [4])], [Posting("cat", 7, [5])]) == []
    ensures Concat(Corrected, [Posting("the", 7, [4])], [Posting("cat", 7, [5])]) == [Posting("cat", 7, [5])]
  {
    var previous, current := [Posting("the", 7, [4])], [Posting("cat", 7, [5])];
    assert FindDoc(previous, 7) == Some(0);
    assert current[..0] == [];
    assert Adjacent([4], [4]) == [] by {
      assert [4][..0] == [];
    }
    assert Adjacent([5], [4]) == [5] by {
      assert [5][..0] == [];
    }
  }
}
