/**
  Postings and posting lists, and the lookup of a document in a posting list
  sorted by document identifier (the JDK's Collections.binarySearch, as the
  searcher calls it with a comparator on docID).
 */
module Postings {
  import opened Wrappers

  /** One term's occurrences in one document: the token, the document and the
      token offsets at which the term occurs there. */
  datatype Posting = Posting(term: string, docID: nat, positions: seq<nat>)
  {
    /** The number of occurrences recorded in this posting. */
    function TermFrequency(): nat
    {
      |positions|
    }
  }

  /** Strictly increasing: sorted and duplicate-free. */
  predicate Increasing(s: seq<nat>)
  {
    forall i, j :: 0 <= i < j < |s| ==> s[i] < s[j]
  }

  /** Sorted by docID, as Collections.binarySearch needs. */
  predicate SortedByDocID(list: seq<Posting>)
  {
    forall i, j :: 0 <= i < j < |list| ==> list[i].docID <= list[j].docID
  }

  /** Sorted by docID with one posting per document, as an index keeps them. */
  predicate DocIDsIncreasing(list: seq<Posting>)
  {
    forall i, j :: 0 <= i < j < |list| ==> list[i].docID < list[j].docID
  }

  /** The documents of a posting list, in list order. */
  function DocIDs(list: seq<Posting>): seq<nat>
  {
    seq(|list|, k requires 0 <= k < |list| => list[k].docID)
  }

  /** The index of the first posting for document d, if there is one. */
  function FindDoc(list: seq<Posting>, d: nat): (r: Option<nat>)
    ensures r.Some? ==> r.value < |list| && list[r.value].docID == d
    ensures r.Some? ==> forall k :: 0 <= k < r.value ==> list[k].docID != d
    ensures r.None? ==> forall k :: 0 <= k < |list| ==> list[k].docID != d
  {
    if list == [] then None
    else if list[0].docID == d then Some(0)
    else match FindDoc(list[1..], d)
      case None => None
      case Some(i) => Some(i + 1)
  }

  /** In a list with one posting per document, the posting for d is the only
      one carrying d. */
  lemma FindDocUnique(list: seq<Posting>, i: nat)
    requires DocIDsIncreasing(list) && i < |list|
    ensures FindDoc(list, list[i].docID) == Some(i)
  {
  }

  /**
    Collections.binarySearch over a list sorted by docID, comparing docIDs:
    the index of a posting for docID when there is one, and otherwise
    -(insertion point + 1), where the insertion point separates the smaller
    docIDs from the larger ones.
   */
  method BinarySearch(list: seq<Posting>, docID: nat) returns (pos: int)
    requires SortedByDocID(list)
    ensures 0 <= pos ==> pos < |list| && list[pos].docID == docID
    ensures pos < 0 ==> -(pos + 1) <= |list|
    ensures pos < 0 ==> forall k :: 0 <= k < -(pos + 1) ==> list[k].docID < docID
    ensures pos < 0 ==> forall k :: -(pos + 1) <= k < |list| ==> docID < list[k].docID
  {
    var low, high := 0, |list| - 1;
    while low <= high
      invariant 0 <= low <= high + 1 <= |list|
      invariant forall k :: 0 <= k < low ==> list[k].docID < docID
      invariant forall k :: high < k < |list| ==> docID < list[k].docID
    {
      var mid := (low + high) / 2;
      if list[mid].docID < docID {
        low := mid + 1;
      } else if list[mid].docID > docID {
        high := mid - 1;
      } else {
        return mid;
      }
    }
    pos := -(low + 1);
  }

  /** A strictly increasing sequence whose elements all occur in another
      strictly increasing sequence is no longer than it. */
  lemma {:induction false} IncreasingWithin(a: seq<nat>, b: seq<nat>)
    requires Increasing(a) && Increasing(b)
    requires forall x :: x in a ==> x in b
    ensures |a| <= |b|
  {
    if a != [] {
      var last := a[|a| - 1];
      assert last in a;
      var j :| 0 <= j < |b| && b[j] == last;
      var a', b' := a[..|a| - 1], b[..j];
      forall x | x in a' ensures x in b' {
        var k :| 0 <= k < |a'| && a'[k] == x;
        assert a[k] == x && x < last && x in a;
        var m :| 0 <= m < |b| && b[m] == x;
        assert m < j;
        assert b'[m] == x;
      }
      IncreasingWithin(a', b');
    }
  }
}
