/** Scoring the surviving postings and sorting the results by decreasing
    score. */
module Ranking {
  import opened Postings
  import opened Indexing

  /** A document and its score. Scores are compared as reals; ScoredTextDocument's
      natural order is taken to be the order of its score. */
  datatype ScoredTextDocument = ScoredTextDocument(docID: nat, score: real)

  /**
    The tf-idf weighting, left uninterpreted: given the number of documents in
    the index, the number of documents that matched, the document's module and
    the number of occurrences in it, the score of the document.
   */
  type Weighting = (nat, nat, real, nat) -> real

  /** The results in posting-list order, before sorting: one per posting. */
  function Scores(ix: Index, finalPostings: seq<Posting>, weight: Weighting): seq<ScoredTextDocument>
  {
    seq(|finalPostings|, k requires 0 <= k < |finalPostings| =>
      ScoredTextDocument(finalPostings[k].docID,
        weight(|ix.docIds|, |finalPostings|, ix.docModule(finalPostings[k].docID), finalPostings[k].TermFrequency())))
  }

  /** The documents of a result list, in order. */
  function ResultDocIDs(results: seq<ScoredTextDocument>): seq<nat>
  {
    seq(|results|, k requires 0 <= k < |results| => results[k].docID)
  }

  predicate SortedByScoreDesc(s: seq<ScoredTextDocument>)
  {
    forall i, j :: 0 <= i < j < |s| ==> s[i].score >= s[j].score
  }

  lemma ResultDocIDsAppend(a: seq<ScoredTextDocument>, b: seq<ScoredTextDocument>)
    ensures ResultDocIDs(a + b) == ResultDocIDs(a) + ResultDocIDs(b)
  {
  }

  /** Cutting one element out of a sequence takes it out of its multiset. */
  lemma MultisetRemoveAt<T>(b: seq<T>, j: nat)
    requires j < |b|
    ensures multiset(b[..j] + b[j + 1..]) == multiset(b) - multiset{b[j]}
  {
    assert b == b[..j] + [b[j]] + b[j + 1..];
  }

  lemma MultisetTail<T>(a: seq<T>)
    requires a != []
    ensures multiset(a[1..]) == multiset(a) - multiset{a[0]}
  {
    assert a == [a[0]] + a[1..];
  }

  lemma IndexOf<T>(x: T, b: seq<T>) returns (j: nat)
    requires x in multiset(b)
    ensures j < |b| && b[j] == x
  {
    j :| 0 <= j < |b| && b[j] == x;
  }

  /** Taking one element out of two permutations of each other leaves
      permutations of each other. */
  lemma RemoveMatching<T>(a: seq<T>, b: seq<T>) returns (j: nat)
    requires multiset(a) == multiset(b) && a != []
    ensures j < |b| && b[j] == a[0]
    ensures multiset(a[1..]) == multiset(b[..j] + b[j + 1..])
  {
    MultisetTail(a);
    j := IndexOf(a[0], b);
    MultisetRemoveAt(b, j);
  }

  lemma DocIDsRemoveAt(b: seq<ScoredTextDocument>, j: nat)
    requires j < |b|
    ensures multiset(ResultDocIDs(b)) == multiset(ResultDocIDs(b[..j] + b[j + 1..])) + multiset{b[j].docID}
  {
    ResultDocIDsAppend(b[..j], b[j + 1..]);
    ResultDocIDsAppend(b[..j], b[j..]);
    assert b == b[..j] + b[j..];
    assert ResultDocIDs(b[j..]) == [b[j].docID] + ResultDocIDs(b[j + 1..]);
  }

  /** Reordering results reorders their documents alike: a permutation of the
      results has the same documents, as many times each. */
  lemma {:induction false} PermutationKeepsDocIDs(a: seq<ScoredTextDocument>, b: seq<ScoredTextDocument>)
    requires multiset(a) == multiset(b)
    ensures multiset(ResultDocIDs(a)) == multiset(ResultDocIDs(b))
  {
    if a == [] {
      assert |b| == |multiset(b)| == 0;
    } else {
      var j := RemoveMatching(a, b);
      PermutationKeepsDocIDs(a[1..], b[..j] + b[j + 1..]);
      DocIDsRemoveAt(a, 0);
      assert a[..0] + a[1..] == a[1..];
      DocIDsRemoveAt(b, j);
    }
  }

  /** The scored list has one entry per posting, for the same documents in the
      same order. */
  lemma ScoresDocIDs(ix: Index, finalPostings: seq<Posting>, weight: Weighting)
    ensures ResultDocIDs(Scores(ix, finalPostings, weight)) == DocIDs(finalPostings)
  {
  }

  /** The results with the neighbours at j - 1 and j exchanged. */
  function Swapped(s: seq<ScoredTextDocument>, j: nat): (r: seq<ScoredTextDocument>)
    requires 0 < j < |s|
    ensures |r| == |s| && r[j - 1] == s[j] && r[j] == s[j - 1]
    ensures forall k :: 0 <= k < |s| && k != j - 1 && k != j ==> r[k] == s[k]
    ensures multiset(r) == multiset(s)
  {
    s[j - 1 := s[j]][j := s[j - 1]]
  }

  /** Exchanges the neighbours at j - 1 and j. */
  method SwapDown(a: array<ScoredTextDocument>, j: nat)
    requires 0 < j < a.Length
    modifies a
    ensures a[..] == Swapped(old(a[..]), j)
  {
    a[j - 1], a[j] := a[j], a[j - 1];
  }

  /**
    The state of one insertion step over the first i + 1 results of orig,
    with the moving result now at j: the others among the first i + 1 are in
    decreasing order, the moving one beats every result after it, its two
    neighbours are in order, nothing after i has moved, and the results are
    a permutation of orig.
   */
  ghost predicate Sifting(s: seq<ScoredTextDocument>, orig: seq<ScoredTextDocument>, i: nat, j: nat)
  {
    |s| == |orig| && j <= i < |s|
    && (forall p, q :: 0 <= p < q <= i && p != j && q != j ==> s[p].score >= s[q].score)
    && (forall q :: j < q <= i ==> s[j].score > s[q].score)
    && (0 < j < i ==> s[j - 1].score >= s[j + 1].score)
    && s[i + 1..] == orig[i + 1..]
    && multiset(s) == multiset(orig)
  }

  /** Before the step, a sorted prefix of i results is in the step's state. */
  lemma SiftingStart(s: seq<ScoredTextDocument>, i: nat)
    requires i < |s| && SortedByScoreDesc(s[..i])
    ensures Sifting(s, s, i, i)
  {
    assert forall p :: 0 <= p < i ==> s[p] == s[..i][p];
  }

  /** Moving the result one place left, past a smaller score, keeps the step's state. */
  lemma SiftingStep(s: seq<ScoredTextDocument>, orig: seq<ScoredTextDocument>, i: nat, j: nat)
    requires Sifting(s, orig, i, j) && 0 < j && s[j - 1].score < s[j].score
    ensures Sifting(Swapped(s, j), orig, i, j - 1)
  {
    var t := Swapped(s, j);
    assert t[i + 1..] == s[i + 1..];
  }

  /** Once the result meets a score at least its own, the first i + 1 are
      sorted and a permutation of the original first i + 1. */
  lemma SiftingDone(s: seq<ScoredTextDocument>, orig: seq<ScoredTextDocument>, i: nat, j: nat)
    requires Sifting(s, orig, i, j) && (j == 0 || s[j - 1].score >= s[j].score)
    ensures SortedByScoreDesc(s[..i + 1])
    ensures multiset(s[..i + 1]) == multiset(orig[..i + 1])
  {
    PrefixPermutation(orig, s, i + 1);
  }

  /** One insertion step: moves a[i] left past the results of smaller score,
      so that the first i + 1 results are sorted and a permutation of what
      they were; the results after i stay where they are. */
  method InsertLeft(a: array<ScoredTextDocument>, i: nat)
    requires i < a.Length && SortedByScoreDesc(a[..i])
    modifies a
    ensures SortedByScoreDesc(a[..i + 1])
    ensures multiset(a[..i + 1]) == multiset(old(a[..i + 1]))
    ensures a[i + 1..] == old(a[i + 1..])
    ensures multiset(a[..]) == multiset(old(a[..]))
  {
    var j: nat := i;
    SiftingStart(a[..], i);
    while j > 0 && a[j - 1].score < a[j].score
      invariant Sifting(a[..], old(a[..]), i, j)
    {
      SiftingStep(a[..], old(a[..]), i, j);
      SwapDown(a, j);
      j := j - 1;
    }
    SiftingDone(a[..], old(a[..]), i, j);
  }

  /** Two permutations of each other that agree from k on are permutations of
      each other up to k. */
  lemma PrefixPermutation<T>(s: seq<T>, t: seq<T>, k: nat)
    requires |s| == |t| && k <= |s| && multiset(s) == multiset(t) && s[k..] == t[k..]
    ensures multiset(s[..k]) == multiset(t[..k])
  {
    assert s == s[..k] + s[k..];
    assert t == t[..k] + t[k..];
    assert multiset(s) == multiset(s[..k]) + multiset(s[k..]);
    assert multiset(t) == multiset(t[..k]) + multiset(t[k..]);
    forall x: T
      ensures multiset(s[..k])[x] == multiset(t[..k])[x]
    {
      assert multiset(s)[x] == multiset(s[..k])[x] + multiset(s[k..])[x];
      assert multiset(t)[x] == multiset(t[..k])[x] + multiset(t[k..])[x];
    }
  }

  /**
    Collections.sort(resultList, Collections.reverseOrder()) on the list's
    array: an insertion sort that moves each result left past the results of
    smaller score.
   */
  method SortByScoreDesc(a: array<ScoredTextDocument>)
    modifies a
    ensures SortedByScoreDesc(a[..])
    ensures multiset(a[..]) == multiset(old(a[..]))
  {
    for i := 0 to a.Length
      invariant SortedByScoreDesc(a[..i])
      invariant multiset(a[..]) == multiset(old(a[..]))
    {
      InsertLeft(a, i);
    }
    assert a[..a.Length] == a[..];
  }
}
