/**
  The position merge at the heart of concatPostings: for every candidate
  position c of an outer list, walk an inner list in order, append c each time
  it is exactly one past the inner element, and stop at the first inner
  element that is not below c.
 */
module Adjacency {
  import opened Postings

  /** c directly follows some position of inner. */
  predicate Follows(c: nat, inner: seq<nat>)
  {
    c > 0 && c - 1 in inner
  }

  /** What the inner walk appends for one candidate position c. */
  function Scan(c: nat, inner: seq<nat>): seq<nat>
  {
    if inner == [] then []
    else (if c == inner[0] + 1 then [c] else [])
         + (if c <= inner[0] then [] else Scan(c, inner[1..]))
  }

  /** What the two nested walks append, candidate by candidate. */
  function Adjacent(outer: seq<nat>, inner: seq<nat>): seq<nat>
  {
    if outer == [] then []
    else Adjacent(outer[..|outer| - 1], inner) + Scan(outer[|outer| - 1], inner)
  }

  /** Reference definition: the positions of outer, in order, that directly
      follow a position of inner. */
  function Filter(outer: seq<nat>, inner: seq<nat>): seq<nat>
  {
    if outer == [] then []
    else Filter(outer[..|outer| - 1], inner)
         + (if Follows(outer[|outer| - 1], inner) then [outer[|outer| - 1]] else [])
  }

  /** The walk never appends anything but c, and only when c follows an inner
      position, whatever the order of inner. */
  lemma {:induction false} ScanSound(c: nat, inner: seq<nat>)
    ensures forall x :: x in Scan(c, inner) ==> x == c && Follows(c, inner)
  {
    if inner != [] {
      ScanSound(c, inner[1..]);
      forall x | x in Scan(c, inner) ensures x == c && Follows(c, inner) {
        if c == inner[0] + 1 && x == c {
          assert inner[0] in inner;
        } else {
          assert x in Scan(c, inner[1..]);
          assert c - 1 in inner[1..];
          var k :| 0 <= k < |inner[1..]| && inner[1..][k] == c - 1;
          assert inner[k + 1] == c - 1;
        }
      }
    }
  }

  /** On a strictly increasing inner list the early exit loses nothing: the
      walk appends c exactly once when c follows an inner position and
      nothing otherwise. */
  lemma {:induction false} ScanIncreasing(c: nat, inner: seq<nat>)
    requires Increasing(inner)
    ensures Scan(c, inner) == if Follows(c, inner) then [c] else []
  {
    if inner != [] {
      var p, rest := inner[0], inner[1..];
      assert inner == [p] + rest;
      if c <= p {
        forall k | 0 <= k < |inner| ensures inner[k] != c - 1 {
          assert k > 0 ==> inner[0] < inner[k];
        }
      } else if c == p + 1 {
        assert inner[0] == c - 1;
        if rest != [] {
          assert p < rest[0];
        }
      } else {
        ScanIncreasing(c, rest);
        assert Follows(c, inner) <==> Follows(c, rest) by {
          if c - 1 in inner {
            var k :| 0 <= k < |inner| && inner[k] == c - 1;
            assert k > 0 && rest[k - 1] == c - 1;
          }
          if c - 1 in rest {
            var k :| 0 <= k < |rest| && rest[k] == c - 1;
            assert inner[k + 1] == c - 1;
          }
        }
      }
    }
  }

  /** Every merged position is an outer position that follows an inner one. */
  lemma {:induction false} AdjacentSound(outer: seq<nat>, inner: seq<nat>)
    ensures forall c :: c in Adjacent(outer, inner) ==> c in outer && Follows(c, inner)
  {
    if outer != [] {
      var front, last := outer[..|outer| - 1], outer[|outer| - 1];
      AdjacentSound(front, inner);
      ScanSound(last, inner);
      forall c | c in Adjacent(outer, inner) ensures c in outer && Follows(c, inner) {
        if c in Adjacent(front, inner) {
          var k :| 0 <= k < |front| && front[k] == c;
          assert outer[k] == c;
        } else {
          assert c in Scan(last, inner);
        }
      }
    }
  }

  /** With a strictly increasing inner list the nested walks compute the
      reference definition. */
  lemma {:induction false} AdjacentIsFilter(outer: seq<nat>, inner: seq<nat>)
    requires Increasing(inner)
    ensures Adjacent(outer, inner) == Filter(outer, inner)
  {
    if outer != [] {
      AdjacentIsFilter(outer[..|outer| - 1], inner);
      ScanIncreasing(outer[|outer| - 1], inner);
    }
  }

  /** The reference keeps exactly the outer positions that follow an inner
      position. */
  lemma {:induction false} FilterMembers(outer: seq<nat>, inner: seq<nat>)
    ensures forall c :: c in Filter(outer, inner) <==> c in outer && Follows(c, inner)
  {
    if outer != [] {
      var front, last := outer[..|outer| - 1], outer[|outer| - 1];
      FilterMembers(front, inner);
      assert outer == front + [last];
    }
  }

  /** The reference is an order-preserving selection, so it is strictly
      increasing when outer is. */
  lemma {:induction false} FilterIncreasing(outer: seq<nat>, inner: seq<nat>)
    requires Increasing(outer)
    ensures Increasing(Filter(outer, inner))
  {
    if outer != [] {
      var front, last := outer[..|outer| - 1], outer[|outer| - 1];
      FilterIncreasing(front, inner);
      FilterMembers(front, inner);
      var f := Filter(front, inner);
      forall i | 0 <= i < |f| ensures f[i] < last {
        assert f[i] in f;
        var k :| 0 <= k < |front| && front[k] == f[i];
        assert outer[k] == f[i];
      }
      var r := Filter(outer, inner);
      forall i, j | 0 <= i < j < |r| ensures r[i] < r[j] {
        if j < |f| {
          assert r[i] == f[i] && r[j] == f[j];
        } else {
          assert r[i] == f[i] && r[j] == last;
        }
      }
    }
  }

  /** One candidate more for the outer walk. */
  lemma AdjacentStep(outer: seq<nat>, inner: seq<nat>, x: nat)
    requires x < |outer|
    ensures Adjacent(outer[..x + 1], inner) == Adjacent(outer[..x], inner) + Scan(outer[x], inner)
  {
    assert outer[..x + 1][..x] == outer[..x];
  }

  /** One inner position more for the inner walk: it stops at an inner
      position not below c, appends c when c is one past it, and otherwise
      goes on. */
  lemma ScanStep(c: nat, inner: seq<nat>, y: nat)
    requires y < |inner|
    ensures c <= inner[y] ==> Scan(c, inner[y..]) == []
    ensures c == inner[y] + 1 ==> Scan(c, inner[y..]) == [c] + Scan(c, inner[y + 1..])
    ensures c > inner[y] + 1 ==> Scan(c, inner[y..]) == Scan(c, inner[y + 1..])
  {
    assert inner[y..][1..] == inner[y + 1..];
  }

  /**
    The nested loops of concatPostings: the outer loop over the candidate
    positions, the inner loop over the positions they are compared with,
    appending a candidate that is one past an inner position and leaving the
    inner loop at the first inner position not below the candidate.
   */
  method AdjacentPositions(outer: seq<nat>, inner: seq<nat>) returns (positions: seq<nat>)
    ensures positions == Adjacent(outer, inner)
  {
    positions := [];
    for x := 0 to |outer|
      invariant positions == Adjacent(outer[..x], inner)
    {
      var currPosition := outer[x];
      AdjacentStep(outer, inner, x);
      ghost var goal := positions + Scan(currPosition, inner);
      assert inner[0..] == inner;
      for y := 0 to |inner|
        invariant positions + Scan(currPosition, inner[y..]) == goal
      {
        var prevPosition := inner[y];
        ScanStep(currPosition, inner, y);
        if currPosition == prevPosition + 1 {
          assert positions + Scan(currPosition, inner[y..])
            == (positions + [currPosition]) + Scan(currPosition, inner[y + 1..]);
          positions := positions + [currPosition];
        }
        if currPosition <= prevPosition {
          break;
        }
      }
      assert inner[|inner|..] == [];
    }
    assert outer[..|outer|] == outer;
  }
}
