/**
  query.split(" "): Java's String.split with a one-space pattern and no
  limit. The query is cut at every space; trailing empty strings are dropped;
  a query without any space comes back whole, as the only term.
 */
module QuerySplit {

  /** Every space-separated field, empty ones included. */
  function Fields(s: string): (r: seq<string>)
    ensures |r| >= 1
  {
    if s == [] then [[]]
    else
      var rest := Fields(s[1..]);
      if s[0] == ' ' then [[]] + rest else [[s[0]] + rest[0]] + rest[1..]
  }

  /** The fields put back together with one space between neighbours. */
  function Join(fields: seq<string>): string
    requires |fields| >= 1
  {
    if |fields| == 1 then fields[0] else fields[0] + " " + Join(fields[1..])
  }

  function DropTrailingEmpty(r: seq<string>): seq<string>
  {
    if r != [] && r[|r| - 1] == [] then DropTrailingEmpty(r[..|r| - 1]) else r
  }

  function Split(s: string): seq<string>
  {
    if ' ' !in s then [s] else DropTrailingEmpty(Fields(s))
  }

  predicate AllSpaces(s: string)
  {
    forall i :: 0 <= i < |s| ==> s[i] == ' '
  }

  lemma JoinSpace(fields: seq<string>)
    requires |fields| >= 1
    ensures Join([[]] + fields) == " " + Join(fields)
  {
    assert ([[]] + fields)[1..] == fields;
  }

  lemma JoinPrepend(c: char, fields: seq<string>)
    requires |fields| >= 1
    ensures Join([[c] + fields[0]] + fields[1..]) == [c] + Join(fields)
  {
    if |fields| > 1 {
      assert ([[c] + fields[0]] + fields[1..])[1..] == fields[1..];
    }
  }

  /** Cutting at the spaces loses nothing: joining the fields gives back the
      query. */
  lemma {:induction false} JoinFields(s: string)
    ensures Join(Fields(s)) == s
  {
    if s != [] {
      var rest := Fields(s[1..]);
      JoinFields(s[1..]);
      assert s == [s[0]] + s[1..];
      if s[0] == ' ' {
        JoinSpace(rest);
      } else {
        JoinPrepend(s[0], rest);
      }
    }
  }

  /** No field contains a space. */
  lemma {:induction false} FieldsHaveNoSpace(s: string)
    ensures forall f :: f in Fields(s) ==> ' ' !in f
  {
    if s != [] {
      var rest := Fields(s[1..]);
      FieldsHaveNoSpace(s[1..]);
      if s[0] != ' ' {
        assert rest[0] in rest;
        forall f | f in Fields(s) ensures ' ' !in f {
          if f != [s[0]] + rest[0] {
            assert f in rest[1..];
          }
        }
      }
    }
  }

  /** The fields are all empty exactly when the query is nothing but spaces. */
  lemma {:induction false} FieldsAllEmpty(s: string)
    ensures (forall k :: 0 <= k < |Fields(s)| ==> Fields(s)[k] == []) <==> AllSpaces(s)
  {
    if s != [] {
      var rest := Fields(s[1..]);
      FieldsAllEmpty(s[1..]);
      if s[0] == ' ' {
        assert Fields(s) == [[]] + rest;
        assert (forall k :: 0 <= k < |Fields(s)| ==> Fields(s)[k] == [])
          <==> (forall k :: 0 <= k < |rest| ==> rest[k] == []) by {
          assert forall k :: 0 <= k < |rest| ==> rest[k] == Fields(s)[k + 1];
        }
        if AllSpaces(s[1..]) {
          forall i | 0 <= i < |s| ensures s[i] == ' ' {
            if i > 0 { assert s[i] == s[1..][i - 1]; }
          }
        }
        if AllSpaces(s) {
          forall i | 0 <= i < |s[1..]| ensures s[1..][i] == ' ' {
            assert s[1..][i] == s[i + 1];
          }
        }
      } else {
        assert Fields(s)[0] != [];
      }
    }
  }

  /** Dropping trailing empty strings keeps a prefix, removes only empty
      strings, and leaves a last term that is not empty. */
  lemma {:induction false} DropTrailingEmptyShape(r: seq<string>)
    ensures |DropTrailingEmpty(r)| <= |r|
    ensures DropTrailingEmpty(r) == r[..|DropTrailingEmpty(r)|]
    ensures forall k :: |DropTrailingEmpty(r)| <= k < |r| ==> r[k] == []
    ensures DropTrailingEmpty(r) != [] ==> DropTrailingEmpty(r)[|DropTrailingEmpty(r)| - 1] != []
  {
    if r != [] && r[|r| - 1] == [] {
      DropTrailingEmptyShape(r[..|r| - 1]);
    }
  }

  /** A query without a space is its own single term. Otherwise the terms are
      the query's fields up to the last non-empty one: the fields dropped
      after them are empty and the last term kept is not. No term contains a
      space. */
  lemma SplitShape(s: string)
    ensures ' ' !in s ==> Split(s) == [s]
    ensures ' ' in s ==> |Split(s)| <= |Fields(s)|
    ensures ' ' in s ==> Split(s) == Fields(s)[..|Split(s)|]
    ensures ' ' in s ==> forall k :: |Split(s)| <= k < |Fields(s)| ==> Fields(s)[k] == []
    ensures ' ' in s && Split(s) != [] ==> Split(s)[|Split(s)| - 1] != []
    ensures forall t :: t in Split(s) ==> ' ' !in t
  {
    DropTrailingEmptyShape(Fields(s));
    FieldsHaveNoSpace(s);
    if ' ' in s {
      forall t | t in Split(s) ensures ' ' !in t {
        var k :| 0 <= k < |Split(s)| && Split(s)[k] == t;
        assert Fields(s)[k] == t;
      }
    }
  }

  /** A query splits into no terms exactly when it is one or more spaces and
      nothing else; the empty query is a single empty term. */
  lemma SplitEmpty(s: string)
    ensures Split(s) == [] <==> s != [] && AllSpaces(s)
    ensures Split([]) == [[]]
  {
    DropTrailingEmptyShape(Fields(s));
    FieldsAllEmpty(s);
    if s != [] && AllSpaces(s) {
      assert s[0] in s;
      assert DropTrailingEmpty(Fields(s)) == [];
    }
    if Split(s) == [] {
      assert ' ' in s;
      assert forall k :: 0 <= k < |Fields(s)| ==> Fields(s)[k] == [];
    }
  }
}
