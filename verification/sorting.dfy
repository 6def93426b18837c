/** `Collections.sort(logFiles, (o1, o2) -> o1.getName().compareTo(o2.getName()))`
    as an insertion sort of names. */
module Sorting {
  import opened Text

  /** Ascending in `String.compareTo` order. */
  predicate Sorted(s: seq<string>) {
    forall i, j :: 0 <= i < j < |s| ==> LexLe(s[i], s[j])
  }

  /** Places `x` after every element smaller than it. */
  function Insert(x: string, s: seq<string>): (r: seq<string>)
    requires Sorted(s)
    ensures Sorted(r)
    ensures multiset(r) == multiset(s) + multiset{x}
  {
    if |s| == 0 then [x]
    else if LexLe(x, s[0]) then
      InsertInFront(x, s);
      [x] + s
    else
      var rest := Insert(x, s[1..]);
      InsertBehind(x, s, rest);
      [s[0]] + rest
  }

  /** A name no later than the head of a sorted sequence may go in front. */
  lemma InsertInFront(x: string, s: seq<string>)
    requires Sorted(s) && |s| > 0 && LexLe(x, s[0])
    ensures Sorted([x] + s)
  {
    forall j | 0 <= j < |s|
      ensures LexLe(x, s[j])
    {
      LexLeTransitive(x, s[0], s[j]);
    }
  }

  /** A name later than the head goes behind it, into the sorted rest. */
  lemma InsertBehind(x: string, s: seq<string>, rest: seq<string>)
    requires Sorted(s) && |s| > 0 && !LexLe(x, s[0])
    requires Sorted(rest) && multiset(rest) == multiset(s[1..]) + multiset{x}
    ensures Sorted([s[0]] + rest)
    ensures multiset([s[0]] + rest) == multiset(s) + multiset{x}
  {
    assert s == [s[0]] + s[1..];
    assert LexLe(s[0], x) by {
      NotLessIsLe(s[0], x);
      NotLessIsLe(x, s[0]);
      LexLessTotal(x, s[0]);
    }
    forall j | 0 <= j < |rest|
      ensures LexLe(s[0], rest[j])
    {
      assert rest[j] in multiset(rest);
      if rest[j] != x {
        assert rest[j] in multiset(s[1..]);
        var k :| 1 <= k < |s| && s[k] == rest[j];
      }
    }
  }

  /** The names of `s` in ascending order. */
  function SortNames(s: seq<string>): (r: seq<string>)
    ensures Sorted(r)
    ensures multiset(r) == multiset(s)
  {
    if |s| == 0 then []
    else
      assert s == [s[0]] + s[1..];
      Insert(s[0], SortNames(s[1..]))
  }
}
