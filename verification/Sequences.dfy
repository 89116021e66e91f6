/** Facts about finite sequences, sets and multisets that several modules share. */
module Sequences {

  ghost predicate NoDup<T(!new)>(s: seq<T>) {
    forall i, j :: 0 <= i < j < |s| ==> s[i] != s[j]
  }

  ghost function Elements<T>(s: seq<T>): set<T> {
    set x | x in s
  }

  lemma ElementsOfAppend<T>(s: seq<T>, x: T)
    ensures Elements(s + [x]) == Elements(s) + {x}
  {
    assert forall y :: y in s + [x] <==> y in s || y == x;
  }

  lemma TailOf<T>(a: seq<T>, b: seq<T>)
    ensures (a + b)[|a|..] == b
  {
  }

  lemma PrefixGrows<T>(a: seq<T>, b: seq<T>, c: seq<T>)
    requires a <= b
    ensures a <= b + c
  {
  }

  /** A sequence has at least as many positions as elements, and exactly as many when nothing repeats. */
  lemma {:induction false} CardinalityOfElements<T(!new)>(s: seq<T>)
    ensures |Elements(s)| <= |s|
    ensures |Elements(s)| == |s| <==> NoDup(s)
  {
    if s == [] {
      assert Elements(s) == {};
    } else {
      var init, x := s[..|s| - 1], s[|s| - 1];
      assert s == init + [x];
      CardinalityOfElements(init);
      ElementsOfAppend(init, x);
      if x in init {
        assert Elements(s) == Elements(init);
        var i :| 0 <= i < |init| && init[i] == x;
        assert s[i] == s[|s| - 1];
      } else {
        assert |Elements(s)| == |Elements(init)| + 1;
        if NoDup(init) {
          assert forall i, j :: 0 <= i < j < |s| ==> s[i] != s[j];
        } else {
          var i, j :| 0 <= i < j < |init| && init[i] == init[j];
          assert s[i] == s[j];
        }
      }
    }
  }

  /** A duplicate-free sequence is covered, as a multiset, by every sequence that has its elements. */
  lemma {:induction false} NoDupMultiset<T(!new)>(d: seq<T>, s: seq<T>)
    requires NoDup(d) && Elements(d) <= Elements(s)
    ensures multiset(d) <= multiset(s)
  {
    forall x | x in multiset(d)
      ensures multiset(d)[x] <= multiset(s)[x]
    {
      NoDupCount(d, x);
      assert x in d;
      assert x in Elements(d);
      assert x in s;
    }
  }

  lemma {:induction false} NoDupCount<T(!new)>(d: seq<T>, x: T)
    requires NoDup(d)
    ensures multiset(d)[x] == if x in d then 1 else 0
  {
    if d != [] {
      var init := d[..|d| - 1];
      assert d == init + [d[|d| - 1]];
      NoDupCount(init, x);
    }
  }

  lemma CountsNoDup<T(!new)>(d: seq<T>)
    requires forall k :: multiset(d)[k] <= 1
    ensures NoDup(d)
  {
    forall i, j | 0 <= i < j < |d|
      ensures d[i] != d[j]
    {
      assert d == d[..j] + d[j..];
      assert multiset(d) == multiset(d[..j]) + multiset(d[j..]);
      assert d[..j][i] in multiset(d[..j]) && d[j..][0] in multiset(d[j..]);
      assert multiset(d)[d[j]] <= 1;
    }
  }

  lemma NoDupAppend<T(!new)>(s: seq<T>, x: T)
    requires NoDup(s) && x !in s
    ensures NoDup(s + [x])
  {
  }

  /** Removing one position of a sequence removes one occurrence. */
  lemma MultisetWithout<T>(s: seq<T>, i: nat)
    requires i < |s|
    ensures multiset(s[..i] + s[i + 1..]) == multiset(s) - multiset{s[i]}
  {
    assert s == s[..i] + [s[i]] + s[i + 1..];
  }
}
