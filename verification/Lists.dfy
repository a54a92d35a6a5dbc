/** Sequences as sets, and sequences without duplicates. */
module Lists {

  ghost predicate NoDup<T>(s: seq<T>) {
    forall i, k :: 0 <= i < k < |s| ==> s[i] != s[k]
  }

  lemma {:induction false} NoDupCounts<T>(s: seq<T>, x: T)
    requires NoDup(s)
    ensures multiset(s)[x] == if x in s then 1 else 0
    decreases |s|
  {
    if s != [] {
      assert s == [s[0]] + s[1..];
      NoDupCounts(s[1..], x);
    }
  }

  lemma SameElements<T>(p: seq<T>, q: seq<T>)
    requires NoDup(p) && NoDup(q) && forall x :: x in p <==> x in q
    ensures multiset(p) == multiset(q)
  {
    forall x: T ensures multiset(p)[x] == multiset(q)[x] {
      NoDupCounts(p, x);
      NoDupCounts(q, x);
    }
  }

  ghost function Elements<T>(s: seq<T>): set<T> { set x | x in s }

  lemma {:induction false} ElementsCount<T>(s: seq<T>)
    ensures |Elements(s)| <= |s|
    ensures NoDup(s) <==> |Elements(s)| == |s|
    decreases |s|
  {
    if s != [] {
      var x, rest := s[0], s[1..];
      ElementsCount(rest);
      assert Elements(s) == {x} + Elements(rest);
      if x in rest {
        assert Elements(s) == Elements(rest);
        var k :| 0 <= k < |rest| && rest[k] == x;
        assert s[k + 1] == s[0];
      } else {
        assert |Elements(s)| == 1 + |Elements(rest)|;
        NoDupCons(s);
      }
    }
  }

  lemma NoDupCons<T>(s: seq<T>)
    requires s != [] && s[0] !in s[1..]
    ensures NoDup(s) <==> NoDup(s[1..])
  {
    if NoDup(s[1..]) {
      forall i, k | 0 <= i < k < |s| ensures s[i] != s[k] {
        assert s[k] == s[1..][k - 1];
        if i > 0 {
          assert s[i] == s[1..][i - 1];
        }
      }
    }
  }
}
