/** Small facts about sequences shared by the backend and frontend models. */
module Seqs {
  import opened Wrappers

  /** No element occurs twice. */
  predicate NoDuplicates<T(==)>(s: seq<T>) {
    forall i, j :: 0 <= i < j < |s| ==> s[i] != s[j]
  }

  function Max(a: int, b: int): int {
    if a >= b then a else b
  }

  /** Removing the element at one position keeps every other element, in order. */
  function RemoveAt<T>(s: seq<T>, i: nat): (r: seq<T>)
    requires i < |s|
    ensures |r| == |s| - 1
    ensures multiset(r) == multiset(s) - multiset{s[i]}
  {
    assert s == s[..i] + [s[i]] + s[i + 1..];
    s[..i] + s[i + 1..]
  }

  lemma MultisetHeadTail<T>(s: seq<T>)
    requires s != []
    ensures multiset(s) == multiset(s[1..]) + multiset{s[0]}
  {
    assert s == [s[0]] + s[1..];
  }

  lemma NoDuplicatesAppend<T>(s: seq<T>, x: T)
    requires NoDuplicates(s) && x !in s
    ensures NoDuplicates(s + [x])
  {
  }

  /** Removing one position keeps every element that differs from the removed one. */
  lemma RemoveAtKeeps<T>(s: seq<T>, i: nat)
    requires i < |s|
    ensures forall x :: x in s && x != s[i] ==> x in RemoveAt(s, i)
  {
    var r := RemoveAt(s, i);
    forall x | x in s && x != s[i] ensures x in r {
      var k :| 0 <= k < |s| && s[k] == x;
      if k < i { assert r[k] == x; } else { assert r[k - 1] == x; }
    }
  }

  /** Removing one position introduces nothing new. */
  lemma RemoveAtSubset<T>(s: seq<T>, i: nat)
    requires i < |s|
    ensures forall x :: x in RemoveAt(s, i) ==> x in s
  {
    forall x | x in RemoveAt(s, i) ensures x in s {
      assert x in multiset(RemoveAt(s, i));
    }
  }

  lemma NoDuplicatesRemoveAt<T>(s: seq<T>, i: nat)
    requires NoDuplicates(s) && i < |s|
    ensures NoDuplicates(RemoveAt(s, i))
    ensures s[i] !in RemoveAt(s, i)
  {
    var r := RemoveAt(s, i);
    forall k | 0 <= k < |r| ensures r[k] != s[i] {
      if k < i { assert r[k] == s[k]; } else { assert r[k] == s[k + 1]; }
    }
  }

  /** The first position holding x, if any (list.index / Mongo's delete_one picks the first match). */
  function IndexOf<T(==)>(s: seq<T>, x: T): (r: Option<nat>)
    ensures r.Some? ==> r.value < |s| && s[r.value] == x && forall k :: 0 <= k < r.value ==> s[k] != x
    ensures r.None? <==> x !in s
  {
    if s == [] then None
    else if s[0] == x then Some(0)
    else
      match IndexOf(s[1..], x)
      case None => assert s == [s[0]] + s[1..]; None
      case Some(i) => Some(i + 1)
  }

  /** A sequence repeats nothing exactly when every element occurs in its multiset at most once. */
  lemma {:induction false} NoDuplicatesMultiset<T>(s: seq<T>)
    ensures NoDuplicates(s) <==> forall x :: multiset(s)[x] <= 1
  {
    if s != [] {
      var t := s[1..];
      NoDuplicatesMultiset(t);
      assert s == [s[0]] + t;
      assert multiset(s) == multiset{s[0]} + multiset(t);
      if NoDuplicates(s) {
        assert NoDuplicates(t) by {
          forall i, j | 0 <= i < j < |t| ensures t[i] != t[j] {
            assert t[i] == s[i + 1] && t[j] == s[j + 1];
          }
        }
        assert s[0] !in t;
      } else {
        var i, j :| 0 <= i < j < |s| && s[i] == s[j];
        if i == 0 {
          assert s[0] in t by { assert t[j - 1] == s[j]; }
          assert multiset(s)[s[0]] >= 2;
        } else {
          assert t[i - 1] == t[j - 1];
          assert !NoDuplicates(t);
          var x :| multiset(t)[x] > 1;
          assert multiset(s)[x] > 1;
        }
      }
    }
  }

  /** A sequence without repeats has as many elements as the set of its elements. */
  lemma {:induction false} DistinctCardinality<T>(s: seq<T>)
    requires NoDuplicates(s)
    ensures |set x | x in s| == |s|
  {
    if s != [] {
      var tail := s[1..];
      assert NoDuplicates(tail) by {
        forall i, j | 0 <= i < j < |tail| ensures tail[i] != tail[j] {
          assert tail[i] == s[i + 1] && tail[j] == s[j + 1];
        }
      }
      DistinctCardinality(tail);
      var whole := set x | x in s;
      var rest := set x | x in tail;
      assert whole == rest + {s[0]} by {
        forall x ensures x in whole <==> x in rest + {s[0]} {
          assert x in s <==> x == s[0] || x in tail;
        }
      }
      assert s[0] !in rest;
      assert |whole| == |rest| + 1;
    }
  }

  /** Reordering keeps a sequence free of repeats. */
  lemma NoDuplicatesPermutation<T>(a: seq<T>, b: seq<T>)
    requires NoDuplicates(a) && multiset(a) == multiset(b)
    ensures NoDuplicates(b)
  {
    NoDuplicatesMultiset(a);
    NoDuplicatesMultiset(b);
  }
}
