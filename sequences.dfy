/** Sequence operations that JavaScript arrays and strings provide built in:
    `indexOf`, `splice(i, 1)`, and the "remove the first occurrence" that
    both `splice` at `indexOf` and `String.prototype.replace` with a string
    pattern and an empty replacement perform. */
module Sequences {

  /** No element occurs twice. */
  predicate NoDuplicates<T(==)>(s: seq<T>)
  {
    forall i, j :: 0 <= i < j < |s| ==> s[i] != s[j]
  }

  /** `indexOf`: the position of the first element equal to `x`, or -1. */
  function IndexOf<T(==)>(s: seq<T>, x: T): (r: int)
    ensures -1 <= r < |s|
    ensures r == -1 <==> x !in s
    ensures 0 <= r ==> s[r] == x && x !in s[..r]
  {
    if s == [] then -1
    else if s[0] == x then 0
    else
      var k := IndexOf(s[1..], x);
      if k == -1 then -1
      else
        assert s[..k + 1] == [s[0]] + s[1..][..k];
        k + 1
  }

  /** `splice(i, 1)`: the sequence with position `i` taken out, everything
      before it in place and everything after it moved down by one. */
  function DeleteAt<T>(s: seq<T>, i: nat): (r: seq<T>)
    requires i < |s|
    ensures |r| == |s| - 1
    ensures forall k :: 0 <= k < i ==> r[k] == s[k]
    ensures forall k :: i <= k < |r| ==> r[k] == s[k + 1]
  {
    s[..i] + s[i + 1..]
  }

  /** Reference definition of "remove the first occurrence of `x`",
      stated element by element from the front. */
  function RemoveFirst<T(==)>(s: seq<T>, x: T): seq<T>
  {
    if s == [] then []
    else if s[0] == x then s[1..]
    else [s[0]] + RemoveFirst(s[1..], x)
  }

  /** Deleting at the position `indexOf` finds is removing the first occurrence. */
  lemma {:induction false} DeleteAtIndexOf<T>(s: seq<T>, x: T)
    requires x in s
    ensures DeleteAt(s, IndexOf(s, x)) == RemoveFirst(s, x)
  {
    if s[0] != x {
      DeleteAtIndexOf(s[1..], x);
      var k := IndexOf(s[1..], x);
      assert DeleteAt(s, k + 1) == [s[0]] + DeleteAt(s[1..], k);
    }
  }

  /** The first occurrence is the one after a prefix that does not contain `x`. */
  lemma {:induction false} RemoveFirstAfterPrefix<T>(a: seq<T>, x: T, b: seq<T>)
    requires x !in a
    ensures RemoveFirst(a + [x] + b, x) == a + b
  {
    if a != [] {
      assert (a + [x] + b)[1..] == a[1..] + [x] + b;
      assert x !in a[1..];
      RemoveFirstAfterPrefix(a[1..], x, b);
      assert a + b == [a[0]] + (a[1..] + b);
    }
  }

  /** Removing an element that is not there changes nothing. */
  lemma {:induction false} RemoveFirstAbsent<T>(s: seq<T>, x: T)
    requires x !in s
    ensures RemoveFirst(s, x) == s
  {
    if s != [] {
      assert x !in s[1..];
      RemoveFirstAbsent(s[1..], x);
    }
  }

  /** Exactly one copy of `x` goes, when there is one; every other element stays. */
  lemma {:induction false} RemoveFirstMultiset<T>(s: seq<T>, x: T)
    ensures multiset(RemoveFirst(s, x)) == multiset(s) - multiset{x}
  {
    if s == [] {
    } else if s[0] == x {
      assert s == [s[0]] + s[1..];
    } else {
      RemoveFirstMultiset(s[1..], x);
      assert s == [s[0]] + s[1..];
    }
  }

  /** The length drops by one exactly when `x` was present. */
  lemma RemoveFirstLength<T>(s: seq<T>, x: T)
    ensures |RemoveFirst(s, x)| == if x in s then |s| - 1 else |s|
  {
    RemoveFirstMultiset(s, x);
    assert |multiset(RemoveFirst(s, x))| == |RemoveFirst(s, x)|;
    if x in s {
      assert x in multiset(s);
    } else {
      RemoveFirstAbsent(s, x);
    }
  }

  /** On a duplicate-free sequence, removal keeps it duplicate-free and leaves
      no copy of `x` behind. */
  lemma {:induction false} RemoveFirstNoDuplicates<T>(s: seq<T>, x: T)
    requires NoDuplicates(s)
    ensures NoDuplicates(RemoveFirst(s, x))
    ensures x !in RemoveFirst(s, x)
  {
    if s == [] {
    } else if s[0] == x {
      assert forall k :: 0 <= k < |s[1..]| ==> s[1..][k] != x by {
        forall k | 0 <= k < |s[1..]| ensures s[1..][k] != x {
          assert s[1..][k] == s[k + 1];
        }
      }
    } else {
      var t := s[1..];
      assert NoDuplicates(t) by {
        forall i, j | 0 <= i < j < |t| ensures t[i] != t[j] {
          assert t[i] == s[i + 1] && t[j] == s[j + 1];
        }
      }
      RemoveFirstNoDuplicates(t, x);
      RemoveFirstMultiset(t, x);
      var r := RemoveFirst(t, x);
      assert s[0] !in t by {
        forall k | 0 <= k < |t| ensures t[k] != s[0] {
          assert t[k] == s[k + 1];
        }
      }
      assert s[0] !in multiset(t);
      assert s[0] !in multiset(r);
      var whole := [s[0]] + r;
      forall i, j | 0 <= i < j < |whole| ensures whole[i] != whole[j] {
        if i == 0 {
          assert whole[j] == r[j - 1];
        } else {
          assert whole[i] == r[i - 1] && whole[j] == r[j - 1];
        }
      }
    }
  }

  /** On a duplicate-free sequence, removing twice is removing once. */
  lemma RemoveFirstTwice<T>(s: seq<T>, x: T)
    requires NoDuplicates(s)
    ensures RemoveFirst(RemoveFirst(s, x), x) == RemoveFirst(s, x)
  {
    RemoveFirstNoDuplicates(s, x);
    RemoveFirstAbsent(RemoveFirst(s, x), x);
  }
}
