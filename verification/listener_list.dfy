/**
  Sequence operations behind the extractor's listener list, an ordered
  `ArrayList` of listener handles: membership (`contains`), appending
  (`add`) and deletion of the first equal element (`remove(Object)`),
  together with the duplicate-freedom invariant and a filter used as an
  independent reference definition of deletion.
 */
module ListenerList {

  /** True iff no element of `s` occurs twice. */
  predicate NoDup<T(==)>(s: seq<T>) {
    forall i, j :: 0 <= i < j < |s| ==> s[i] != s[j]
  }

  /** Position of the first occurrence of `x` in `s`. */
  function IndexOf<T(==)>(s: seq<T>, x: T): (i: nat)
    requires x in s
    ensures i < |s| && s[i] == x
    ensures x !in s[..i]
  {
    if s[0] == x then 0
    else
      assert x in s[1..];
      1 + IndexOf(s[1..], x)
  }

  /**
    Deletes the first element equal to `x`, as `List.remove(Object)` does;
    leaves `s` unchanged when `x` does not occur.
   */
  function RemoveFirst<T(==)>(s: seq<T>, x: T): (r: seq<T>)
    ensures x !in s ==> r == s
    ensures x in s ==> r == s[..IndexOf(s, x)] + s[IndexOf(s, x) + 1..]
    ensures x in s ==> |r| == |s| - 1
  {
    if |s| == 0 then s
    else if s[0] == x then s[1..]
    else
      var rest := RemoveFirst(s[1..], x);
      assert s == [s[0]] + s[1..];
      assert x in s ==> [s[0]] + rest == s[..IndexOf(s, x)] + s[IndexOf(s, x) + 1..] by {
        if x in s {
          var k := IndexOf(s[1..], x);
          assert IndexOf(s, x) == k + 1;
          assert s[..k + 1] == [s[0]] + s[1..][..k];
          assert s[k + 2..] == s[1..][k + 1..];
        }
      }
      [s[0]] + rest
  }

  /** The tail of a duplicate-free sequence is duplicate-free. */
  lemma NoDupTail<T>(s: seq<T>)
    requires NoDup(s) && |s| > 0
    ensures NoDup(s[1..]) && s[0] !in s[1..]
  {
  }

  /** Deleting `x` neither adds nor loses any element other than `x`. */
  lemma RemoveFirstKeepsOthers<T>(s: seq<T>, x: T)
    ensures forall y :: y != x ==> (y in RemoveFirst(s, x) <==> y in s)
  {
  }

  /** Reference definition: the elements of `s` other than `x`, in order. */
  function Without<T(==)>(s: seq<T>, x: T): seq<T> {
    if |s| == 0 then []
    else if s[0] == x then Without(s[1..], x)
    else [s[0]] + Without(s[1..], x)
  }

  /** Filtering keeps exactly the elements different from `x`. */
  lemma {:induction false} WithoutMembership<T>(s: seq<T>, x: T, y: T)
    ensures y in Without(s, x) <==> y in s && y != x
  {
    if |s| > 0 {
      WithoutMembership(s[1..], x, y);
      assert s == [s[0]] + s[1..];
    }
  }

  /** Filtering a duplicate-free sequence leaves it duplicate-free. */
  lemma {:induction false} WithoutNoDup<T>(s: seq<T>, x: T)
    requires NoDup(s)
    ensures NoDup(Without(s, x))
  {
    if |s| > 0 {
      NoDupTail(s);
      WithoutNoDup(s[1..], x);
      if s[0] != x {
        WithoutMembership(s[1..], x, s[0]);
        assert s[0] !in s[1..];
      }
    }
  }

  /** A sequence in which `x` does not occur is its own filter. */
  lemma {:induction false} WithoutAbsent<T>(s: seq<T>, x: T)
    requires x !in s
    ensures Without(s, x) == s
  {
    if |s| > 0 {
      assert x !in s[1..];
      WithoutAbsent(s[1..], x);
      assert s == [s[0]] + s[1..];
    }
  }

  /**
    On a duplicate-free sequence, deleting the first occurrence of `x` is the
    same as deleting every occurrence: all other elements keep their
    relative order.
   */
  lemma {:induction false} RemoveFirstIsWithout<T>(s: seq<T>, x: T)
    requires NoDup(s)
    ensures RemoveFirst(s, x) == Without(s, x)
  {
    if |s| == 0 {
    } else {
      NoDupTail(s);
      if s[0] == x {
        assert x !in s[1..];
        WithoutAbsent(s[1..], x);
      } else {
        RemoveFirstIsWithout(s[1..], x);
      }
    }
  }

  /**
    On a duplicate-free sequence, deleting `x` removes it entirely, keeps
    the sequence duplicate-free and agrees with the filter.
   */
  lemma RemoveFirstNoDup<T>(s: seq<T>, x: T)
    ensures NoDup(s) ==> RemoveFirst(s, x) == Without(s, x)
    ensures NoDup(s) ==> NoDup(RemoveFirst(s, x)) && x !in RemoveFirst(s, x)
  {
    if NoDup(s) {
      RemoveFirstIsWithout(s, x);
      WithoutNoDup(s, x);
      WithoutMembership(s, x, x);
    }
  }

  /** Appending an absent element and deleting it again restores the sequence. */
  lemma RemoveFirstAppended<T>(s: seq<T>, x: T)
    requires x !in s
    ensures RemoveFirst(s + [x], x) == s
  {
  }
}
