/** An insertion-ordered set, as a JavaScript `Set` behaves: `add` appends an
    element that is not yet present, `delete` removes it and keeps the order of
    the others, and iteration visits elements in insertion order. */
module OrderedSet {

  /** No element occurs twice. */
  ghost predicate Distinct<T>(s: seq<T>)
  {
    forall i, j :: 0 <= i < j < |s| ==> s[i] != s[j]
  }

  /** `Set.prototype.add`: an element already present leaves the set as it
      was; a new one goes last. */
  function Add<T(==)>(s: seq<T>, x: T): (r: seq<T>)
    ensures x in r
    ensures forall i :: 0 <= i < |s| ==> s[i] in r
    ensures forall i :: 0 <= i < |r| ==> r[i] in s || r[i] == x
    ensures Distinct(s) ==> Distinct(r)
    ensures |s| <= |r| <= |s| + 1 && r[..|s|] == s
    ensures x in s ==> r == s
  {
    if x in s then s else s + [x]
  }

  /** `Set.prototype.delete`: drops `x` and keeps every other element, with
      its multiplicity, in its place relative to the rest (RemoveAt). */
  function Remove<T(==)>(s: seq<T>, x: T): (r: seq<T>)
    ensures x !in r
    ensures |r| <= |s|
  {
    if s == [] then []
    else if s[0] == x then Remove(s[1..], x)
    else [s[0]] + Remove(s[1..], x)
  }

  /** Deleting takes every copy of `x` and nothing else. */
  lemma {:induction false} RemoveCounts<T>(s: seq<T>, x: T)
    ensures multiset(Remove(s, x)) == multiset(s)[x := 0]
  {
    if s != [] {
      assert s == [s[0]] + s[1..];
      RemoveCounts(s[1..], x);
    }
  }

  /** Deleting keeps exactly the other elements. */
  lemma {:induction false} RemoveMembers<T>(s: seq<T>, x: T)
    ensures forall y :: y in Remove(s, x) <==> y in s && y != x
  {
    if s != [] {
      RemoveMembers(s[1..], x);
      assert forall y :: y in s <==> y == s[0] || y in s[1..];
    }
  }

  /** Deleting an absent element changes nothing. */
  lemma {:induction false} RemoveAbsent<T>(s: seq<T>, x: T)
    requires x !in s
    ensures Remove(s, x) == s
  {
    if s != [] {
      RemoveAbsent(s[1..], x);
    }
  }

  /** Deleting keeps a set a set, and takes exactly one element from a set
      that held it. */
  lemma {:induction false} RemoveDistinct<T>(s: seq<T>, x: T)
    requires Distinct(s)
    ensures Distinct(Remove(s, x))
    ensures |Remove(s, x)| == if x in s then |s| - 1 else |s|
  {
    if s != [] {
      assert Distinct(s[1..]);
      RemoveDistinct(s[1..], x);
      if s[0] == x {
        assert x !in s[1..];
        RemoveAbsent(s[1..], x);
      } else {
        var t := Remove(s[1..], x);
        assert s[0] !in t by {
          assert s[0] !in s[1..];
          RemoveCounts(s[1..], x);
          assert multiset(t)[s[0]] <= multiset(s[1..])[s[0]] == 0;
        }
      }
    }
  }

  /** Position of a present element. */
  function IndexOf<T(==)>(s: seq<T>, x: T): (k: nat)
    requires x in s
    ensures k < |s| && s[k] == x
    ensures forall j :: 0 <= j < k ==> s[j] != x
  {
    if s[0] == x then 0 else 1 + IndexOf(s[1..], x)
  }

  /** Removing an element that sits between two parts which do not hold it
      joins the two parts. */
  lemma {:induction false} RemoveMiddle<T>(a: seq<T>, x: T, b: seq<T>)
    requires x !in a && x !in b
    ensures Remove(a + [x] + b, x) == a + b
  {
    var s := a + [x] + b;
    if a == [] {
      assert s[0] == x && s[1..] == b;
      assert Remove(s, x) == Remove(b, x);
      RemoveAbsent(b, x);
    } else {
      assert s[0] == a[0] && a[0] != x;
      assert s[1..] == a[1..] + [x] + b;
      assert Remove(s, x) == [a[0]] + Remove(a[1..] + [x] + b, x);
      RemoveMiddle(a[1..], x, b);
      assert [a[0]] + (a[1..] + b) == a + b;
    }
  }

  /** In a distinct sequence, the first element left after removing `x` is
      the earliest element other than `x`. */
  lemma {:induction false} FirstAfterRemove<T>(s: seq<T>, x: T)
    requires Distinct(s)
    requires Remove(s, x) != []
    ensures Remove(s, x)[0] in s && Remove(s, x)[0] != x
    ensures forall k :: 0 <= k < |s| && s[k] != x ==> IndexOf(s, Remove(s, x)[0]) <= k
  {
    if s[0] == x {
      assert Distinct(s[1..]);
      FirstAfterRemove(s[1..], x);
      var h := Remove(s, x)[0];
      assert IndexOf(s, h) == 1 + IndexOf(s[1..], h);
      forall k | 0 <= k < |s| && s[k] != x
        ensures IndexOf(s, h) <= k
      {
        assert k != 0;
        assert s[k] == s[1..][k - 1];
      }
    } else {
      assert Remove(s, x)[0] == s[0];
    }
  }

  /** In a set, deleting a present element cuts it out at its position and
      leaves the elements before and after it in order. */
  lemma RemoveAt<T>(s: seq<T>, x: T)
    requires Distinct(s) && x in s
    ensures Remove(s, x) == s[..IndexOf(s, x)] + s[IndexOf(s, x) + 1..]
  {
    var k := IndexOf(s, x);
    assert s == s[..k] + [x] + s[k + 1..];
    var after := s[k + 1..];
    assert x !in after by {
      forall j | 0 <= j < |after| ensures after[j] != x {
        assert after[j] == s[k + 1 + j];
      }
    }
    RemoveMiddle(s[..k], x, s[k + 1..]);
  }

  /** Concatenation is associative. */
  lemma Associative<T>(a: seq<T>, b: seq<T>, c: seq<T>)
    ensures a + (b + c) == (a + b) + c
  {
  }

  /** Cutting a distinct sequence at position `i`. */
  lemma SplitAt<T>(s: seq<T>, i: nat)
    requires i < |s|
    ensures s[..i + 1] == s[..i] + [s[i]]
    ensures s[i..] == [s[i]] + s[i + 1..]
    ensures Distinct(s) ==> s[i] !in s[..i] && s[i] !in s[i + 1..]
  {
    if Distinct(s) {
      var before, after := s[..i], s[i + 1..];
      forall j | 0 <= j < |before| ensures before[j] != s[i] {
        assert before[j] == s[j];
      }
      forall j | 0 <= j < |after| ensures after[j] != s[i] {
        assert after[j] == s[i + 1 + j];
      }
    }
  }
}
