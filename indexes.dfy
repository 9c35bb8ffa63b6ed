/** `find_all`: the positions at which a value occurs in a list. */
module Indexes {

  ghost predicate StrictlyIncreasing(s: seq<nat>)
  {
    forall k, l :: 0 <= k < l < |s| ==> s[k] < s[l]
  }

  /** The indexes that `find_all` collects, written as the list it has
      built after looking at each prefix of `data`. */
  function Occurrences<T(==)>(data: seq<T>, value: T): seq<nat>
  {
    if |data| == 0 then []
    else
      var last := |data| - 1;
      Occurrences(data[..last], value) + (if data[last] == value then [last] else [])
  }

  /** The collected indexes are exactly the positions holding `value`, in
      ascending order. */
  lemma {:induction false} OccurrencesExact<T>(data: seq<T>, value: T)
    ensures StrictlyIncreasing(Occurrences(data, value))
    ensures forall i: nat :: i in Occurrences(data, value) <==> i < |data| && data[i] == value
  {
    if |data| > 0 {
      var last := |data| - 1;
      var init := data[..last];
      OccurrencesExact(init, value);
      forall i | 0 <= i < last ensures init[i] == data[i] { }
      var before := Occurrences(init, value);
      forall k | 0 <= k < |before| ensures before[k] < last {
        assert before[k] in before;
      }
    }
  }

  /** There are as many collected indexes as occurrences of `value`. */
  lemma {:induction false} OccurrencesCount<T>(data: seq<T>, value: T)
    ensures |Occurrences(data, value)| == multiset(data)[value]
  {
    if |data| > 0 {
      var last := |data| - 1;
      OccurrencesCount(data[..last], value);
      assert data == data[..last] + [data[last]];
      assert multiset(data) == multiset(data[..last]) + multiset{data[last]};
    }
  }

  /** A strictly increasing list is determined by its elements, so the two
      properties of `OccurrencesExact` pin down the result. */
  lemma {:induction false} StrictlyIncreasingUnique(a: seq<nat>, b: seq<nat>)
    requires StrictlyIncreasing(a) && StrictlyIncreasing(b)
    requires forall i :: i in a <==> i in b
    ensures a == b
  {
    if |a| == 0 || |b| == 0 {
      // The non-empty one would have a first element the other one lacks.
      if |a| > 0 {
        HeadIsElement(a);
        assert false;
      } else if |b| > 0 {
        HeadIsElement(b);
        assert false;
      }
    } else {
      assert a[0] == b[0] by {
        assert a[0] in b && b[0] in a;
        HeadIsLeast(a, b[0]);
        HeadIsLeast(b, a[0]);
      }
      TailMembers(a);
      TailMembers(b);
      StrictlyIncreasingUnique(a[1..], b[1..]);
      assert a == [a[0]] + a[1..] && b == [b[0]] + b[1..];
    }
  }

  lemma HeadIsLeast(s: seq<nat>, x: nat)
    requires StrictlyIncreasing(s) && x in s
    ensures s[0] <= x
  {
    var k :| 0 <= k < |s| && s[k] == x;
  }

  /** Dropping the head of a strictly increasing list keeps it strictly
      increasing and removes exactly the head from its elements. */
  lemma TailMembers(s: seq<nat>)
    requires StrictlyIncreasing(s) && |s| > 0
    ensures StrictlyIncreasing(s[1..])
    ensures forall i :: i in s[1..] <==> i in s && i != s[0]
  {
    forall i | i in s[1..] ensures i != s[0] {
      var k :| 1 <= k < |s| && s[k] == i;
    }
    forall i | i in s && i != s[0] ensures i in s[1..] {
      var k :| 0 <= k < |s| && s[k] == i;
      assert s[1..][k - 1] == i;
    }
  }

  lemma HeadIsElement(s: seq<nat>)
    requires |s| > 0
    ensures s[0] in s
  {
  }

  /** find_all(data, value): enumerates `data` and appends the index of every
      element equal to `value`. */
  method FindAll<T(==)>(data: seq<T>, value: T) returns (indexes: seq<nat>)
    ensures indexes == Occurrences(data, value)
    ensures StrictlyIncreasing(indexes)
    ensures forall i: nat :: i in indexes <==> i < |data| && data[i] == value
    ensures |indexes| == multiset(data)[value]
  {
    indexes := [];
    for index := 0 to |data|
      invariant indexes == Occurrences(data[..index], value)
    {
      assert data[..index + 1][..index] == data[..index];
      if data[index] == value {
        indexes := indexes + [index];
      }
    }
    assert data[..|data|] == data;
    OccurrencesExact(data, value);
    OccurrencesCount(data, value);
  }
}
