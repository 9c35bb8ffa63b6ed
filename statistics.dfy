/** `get_average` and `get_quartiles`: statistics of a list of numbers. */
module Statistics {
  import opened Wrappers
  import opened Builtins

  /** get_average(data): `sum(data) / len(data)`; dividing by the length of
      an empty list raises ZeroDivisionError. */
  function Average(data: seq<real>): (r: Result<real>)
    ensures r.Err? <==> |data| == 0
    ensures r.Err? ==> r.error == ZeroDivisionError
    ensures r.Ok? ==> |data| as real * r.value == Sum(data)
  {
    if |data| == 0 then Err(ZeroDivisionError)
    else
      DivInverse(|data| as real, Sum(data));
      Ok(Sum(data) / |data| as real)
  }

  /** The average lies within any bounds of the data, in particular
      between the smallest and the largest element. */
  lemma AverageWithinBounds(data: seq<real>, lo: real, hi: real)
    requires |data| > 0
    requires forall i :: 0 <= i < |data| ==> lo <= data[i] <= hi
    ensures lo <= Average(data).value <= hi
  {
    var n, total := |data| as real, Sum(data);
    SumBounds(data, lo, hi);
    DivBounds(n, total, lo, hi);
  }

  lemma AverageWithinRange(data: seq<real>)
    requires |data| > 0
    ensures Min(data) <= Average(data).value <= Max(data)
  {
    AverageWithinBounds(data, Min(data), Max(data));
  }

  lemma DivInverse(n: real, total: real)
    requires n > 0.0
    ensures n * (total / n) == total
  {
  }

  /** Dividing n * lo <= total <= n * hi by n > 0. */
  lemma DivBounds(n: real, total: real, lo: real, hi: real)
    requires n > 0.0
    requires n * lo <= total <= n * hi
    ensures lo <= total / n <= hi
  {
  }

  /** Python's `int()` applied to a float: drops the fractional part,
      rounding toward zero. */
  function Trunc(x: real): int
  {
    if x >= 0.0 then x.Floor else -((-x).Floor)
  }

  lemma TruncOf(x: real, k: nat)
    requires k as real <= x < k as real + 1.0
    ensures Trunc(x) == k
  {
  }

  /** The textbook median of a sorted, non-empty list: the middle element, or
      the mean of the two middle elements when the length is even. */
  function Median(s: seq<real>): real
    requires |s| > 0
  {
    var mid := |s| / 2;
    if |s| % 2 == 1 then s[mid] else (s[mid - 1] + s[mid]) / 2.0
  }

  /** `int(n / 2)` is n // 2. */
  /** n split by four: n / 2 and its halves in terms of n / 4 and n % 4. */
  lemma Quarters(n: nat)
    ensures n / 2 == 2 * (n / 4) + (n % 4) / 2
    ensures n % 2 == (n % 4) % 2
  {
    var q, r := n / 4, n % 4;
    assert n == 4 * q + r;
  }

  /** `int(len(ordered_data) / 2)`. */
  function Middle(n: nat): (k: int)
    ensures k == n / 2
  {
    TruncOf(n as real / 2.0, n / 2);
    Trunc(n as real / 2.0)
  }

  /** `int(n / 2 - 1 - int(n / 2) / 2)`, where q1 starts. */
  function LowerLeft(n: nat): (k: int)
    requires n >= 3
    ensures k == n / 4 - 1 + (if n % 4 == 3 then 1 else 0)
  {
    Quarters(n);
    var x := n as real / 2.0 - 1.0 - Middle(n) as real / 2.0;
    TruncOf(x, n / 4 - 1 + (if n % 4 == 3 then 1 else 0));
    Trunc(x)
  }

  /** `int(n / 2 - int(n / 2) / 2)`, the second index of an averaged q1. */
  function LowerRight(n: nat): (k: int)
    requires n >= 3
    ensures k == n / 4 + (if n % 4 == 3 then 1 else 0)
  {
    Quarters(n);
    var x := n as real / 2.0 - Middle(n) as real / 2.0;
    TruncOf(x, n / 4 + (if n % 4 == 3 then 1 else 0));
    Trunc(x)
  }

  /** `int(n / 2 + int(n / 2) / 2)`, q3 when the upper half has odd length. */
  function UpperMiddle(n: nat): (k: int)
    requires n >= 3
    ensures k == n / 2 + n / 4 + (if n % 4 == 3 then 1 else 0)
  {
    Quarters(n);
    var x := n as real / 2.0 + Middle(n) as real / 2.0;
    TruncOf(x, n / 2 + n / 4 + (if n % 4 == 3 then 1 else 0));
    Trunc(x)
  }

  /** `int(n / 2 - 1 + n % 2 + int(n / 2) / 2)`, where an averaged q3 starts. */
  function UpperLeft(n: nat): (k: int)
    requires n >= 3
    ensures k == n / 2 + n / 4 - 1 + n % 2 + (if n % 4 == 3 then 1 else 0)
  {
    Quarters(n);
    var x := n as real / 2.0 - 1.0 + (n % 2) as real + Middle(n) as real / 2.0;
    TruncOf(x, n / 2 + n / 4 - 1 + n % 2 + (if n % 4 == 3 then 1 else 0));
    Trunc(x)
  }

  /** `int(n / 2 + n % 2 + int(n / 2) / 2)`, the second index of an averaged q3. */
  function UpperRight(n: nat): (k: int)
    requires n >= 3
    ensures k == n / 2 + n / 4 + n % 2 + (if n % 4 == 3 then 1 else 0)
  {
    Quarters(n);
    var x := n as real / 2.0 + (n % 2) as real + Middle(n) as real / 2.0;
    TruncOf(x, n / 2 + n / 4 + n % 2 + (if n % 4 == 3 then 1 else 0));
    Trunc(x)
  }

  /** get_quartiles(data): sorts a copy; below three elements returns
      (data[0] - 1, data[0], data[0] + 1) from the unsorted list, raising
      IndexError when it is empty; otherwise picks the quartiles from the
      sorted copy. */
  function Quartiles(data: seq<real>): (r: Result<(real, real, real)>)
    ensures r.Err? <==> |data| == 0
    ensures r.Err? ==> r.error == IndexError
    ensures 0 < |data| < 3 ==> r == Ok((data[0] - 1.0, data[0], data[0] + 1.0))
    ensures |data| >= 3 ==> r.Ok? && r.value.1 == Median(SortedCopy(data))
  {
    var ordered := SortedCopy(data);
    if |data| < 3 then
      if |data| == 0 then Err(IndexError) else Ok((data[0] - 1.0, data[0], data[0] + 1.0))
    else
      SecondQuartileIsMedian(ordered);
      Ok(PickQuartiles(ordered))
  }

  /** The index arithmetic of get_quartiles on the sorted copy `ordered`;
      each `int(...)` index expression is one of the functions above. */
  function PickQuartiles(ordered: seq<real>): (real, real, real)
    requires |ordered| >= 3
  {
    var n := |ordered|;
    var h := Middle(n);
    var q2 := if n % 2 == 1 then ordered[h] else (ordered[h - 1] + ordered[h]) / 2.0;
    if |ordered[h + n % 2..]| % 2 == 1 then
      (ordered[LowerLeft(n)], q2, ordered[UpperMiddle(n)])
    else
      var q1 := (ordered[LowerLeft(n)] + ordered[LowerRight(n)]) / 2.0;
      var q3 := (ordered[UpperLeft(n)] + ordered[UpperRight(n)]) / 2.0;
      (q1, q2, q3)
  }

  /** The sorted positions the source reads when h = int(n / 2) is odd. */
  lemma PickOddHalf(s: seq<real>)
    requires |s| >= 3 && (|s| / 2) % 2 == 1
    ensures var h, m := |s| / 2, |s| % 2;
            && PickQuartiles(s).0 == s[h / 2 - 1 + m]
            && PickQuartiles(s).2 == s[h + h / 2 + m]
  {
    Quarters(|s|);
    assert |s[|s| / 2 + |s| % 2..]| % 2 == 1;
  }

  /** The sorted positions the source reads when h = int(n / 2) is even. */
  lemma PickEvenHalf(s: seq<real>)
    requires |s| >= 3 && (|s| / 2) % 2 == 0
    ensures var h, m := |s| / 2, |s| % 2;
            && PickQuartiles(s).0 == (s[h / 2 - 1] + s[h / 2]) / 2.0
            && PickQuartiles(s).2 == (s[h + h / 2 - 1 + m] + s[h + h / 2 + m]) / 2.0
  {
    Quarters(|s|);
    assert |s[|s| / 2 + |s| % 2..]| % 2 == 0;
  }

  lemma SecondQuartileIsMedian(s: seq<real>)
    requires |s| >= 3
    ensures PickQuartiles(s).1 == Median(s)
  {
  }

  /** q3 is the median of the upper half: the sorted elements after the
      middle one (odd length) or after the first half (even length). */
  lemma ThirdQuartileIsUpperMedian(s: seq<real>)
    requires |s| >= 3
    ensures PickQuartiles(s).2 == Median(s[|s| / 2 + |s| % 2..])
  {
    var h, m := |s| / 2, |s| % 2;
    var upper := s[h + m..];
    assert |upper| == h;
    if h % 2 == 1 {
      PickOddHalf(s);
      assert upper[h / 2] == s[h + h / 2 + m];
    } else {
      PickEvenHalf(s);
      assert upper[h / 2 - 1] == s[h + h / 2 - 1 + m] && upper[h / 2] == s[h + h / 2 + m];
    }
  }

  /** q1 is the median of the lower half, the first int(n / 2) sorted
      elements, unless n % 4 == 2. */
  lemma FirstQuartileIsLowerMedian(s: seq<real>)
    requires |s| >= 3 && |s| % 4 != 2
    ensures PickQuartiles(s).0 == Median(s[..|s| / 2])
  {
    var h := |s| / 2;
    var lower := s[..h];
    if h % 2 == 1 {
      OddHalfOfOddLength(|s|);
      PickOddHalf(s);
      assert Median(lower) == lower[h / 2] == s[h / 2];
    } else {
      PickEvenHalf(s);
      assert Median(lower) == (lower[h / 2 - 1] + lower[h / 2]) / 2.0 == (s[h / 2 - 1] + s[h / 2]) / 2.0;
    }
  }

  /** When n % 4 == 2 the lower half has odd length n / 2, whose median is
      sorted index n / 4; the source takes index n / 4 - 1. */
  lemma FirstQuartileWhenTwoModFour(s: seq<real>)
    requires |s| >= 3 && |s| % 4 == 2
    ensures PickQuartiles(s).0 == s[|s| / 4 - 1]
    ensures Median(s[..|s| / 2]) == s[|s| / 4]
  {
    HalfOfTwoModFour(|s|);
    PickOddHalf(s);
    var h := |s| / 2;
    assert s[..h][h / 2] == s[h / 2];
  }

  lemma OddHalfOfOddLength(n: nat)
    requires (n / 2) % 2 == 1 && n % 4 != 2
    ensures n % 2 == 1
  {
    var q, r := n / 4, n % 4;
    assert n == 4 * q + r;
    assert n / 2 == 2 * q + r / 2;
  }

  lemma EvenHalfNotTwoModFour(n: nat)
    requires (n / 2) % 2 == 0
    ensures n % 4 != 2
  {
    var q, r := n / 4, n % 4;
    assert n == 4 * q + r;
    assert n / 2 == 2 * q + r / 2;
  }

  lemma HalfOfTwoModFour(n: nat)
    requires n % 4 == 2
    ensures (n / 2) % 2 == 1 && (n / 2) / 2 == n / 4
  {
    var q := n / 4;
    assert n == 4 * q + 2;
    assert n / 2 == 2 * q + 1;
  }

  /** For the sorted list [0, 1, 2, 3, 4, 5] (its own sorted copy, by
      `SortedCopyOfSorted`) the source's q1 is 0, while the lower half
      [0, 1, 2] has median 1. */
  lemma FirstQuartileOffByOne()
    ensures PickQuartiles([0.0, 1.0, 2.0, 3.0, 4.0, 5.0]).0 == 0.0
    ensures Median([0.0, 1.0, 2.0]) == 1.0
  {
    FirstQuartileWhenTwoModFour([0.0, 1.0, 2.0, 3.0, 4.0, 5.0]);
  }

  /** get_quartiles with its first-quartile index corrected. */
  function QuartilesCorrected(data: seq<real>): (r: Result<(real, real, real)>)
    ensures r.Err? <==> |data| == 0
    ensures r.Err? ==> r.error == IndexError
    ensures |data| < 3 ==> r == Quartiles(data)
  {
    if |data| < 3 then Quartiles(data) else Ok(PickQuartilesCorrected(SortedCopy(data)))
  }

  /** The index arithmetic of get_quartiles with one expression changed: when
      the upper half has odd length h = int(n / 2), q1 is `ordered[int(h / 2)]`
      rather than `ordered[int(n / 2 - 1 - h / 2)]`. */
  function PickQuartilesCorrected(ordered: seq<real>): (real, real, real)
    requires |ordered| >= 3
  {
    var h := |ordered| / 2;
    var picked := PickQuartiles(ordered);
    if h % 2 == 1 then
      TruncOf(h as real / 2.0, h / 2);
      (ordered[Trunc(h as real / 2.0)], picked.1, picked.2)
    else
      picked
  }

  /** The corrected quartiles are the medians of the lower half, the whole
      sorted list and the upper half, for every length from three on. */
  lemma CorrectedQuartilesAreHalfMedians(s: seq<real>)
    requires |s| >= 3
    ensures PickQuartilesCorrected(s).0 == Median(s[..|s| / 2])
    ensures PickQuartilesCorrected(s).1 == Median(s)
    ensures PickQuartilesCorrected(s).2 == Median(s[|s| / 2 + |s| % 2..])
  {
    SecondQuartileIsMedian(s);
    ThirdQuartileIsUpperMedian(s);
    var h := |s| / 2;
    if h % 2 == 1 {
      TruncOf(h as real / 2.0, h / 2);
      assert Median(s[..h]) == s[..h][h / 2] == s[h / 2];
    } else {
      EvenHalfNotTwoModFour(|s|);
      FirstQuartileIsLowerMedian(s);
    }
  }

  /** The source and the corrected version agree except on q1 when
      n % 4 == 2. */
  lemma CorrectionOnlyChangesTwoModFour(data: seq<real>)
    requires |data| % 4 != 2
    ensures QuartilesCorrected(data) == Quartiles(data)
  {
    if |data| >= 3 {
      var s := SortedCopy(data);
      CorrectedQuartilesAreHalfMedians(s);
      FirstQuartileIsLowerMedian(s);
    }
  }

  /** The three values come out in order: q1 <= q2 <= q3. */
  lemma QuartilesOrdered(data: seq<real>)
    requires |data| > 0
    ensures Quartiles(data).value.0 <= Quartiles(data).value.1 <= Quartiles(data).value.2
  {
    if |data| >= 3 {
      PickedQuartilesOrdered(SortedCopy(data));
    }
  }

  lemma PickedQuartilesOrdered(s: seq<real>)
    requires |s| >= 3 && Sorted(s)
    ensures PickQuartiles(s).0 <= PickQuartiles(s).1 <= PickQuartiles(s).2
  {
    SecondQuartileIsMedian(s);
    var h, m := |s| / 2, |s| % 2;
    assert s[h - 1] <= s[h];
    if h % 2 == 1 {
      PickOddHalf(s);
      assert s[h / 2 - 1 + m] <= s[h - 1 + m];
      assert s[h] <= s[h + h / 2 + m];
    } else {
      PickEvenHalf(s);
      assert s[h / 2 - 1] <= s[h / 2] <= s[h - 1];
      assert s[h] <= s[h + h / 2 - 1 + m] <= s[h + h / 2 + m];
    }
  }

  /** From three elements on only the multiset of the input matters; below
      three the unsorted first element does, so this does not extend. */
  lemma QuartilesIgnoreOrder(a: seq<real>, b: seq<real>)
    requires |a| >= 3 && multiset(a) == multiset(b)
    ensures Quartiles(a) == Quartiles(b)
  {
    SortedCopyDependsOnElementsOnly(a, b);
    assert |a| == |multiset(a)| == |b|;
  }

  /** With two elements, reordering the input changes the result. */
  lemma ShortInputDependsOnOrder()
    ensures Quartiles([1.0, 2.0]) != Quartiles([2.0, 1.0])
  {
  }
}
