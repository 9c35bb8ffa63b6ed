/** `get_set_distance`: the distance between every two points of a list,
    one value per pair of positions (i, j) with i < j. */
module SetDistance {
  import opened Geometry

  /** The pairs (i, i + 1), ..., (i, j - 1): what the inner `while` loop has
      visited for row i when its counter has reached j. */
  function RowUpTo(i: nat, j: nat): seq<(nat, nat)>
  {
    seq(if j <= i + 1 then 0 else j - i - 1, k requires 0 <= k => (i, i + 1 + k))
  }

  /** The pairs of rows 0 .. i - 1 of an n-element list, row after row. */
  function RowsBefore(i: nat, n: nat): seq<(nat, nat)>
  {
    if i == 0 then [] else RowsBefore(i - 1, n) + RowUpTo(i - 1, n)
  }

  /** The pairs `get_set_distance` visits: the outer loop runs over
      `range(len(data[:-1]))`, that is every row but the last (which would be
      empty anyway). */
  function Pairs(n: nat): seq<(nat, nat)>
  {
    RowsBefore(if n == 0 then 0 else n - 1, n)
  }

  /** Lexicographic order on index pairs. */
  ghost predicate LexLess(p: (nat, nat), q: (nat, nat))
  {
    p.0 < q.0 || (p.0 == q.0 && p.1 < q.1)
  }

  ghost predicate LexSorted(s: seq<(nat, nat)>)
  {
    forall k, l :: 0 <= k < l < |s| ==> LexLess(s[k], s[l])
  }

  lemma SortedConcat(a: seq<(nat, nat)>, b: seq<(nat, nat)>)
    requires LexSorted(a) && LexSorted(b)
    requires forall x: (nat, nat), y: (nat, nat) :: x in a && y in b ==> LexLess(x, y)
    ensures LexSorted(a + b)
  {
    forall k, l | 0 <= k < l < |a + b| ensures LexLess((a + b)[k], (a + b)[l]) {
      if l < |a| {
        assert (a + b)[k] == a[k] && (a + b)[l] == a[l];
      } else if k >= |a| {
        assert (a + b)[k] == b[k - |a|] && (a + b)[l] == b[l - |a|];
      } else {
        assert (a + b)[k] == a[k] && (a + b)[l] == b[l - |a|];
        assert a[k] in a && b[l - |a|] in b;
      }
    }
  }

  /** Row i up to j holds exactly the pairs (i, j') with i < j' < j. */
  lemma RowUpToMembers(i: nat, j: nat)
    ensures forall p: (nat, nat) :: p in RowUpTo(i, j) <==> p.0 == i && i < p.1 < j
  {
    forall p: (nat, nat) | p.0 == i && i < p.1 < j ensures p in RowUpTo(i, j) {
      assert RowUpTo(i, j)[p.1 - i - 1] == p;
    }
  }

  /** One more turn of the inner `while` loop appends (i, j). */
  lemma RowUpToStep(i: nat, j: nat)
    requires i < j
    ensures RowUpTo(i, j + 1) == RowUpTo(i, j) + [(i, j)]
  {
  }

  /** The rows before i hold exactly the pairs whose first index is below i. */
  lemma {:induction false} RowsBeforeMembers(i: nat, n: nat)
    ensures forall p: (nat, nat) :: p in RowsBefore(i, n) <==> p.0 < i && p.0 < p.1 < n
  {
    if i > 0 {
      RowsBeforeMembers(i - 1, n);
      RowUpToMembers(i - 1, n);
      assert RowsBefore(i, n) == RowsBefore(i - 1, n) + RowUpTo(i - 1, n);
    }
  }

  /** Every pair of the rows before i - 1 precedes every pair of row i - 1. */
  lemma RowsBeforeBelowRow(i: nat, n: nat)
    requires i > 0
    ensures forall x: (nat, nat), y: (nat, nat) ::
              x in RowsBefore(i - 1, n) && y in RowUpTo(i - 1, n) ==> LexLess(x, y)
  {
    RowsBeforeMembers(i - 1, n);
    RowUpToMembers(i - 1, n);
  }

  lemma {:induction false} RowsBeforeSorted(i: nat, n: nat)
    ensures LexSorted(RowsBefore(i, n))
  {
    if i > 0 {
      RowsBeforeSorted(i - 1, n);
      RowsBeforeBelowRow(i, n);
      SortedConcat(RowsBefore(i - 1, n), RowUpTo(i - 1, n));
    }
  }

  lemma {:induction false} RowsBeforeLength(i: nat, n: nat)
    requires i <= n
    ensures 2 * |RowsBefore(i, n)| == i * (2 * n - i - 1)
  {
    if i > 0 {
      RowsBeforeLength(i - 1, n);
      assert |RowUpTo(i - 1, n)| == n - i;
      RowCountStep(i, n);
    }
  }

  /** Adding row i - 1, of n - i pairs, to the rows before it. */
  lemma RowCountStep(i: int, n: int)
    requires 0 < i <= n
    ensures (i - 1) * (2 * n - i) + 2 * (n - i) == i * (2 * n - i - 1)
  {
    var a, c := i - 1, 2 * n - i - 1;
    assert i * c == a * c + c;
    assert a * (2 * n - i) == a * c + a;
  }

  lemma HalveCount(n: int, count: int)
    requires 0 < n && 2 * count == (n - 1) * (2 * n - (n - 1) - 1)
    ensures count == n * (n - 1) / 2
  {
    assert (n - 1) * (2 * n - (n - 1) - 1) == n * (n - 1);
  }

  /** The pairs of an n-element list: every (i, j) with i < j < n, each once,
      in lexicographic order, n * (n - 1) / 2 of them. */
  lemma PairsEnumeration(n: nat)
    ensures forall p: (nat, nat) :: p in Pairs(n) <==> p.0 < p.1 < n
    ensures LexSorted(Pairs(n))
    ensures |Pairs(n)| == n * (n - 1) / 2
  {
    if n > 0 {
      var pairs := RowsBefore(n - 1, n);
      assert Pairs(n) == pairs;
      RowsBeforeMembers(n - 1, n);
      forall p: (nat, nat) ensures p in pairs <==> p.0 < p.1 < n {
        assert p in pairs <==> p.0 < n - 1 && p.0 < p.1 < n;
      }
      RowsBeforeSorted(n - 1, n);
      RowsBeforeLength(n - 1, n);
      HalveCount(n, |pairs|);
    }
  }

  /** get_set_distance(data): for each row i, a `while` loop over j > i
      appends the distance between data[i] and data[j]. */
  method GetSetDistance(data: seq<Point>) returns (distances: seq<real>)
    ensures |distances| == |Pairs(|data|)| == |data| * (|data| - 1) / 2
    ensures forall k :: 0 <= k < |distances| ==>
              var p := Pairs(|data|)[k];
              p.0 < p.1 < |data| && distances[k] == SquaredDistance(data[p.0], data[p.1])
  {
    ghost var n := |data|;
    distances := [];
    var rows := if |data| == 0 then 0 else |data| - 1;  // len(data[:-1])
    for i := 0 to rows
      invariant |distances| == |RowsBefore(i, n)|
      invariant forall k :: 0 <= k < |distances| ==>
                  var p := RowsBefore(i, n)[k];
                  p.0 < p.1 < n && distances[k] == SquaredDistance(data[p.0], data[p.1])
    {
      var j := i + 1;
      while j < |data|
        invariant i + 1 <= j <= n
        invariant |distances| == |RowsBefore(i, n) + RowUpTo(i, j)|
        invariant forall k :: 0 <= k < |distances| ==>
                    var p := (RowsBefore(i, n) + RowUpTo(i, j))[k];
                    p.0 < p.1 < n && distances[k] == SquaredDistance(data[p.0], data[p.1])
      {
        RowUpToStep(i, j);
        assert RowsBefore(i, n) + RowUpTo(i, j + 1) == (RowsBefore(i, n) + RowUpTo(i, j)) + [(i, j)];
        distances := distances + [SquaredDistance(data[i], data[j])];
        j := j + 1;
      }
      assert RowsBefore(i + 1, n) == RowsBefore(i, n) + RowUpTo(i, j);
    }
    assert Pairs(n) == RowsBefore(rows, n);
    PairsEnumeration(n);
  }
}
