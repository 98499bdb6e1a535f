/**
 * Row selection of splitFile: which data rows (the header excluded) a worker
 * keeps, given its partition id and the number of partitions.
 *
 * The intended rule keeps the data row with 0-based index i iff
 * i % n == id. The selection the loop actually computes is modelled as
 * SelectAsWritten, beside it.
 */
module Partition {
  import opened Outcomes

  /** Data row i belongs to partition id of n. */
  predicate Keeps(i: int, id: int, n: int)
    requires n >= 1
  {
    i % n == id
  }

  /** The data rows partition id of n keeps, in their original order; the
      last row is considered last, as the split loop reaches it last.
      Which rows these are is stated by SelectStride, EveryRowIsKept,
      NoRowKeptTwice and PartitionSizesSum below. */
  function Select<T>(rows: seq<T>, id: int, n: int): (r: seq<T>)
    requires n >= 1
    ensures |r| <= |rows|
  {
    if |rows| == 0 then []
    else Select(rows[..|rows| - 1], id, n) + (if Keeps(|rows| - 1, id, n) then [rows[|rows| - 1]] else [])
  }

  /** Index, among all data rows, of the k-th row partition id of n keeps. */
  function SourceRow(id: int, n: int, k: int): int
  {
    id + k * n
  }

  lemma {:induction false} MulAtLeast(d: int, n: int)
    requires d >= 1 && n >= 1
    ensures d * n >= n
  {
    if d > 1 {
      MulAtLeast(d - 1, n);
      assert d * n == (d - 1) * n + n;
    }
  }

  /** Euclidean division is unique: q * n + r with 0 <= r < n divides back to q, r. */
  lemma DivOf(q: int, n: int, r: int)
    requires n >= 1 && 0 <= r < n
    ensures (q * n + r) / n == q && (q * n + r) % n == r
  {
    var a := q * n + r;
    var q', r' := a / n, a % n;
    assert a == q' * n + r';
    var d := q' - q;
    assert d * n == q' * n - q * n;
    assert d * n == r - r';
    if d >= 1 {
      MulAtLeast(d, n);
    } else if d <= -1 {
      MulAtLeast(-d, n);
    }
  }

  /** How the number of rows partition id keeps grows by one data row. */
  lemma CountStep(j: nat, id: int, n: int)
    requires 0 <= id < n
    ensures (j + n - id) / n == (j + n - 1 - id) / n + (if j % n == id then 1 else 0)
    ensures j % n == id ==> SourceRow(id, n, (j + n - 1 - id) / n) == j
  {
    var q, r := j / n, j % n;
    assert j == q * n + r;
    if r == id {
      DivOf(q, n, n - 1);
      DivOf(q + 1, n, 0);
      assert (q + 1) * n == q * n + n;
    } else if r < id {
      DivOf(q, n, r + n - 1 - id);
      DivOf(q, n, r + n - id);
    } else {
      DivOf(q + 1, n, r - 1 - id);
      DivOf(q + 1, n, r - id);
      assert (q + 1) * n == q * n + n;
    }
  }

  /**
   * What Select keeps: its k-th row is data row id + k * n, and it keeps
   * ceil((|rows| - id) / n) rows; hence an ordered subsequence of the data
   * rows that skips none of partition id's rows.
   */
  lemma {:induction false} SelectStride<T>(rows: seq<T>, id: int, n: int)
    requires 0 <= id < n
    ensures |Select(rows, id, n)| == (|rows| + n - 1 - id) / n
    ensures forall k :: 0 <= k < |Select(rows, id, n)| ==>
      0 <= SourceRow(id, n, k) < |rows| && Select(rows, id, n)[k] == rows[SourceRow(id, n, k)]
  {
    if |rows| == 0 {
      DivOf(0, n, n - 1 - id);
    } else {
      var j := |rows| - 1;
      var pre := rows[..j];
      SelectStride(pre, id, n);
      CountStep(j, id, n);
      var kept, all := Select(pre, id, n), Select(rows, id, n);
      assert all == kept + (if Keeps(j, id, n) then [rows[j]] else []);
      forall k | 0 <= k < |all|
        ensures 0 <= SourceRow(id, n, k) < |rows| && all[k] == rows[SourceRow(id, n, k)]
      {
        if k < |kept| {
          assert all[k] == kept[k] == pre[SourceRow(id, n, k)];
        } else {
          assert k == |kept| && SourceRow(id, n, k) == j;
        }
      }
    }
  }

  /** The k-th row partition id keeps is one whose index leaves remainder id. */
  lemma SourceRowOwner(id: int, n: int, k: int)
    requires 0 <= id < n
    ensures SourceRow(id, n, k) % n == id && SourceRow(id, n, k) / n == k
  {
    DivOf(k, n, id);
  }

  /** SelectStride at one position. */
  lemma SelectAt<T>(rows: seq<T>, id: int, n: int, k: int)
    requires 0 <= id < n && 0 <= k < (|rows| + n - 1 - id) / n
    ensures k < |Select(rows, id, n)| && SourceRow(id, n, k) < |rows|
    ensures Select(rows, id, n)[k] == rows[SourceRow(id, n, k)]
  {
    SelectStride(rows, id, n);
  }

  /** Where data row i lands: partition i % n, position i / n, which is in range. */
  lemma RowPosition(i: nat, n: int, len: int)
    requires n >= 1 && i < len
    ensures SourceRow(i % n, n, i / n) == i
    ensures i / n < (len + n - 1 - i % n) / n
  {
    var q, r := i / n, i % n;
    assert i == q * n + r;
    var a := len + n - 1 - r;
    var qa, ra := a / n, a % n;
    assert a == qa * n + ra;
    assert a >= q * n + n;
    if qa <= q {
      if qa < q {
        MulAtLeast(q - qa, n);
      }
    }
  }

  /** Covering: data row i is kept by partition i % n, at position i / n of its output. */
  lemma EveryRowIsKept<T>(rows: seq<T>, n: int, i: int)
    requires n >= 1 && 0 <= i < |rows|
    ensures i / n < |Select(rows, i % n, n)| && Select(rows, i % n, n)[i / n] == rows[i]
  {
    var owner, pos := i % n, i / n;
    RowPosition(i, n, |rows|);
    SelectAt(rows, owner, n, pos);
  }

  /** Disjoint: the only position, of any partition's output, that comes from
      data row i is position i / n of partition i % n. */
  lemma NoRowKeptTwice<T>(rows: seq<T>, n: int, i: int)
    requires n >= 1 && 0 <= i < |rows|
    ensures forall id, k :: 0 <= id < n && 0 <= k < |Select(rows, id, n)| && SourceRow(id, n, k) == i ==>
      id == i % n && k == i / n
  {
    forall id, k | 0 <= id < n && 0 <= k < |Select(rows, id, n)| && SourceRow(id, n, k) == i
      ensures id == i % n && k == i / n
    {
      SourceRowOwner(id, n, k);
    }
  }

  /** A selection is known once its length and each of its rows are. */
  lemma SelectIs<T>(rows: seq<T>, id: int, n: int, expected: seq<T>)
    requires 0 <= id < n
    requires |expected| == (|rows| + n - 1 - id) / n
    requires forall k :: 0 <= k < |expected| ==> 0 <= SourceRow(id, n, k) < |rows| && expected[k] == rows[SourceRow(id, n, k)]
    ensures Select(rows, id, n) == expected
  {
    SelectStride(rows, id, n);
  }

  /** Ten data rows over three partitions: rows {0,3,6,9}, {1,4,7} and {2,5,8}. */
  lemma TenRowsThreePartitions()
    ensures Select([0, 1, 2, 3, 4, 5, 6, 7, 8, 9], 0, 3) == [0, 3, 6, 9]
    ensures Select([0, 1, 2, 3, 4, 5, 6, 7, 8, 9], 1, 3) == [1, 4, 7]
    ensures Select([0, 1, 2, 3, 4, 5, 6, 7, 8, 9], 2, 3) == [2, 5, 8]
  {
    var rows := [0, 1, 2, 3, 4, 5, 6, 7, 8, 9];
    SelectIs(rows, 0, 3, [0, 3, 6, 9]);
    SelectIs(rows, 1, 3, [1, 4, 7]);
    SelectIs(rows, 2, 3, [2, 5, 8]);
  }

  /** n == 1: the single partition keeps every row. */
  lemma {:induction false} SelectSinglePartition<T>(rows: seq<T>)
    ensures Select(rows, 0, 1) == rows
  {
    if |rows| > 0 {
      SelectSinglePartition(rows[..|rows| - 1]);
      assert rows[..|rows| - 1] + [rows[|rows| - 1]] == rows;
    }
  }

  /** An id outside 0..n-1 keeps nothing. */
  lemma {:induction false} SelectOutOfRange<T>(rows: seq<T>, id: int, n: int)
    requires n >= 1 && (id < 0 || id >= n)
    ensures Select(rows, id, n) == []
  {
    if |rows| > 0 {
      SelectOutOfRange(rows[..|rows| - 1], id, n);
    }
  }

  /** Rows kept by partitions 0..m-1 together. */
  function TotalKept<T>(rows: seq<T>, n: int, m: nat): nat
    requires n >= 1
  {
    if m == 0 then 0 else TotalKept(rows, n, m - 1) + |Select(rows, m - 1, n)|
  }

  lemma {:induction false} TotalKeptLastRow<T>(rows: seq<T>, n: int, m: nat)
    requires n >= 1 && |rows| > 0
    ensures TotalKept(rows, n, m) ==
      TotalKept(rows[..|rows| - 1], n, m) + (if (|rows| - 1) % n < m then 1 else 0)
  {
    if m > 0 {
      TotalKeptLastRow(rows, n, m - 1);
    }
  }

  /** The n partitions together keep exactly as many rows as there are. */
  lemma {:induction false} PartitionSizesSum<T>(rows: seq<T>, n: int)
    requires n >= 1
    ensures TotalKept(rows, n, n) == |rows|
  {
    if |rows| == 0 {
      ZeroRowsKeepNothing(rows, n, n);
    } else {
      PartitionSizesSum(rows[..|rows| - 1], n);
      TotalKeptLastRow(rows, n, n);
    }
  }

  lemma {:induction false} ZeroRowsKeepNothing<T>(rows: seq<T>, n: int, m: nat)
    requires n >= 1 && |rows| == 0
    ensures TotalKept(rows, n, m) == 0
  {
    if m > 0 {
      ZeroRowsKeepNothing(rows, n, m - 1);
    }
  }

  /** A multiple of b leaves no remainder, whatever the signs. */
  lemma ModOfMultiple(k: int, b: int)
    requires b != 0
    ensures (k * b) % b == 0
  {
    var x := k * b;
    var q, r := x / b, x % b;
    assert x == q * b + r;
    var d := k - q;
    assert d * b == r;
    var m := if b > 0 then b else -b;
    if d >= 1 {
      MulAtLeast(d, m);
    } else if d <= -1 {
      MulAtLeast(-d, m);
    }
  }

  /** Python's a % b: congruent to a modulo b, with the sign of b. */
  function PyMod(a: int, b: int): (r: int)
    requires b != 0
    ensures b > 0 ==> 0 <= r < b
    ensures b < 0 ==> b < r <= 0
    ensures (a - r) % b == 0
  {
    if b > 0 then
      ModOfMultiple(a / b, b);
      a % b
    else
      var q := (-a) / (-b);
      assert -a == q * (-b) + (-a) % (-b);
      assert a - -((-a) % (-b)) == q * b;
      ModOfMultiple(q, b);
      -((-a) % (-b))
  }

  /**
   * The selection loop as written (its failure on the first data row is
   * AsWrittenDividesByZero): `index` starts at 0, a row is kept iff
   * `n % index == id`, and `index` then becomes `n % (index + 1)`.
   */
  function SelectAsWritten<T>(rows: seq<T>, id: int, n: int, index: int): (r: Result<seq<T>, ScriptError>)
    ensures r.Success? ==> |r.value| <= |rows|
  {
    if |rows| == 0 then Success([])
    else if index == 0 || index + 1 == 0 then Failure(ZeroDivision)
    else
      match SelectAsWritten(rows[1..], id, n, PyMod(n, index + 1))
      case Failure(e) => Failure(e)
      case Success(rest) => Success((if PyMod(n, index) == id then [rows[0]] else []) + rest)
  }

  /** The loop as written divides by zero on the very first data row. */
  lemma AsWrittenDividesByZero<T>(rows: seq<T>, id: int, n: int)
    requires |rows| > 0
    ensures SelectAsWritten(rows, id, n, 0) == Failure(ZeroDivision)
  {
  }
}
