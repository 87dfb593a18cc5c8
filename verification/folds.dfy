/** Filters and sums over table rows — the `.filter(...).aggregate(Sum(...))`
    and `.filter(...).count()` queries of the reports. An empty selection sums
    to zero, which is also what the reports' `or Decimal('0.00')` fallback
    gives when the aggregate is NULL. */
module Folds {

  /** The rows that satisfy keep, in order. */
  function Filter<T(!new)>(rows: seq<T>, keep: T -> bool): (r: seq<T>)
    ensures |r| <= |rows|
    ensures forall i :: 0 <= i < |r| ==> keep(r[i])
  {
    if |rows| == 0 then [] else (if keep(rows[0]) then [rows[0]] else []) + Filter(rows[1..], keep)
  }

  /** A value is selected exactly when it is among the rows and is kept. */
  lemma {:induction false} FilterMembers<T(!new)>(rows: seq<T>, keep: T -> bool, x: T)
    ensures x in Filter(rows, keep) <==> x in rows && keep(x)
  {
    if |rows| > 0 {
      FilterMembers(rows[1..], keep, x);
      assert rows == [rows[0]] + rows[1..];
    }
  }

  /** Filtering distributes over concatenation. */
  lemma {:induction false} FilterAppend<T(!new)>(a: seq<T>, b: seq<T>, keep: T -> bool)
    ensures Filter(a + b, keep) == Filter(a, keep) + Filter(b, keep)
  {
    if |a| > 0 {
      assert (a + b)[0] == a[0] && (a + b)[1..] == a[1..] + b;
      FilterAppend(a[1..], b, keep);
    } else {
      assert a + b == b;
    }
  }

  /** Appending one row appends it to the selection when it is selected. */
  lemma FilterSnoc<T(!new)>(rows: seq<T>, keep: T -> bool)
    requires |rows| > 0
    ensures Filter(rows, keep)
         == Filter(rows[..|rows| - 1], keep) + (if keep(rows[|rows| - 1]) then [rows[|rows| - 1]] else [])
  {
    var n := |rows| - 1;
    assert rows == rows[..n] + [rows[n]];
    FilterAppend(rows[..n], [rows[n]], keep);
    assert [rows[n]][1..] == [];
  }

  /** The sum of amount over every row. */
  function Total<T>(rows: seq<T>, amount: T -> int): int {
    if |rows| == 0 then 0 else amount(rows[0]) + Total(rows[1..], amount)
  }

  /** The sum of amount over the rows that satisfy keep. */
  function SumOf<T>(rows: seq<T>, keep: T -> bool, amount: T -> int): int {
    if |rows| == 0 then 0 else (if keep(rows[0]) then amount(rows[0]) else 0) + SumOf(rows[1..], keep, amount)
  }

  /** The number of rows that satisfy keep. */
  function CountOf<T(!new)>(rows: seq<T>, keep: T -> bool): (n: nat)
    ensures n <= |rows|
    ensures n == |Filter(rows, keep)|
  {
    if |rows| == 0 then 0 else (if keep(rows[0]) then 1 else 0) + CountOf(rows[1..], keep)
  }

  /** Summing over a selection is totalling the filtered rows. */
  lemma {:induction false} SumIsTotalOfFilter<T(!new)>(rows: seq<T>, keep: T -> bool, amount: T -> int)
    ensures SumOf(rows, keep, amount) == Total(Filter(rows, keep), amount)
  {
    if |rows| > 0 {
      SumIsTotalOfFilter(rows[1..], keep, amount);
      var head := if keep(rows[0]) then [rows[0]] else [];
      TotalAppend(head, Filter(rows[1..], keep), amount);
    }
  }

  lemma {:induction false} TotalAppend<T>(a: seq<T>, b: seq<T>, amount: T -> int)
    ensures Total(a + b, amount) == Total(a, amount) + Total(b, amount)
  {
    if |a| > 0 {
      assert (a + b)[0] == a[0] && (a + b)[1..] == a[1..] + b;
      TotalAppend(a[1..], b, amount);
    } else {
      assert a + b == b;
    }
  }

  lemma {:induction false} SumAppend<T>(a: seq<T>, b: seq<T>, keep: T -> bool, amount: T -> int)
    ensures SumOf(a + b, keep, amount) == SumOf(a, keep, amount) + SumOf(b, keep, amount)
  {
    if |a| > 0 {
      assert (a + b)[0] == a[0] && (a + b)[1..] == a[1..] + b;
      SumAppend(a[1..], b, keep, amount);
    } else {
      assert a + b == b;
    }
  }

  /** Appending one row adds its amount when it is selected. */
  lemma SumSnoc<T>(rows: seq<T>, keep: T -> bool, amount: T -> int)
    requires |rows| > 0
    ensures SumOf(rows, keep, amount)
         == SumOf(rows[..|rows| - 1], keep, amount) + (if keep(rows[|rows| - 1]) then amount(rows[|rows| - 1]) else 0)
  {
    var n := |rows| - 1;
    assert rows == rows[..n] + [rows[n]];
    SumAppend(rows[..n], [rows[n]], keep, amount);
    assert [rows[n]][1..] == [];
  }

  /** Nothing selected sums to zero. */
  lemma {:induction false} SumOfNone<T>(rows: seq<T>, keep: T -> bool, amount: T -> int)
    requires forall i :: 0 <= i < |rows| ==> !keep(rows[i])
    ensures SumOf(rows, keep, amount) == 0
  {
    if |rows| > 0 {
      SumOfNone(rows[1..], keep, amount);
    }
  }

  /** Non-negative amounts sum to a non-negative total. */
  lemma {:induction false} SumOfNonNegative<T>(rows: seq<T>, keep: T -> bool, amount: T -> int)
    requires forall i :: 0 <= i < |rows| ==> amount(rows[i]) >= 0
    ensures SumOf(rows, keep, amount) >= 0
  {
    if |rows| > 0 {
      SumOfNonNegative(rows[1..], keep, amount);
    }
  }

  /** A selection split by a disjoint predicate pair sums to the two parts. */
  lemma {:induction false} SumSplit<T>(rows: seq<T>, keep: T -> bool, p: T -> bool, q: T -> bool, amount: T -> int)
    requires forall x :: keep(x) == (p(x) || q(x))
    requires forall x :: !(p(x) && q(x))
    ensures SumOf(rows, keep, amount) == SumOf(rows, p, amount) + SumOf(rows, q, amount)
  {
    if |rows| > 0 {
      SumSplit(rows[1..], keep, p, q, amount);
    }
  }

  /** A narrower selection of non-negative amounts sums to no more. */
  lemma {:induction false} SumMonotone<T>(rows: seq<T>, narrow: T -> bool, wide: T -> bool, amount: T -> int)
    requires forall x :: narrow(x) ==> wide(x)
    requires forall i :: 0 <= i < |rows| ==> amount(rows[i]) >= 0
    ensures SumOf(rows, narrow, amount) <= SumOf(rows, wide, amount)
  {
    if |rows| > 0 {
      SumMonotone(rows[1..], narrow, wide, amount);
    }
  }

  /** Replacing one row changes the sum by the difference of the two rows'
      contributions. */
  lemma {:induction false} SumUpdate<T>(rows: seq<T>, i: nat, x: T, keep: T -> bool, amount: T -> int)
    requires i < |rows|
    ensures SumOf(rows[i := x], keep, amount) ==
      SumOf(rows, keep, amount)
      - (if keep(rows[i]) then amount(rows[i]) else 0)
      + (if keep(x) then amount(x) else 0)
  {
    if i > 0 {
      assert rows[i := x][1..] == rows[1..][i - 1 := x];
      SumUpdate(rows[1..], i - 1, x, keep, amount);
    } else {
      assert rows[i := x][1..] == rows[1..];
    }
  }
}
