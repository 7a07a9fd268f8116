/**
  The cleaning rule of the basic_cleaning step: keep the rows whose price
  lies between the two bounds (inclusive), then drop every row that still
  has a missing value.
 */
module Cleaning {
  import opened Wrappers
  import opened Seqs
  import opened Frames

  /** Why the price stage cannot run. */
  datatype Error =
    | MissingPriceColumn  // the frame has no "price" column
    | NonNumericPrice     // a price is text, which cannot be compared with the numeric bounds

  /** The per-row test of the price stage. */
  function InRange(lo: real, hi: real): Row -> bool
  {
    r => Between(Price(r), lo, hi)
  }

  /** The per-row test of the missing-value stage. */
  function IsComplete(columns: seq<string>): Row -> bool
  {
    r => Complete(r, columns)
  }

  /** The single-pass reference rule: a row is kept iff it is in range and complete. */
  function Keep(lo: real, hi: real, columns: seq<string>): Row -> bool
  {
    r => Between(Price(r), lo, hi) && Complete(r, columns)
  }

  /** The boolean mask the price stage computes, one entry per row. */
  function PriceMask(rows: seq<Row>, lo: real, hi: real): (idx: seq<bool>)
    ensures |idx| == |rows|
    ensures Select(rows, idx) == Filter(InRange(lo, hi), rows)
  {
    var idx := seq(|rows|, i requires 0 <= i < |rows| => Between(Price(rows[i]), lo, hi));
    SelectByMask(InRange(lo, hi), rows, idx);
    idx
  }

  predicate HasTextPrice(rows: seq<Row>)
  {
    exists i :: 0 <= i < |rows| && Price(rows[i]).Text?
  }

  /** Stage one: select the rows whose price is within [lo, hi] by a boolean mask. */
  function DropOutliers(f: Frame, lo: real, hi: real): (r: Result<Frame, Error>)
    ensures r.Failure? <==> PriceColumn !in f.columns || HasTextPrice(f.rows)
    ensures r.Failure? ==> r.error == (if PriceColumn !in f.columns then MissingPriceColumn else NonNumericPrice)
    ensures r.Success? ==> r.value.columns == f.columns && r.value.rows == Filter(InRange(lo, hi), f.rows)
  {
    if PriceColumn !in f.columns then Failure(MissingPriceColumn)
    else if HasTextPrice(f.rows) then Failure(NonNumericPrice)
    else
      Success(Frame(f.columns, Select(f.rows, PriceMask(f.rows, lo, hi))))
  }

  /**
    Stage two: drop every row with a missing value in any of the header's
    columns; the complete rows all stay, in their original order.
   */
  function DropNa(rows: seq<Row>, columns: seq<string>): (r: seq<Row>)
    ensures forall i :: 0 <= i < |r| ==> Complete(r[i], columns)
    ensures forall x :: x in r <==> x in rows && Complete(x, columns)
    ensures IsSubsequence(r, rows)
  {
    FilterMembershipAll(IsComplete(columns), rows);
    FilterIsSubsequence(IsComplete(columns), rows);
    Filter(IsComplete(columns), rows)
  }

  /**
    Stage two as the in-place operation it is: the complete rows are moved,
    in order, to the front of `a`, and their number is returned.
   */
  method DropNaInPlace(a: array<Row>, columns: seq<string>) returns (n: nat)
    modifies a
    ensures n <= a.Length
    ensures a[..n] == DropNa(old(a[..]), columns)
    ensures a[n..] == old(a[n..])
  {
    ghost var original := a[..];
    n := 0;
    var i := 0;
    while i < a.Length
      invariant n <= i <= a.Length
      invariant a[..n] == DropNa(original[..i], columns)
      invariant forall k :: n <= k < a.Length ==> a[k] == original[k]
    {
      assert original[..i + 1] == original[..i] + [original[i]];
      FilterSnoc(IsComplete(columns), original[..i], original[i]);
      if Complete(a[i], columns) {
        a[n] := a[i];
        n := n + 1;
      }
      i := i + 1;
    }
    assert original[..i] == original;
  }

  /** The whole rule: stage one, then stage two on what stage one kept. */
  function Clean(f: Frame, lo: real, hi: real): (r: Result<Frame, Error>)
    ensures r.Failure? <==> PriceColumn !in f.columns || HasTextPrice(f.rows)
    ensures r.Success? ==> r.value.columns == f.columns
    ensures r.Success? ==> r.value.rows == Filter(Keep(lo, hi, f.columns), f.rows)
    ensures r.Success? ==> forall i :: 0 <= i < |r.value.rows| ==>
              Between(Price(r.value.rows[i]), lo, hi) && Complete(r.value.rows[i], f.columns)
  {
    match DropOutliers(f, lo, hi)
    case Failure(e) => Failure(e)
    case Success(g) =>
      FilterFuse(IsComplete(f.columns), InRange(lo, hi), Keep(lo, hi, f.columns), f.rows);
      Success(Frame(g.columns, DropNa(g.rows, g.columns)))
  }
}

