/** Properties of the cleaning rule. */
module CleaningFacts {
  import opened Wrappers
  import opened Seqs
  import opened Frames
  import opened Cleaning

  /** Completeness and soundness together: a row is in the cleaned table iff it was in the input, in range and complete. */
  lemma CleanMembership(f: Frame, lo: real, hi: real, row: Row)
    requires Clean(f, lo, hi).Success?
    ensures row in Clean(f, lo, hi).value.rows <==>
              row in f.rows && Between(Price(row), lo, hi) && Complete(row, f.columns)
  {
    FilterMembership(Keep(lo, hi, f.columns), f.rows, row);
  }

  /** The cleaned table is an order-preserving subsequence of the input. */
  lemma CleanIsSubsequence(f: Frame, lo: real, hi: real)
    requires Clean(f, lo, hi).Success?
    ensures IsSubsequence(Clean(f, lo, hi).value.rows, f.rows)
  {
    FilterIsSubsequence(Keep(lo, hi, f.columns), f.rows);
  }

  /** Row counts never grow: |cleaned| <= |price-filtered| <= |input|. */
  lemma CleanCounts(f: Frame, lo: real, hi: real)
    requires Clean(f, lo, hi).Success?
    ensures DropOutliers(f, lo, hi).Success?
    ensures |Clean(f, lo, hi).value.rows| <= |DropOutliers(f, lo, hi).value.rows| <= |f.rows|
  {
  }

  /** A row whose price is missing is already gone after the price stage. */
  lemma MissingPriceDroppedEarly(f: Frame, lo: real, hi: real, row: Row)
    requires DropOutliers(f, lo, hi).Success?
    requires Price(row) == Missing
    ensures row !in DropOutliers(f, lo, hi).value.rows
  {
    FilterMembership(InRange(lo, hi), f.rows, row);
  }

  /** With the bounds the wrong way round nothing is between them, so the result is empty. */
  lemma InvertedBoundsGiveEmpty(f: Frame, lo: real, hi: real)
    requires lo > hi
    requires Clean(f, lo, hi).Success?
    ensures DropOutliers(f, lo, hi).value.rows == []
    ensures Clean(f, lo, hi).value.rows == []
  {
    FilterKeepsNone(InRange(lo, hi), f.rows);
    FilterKeepsNone(Keep(lo, hi, f.columns), f.rows);
  }

  /** A complete row priced exactly at either bound is kept: both ends of the interval are closed. */
  lemma BoundsAreInclusive(f: Frame, lo: real, hi: real, row: Row)
    requires Clean(f, lo, hi).Success?
    requires lo <= hi
    requires row in f.rows && Complete(row, f.columns)
    requires Price(row) == Num(lo) || Price(row) == Num(hi)
    ensures row in Clean(f, lo, hi).value.rows
  {
    CleanMembership(f, lo, hi, row);
  }

  /** Cleaning an already cleaned table with the same bounds changes nothing. */
  lemma CleanIdempotent(f: Frame, lo: real, hi: real)
    requires Clean(f, lo, hi).Success?
    ensures Clean(Clean(f, lo, hi).value, lo, hi) == Clean(f, lo, hi)
  {
    var g := Clean(f, lo, hi).value;
    assert !HasTextPrice(g.rows) by {
      forall i | 0 <= i < |g.rows| ensures !Price(g.rows[i]).Text? {
        assert Between(Price(g.rows[i]), lo, hi);
      }
    }
    FilterKeepsAll(Keep(lo, hi, f.columns), g.rows);
  }

  /** Dropping outliers and dropping incomplete rows commute. */
  lemma StagesCommute(rows: seq<Row>, columns: seq<string>, lo: real, hi: real)
    ensures DropNa(Filter(InRange(lo, hi), rows), columns) == Filter(InRange(lo, hi), DropNa(rows, columns))
  {
    FilterFuse(IsComplete(columns), InRange(lo, hi), Keep(lo, hi, columns), rows);
    FilterFuse(InRange(lo, hi), IsComplete(columns), Keep(lo, hi, columns), rows);
  }

  /** Cleaning keeps the frame's shape: every kept row still has exactly the frame's columns. */
  lemma CleanPreservesWellFormed(f: Frame, lo: real, hi: real)
    requires WellFormed(f)
    requires Clean(f, lo, hi).Success?
    ensures WellFormed(Clean(f, lo, hi).value)
  {
    var g := Clean(f, lo, hi).value;
    forall i | 0 <= i < |g.rows| ensures g.rows[i].Keys == set c | c in g.columns {
      CleanMembership(f, lo, hi, g.rows[i]);
    }
  }

  /** Scenario: the only in-range row has a missing value, so nothing survives. */
  lemma ScenarioAllDropped()
    ensures Clean(Frame(["price", "x"],
                        [map["price" := Num(5.0), "x" := Num(1.0)],
                         map["price" := Num(15.0), "x" := Missing],
                         map["price" := Num(25.0), "x" := Num(2.0)]]), 10.0, 20.0)
            == Success(Frame(["price", "x"], []))
  {
    var rows := [map["price" := Num(5.0), "x" := Num(1.0)],
                 map["price" := Num(15.0), "x" := Missing],
                 map["price" := Num(25.0), "x" := Num(2.0)]];
    assert !Complete(rows[1], ["price", "x"]) by { assert "x" in ["price", "x"]; }
    FilterKeepsNone(Keep(10.0, 20.0, ["price", "x"]), rows);
  }

  /** Scenario: in-range complete rows come through unchanged and in order. */
  lemma ScenarioAllKept()
    ensures Clean(Frame(["price", "x"],
                        [map["price" := Num(12.0), "x" := Num(1.0)],
                         map["price" := Num(18.0), "x" := Num(2.0)]]), 10.0, 20.0)
            == Success(Frame(["price", "x"],
                             [map["price" := Num(12.0), "x" := Num(1.0)],
                              map["price" := Num(18.0), "x" := Num(2.0)]]))
  {
    var rows := [map["price" := Num(12.0), "x" := Num(1.0)],
                 map["price" := Num(18.0), "x" := Num(2.0)]];
    FilterKeepsAll(Keep(10.0, 20.0, ["price", "x"]), rows);
  }

  /** A row with no cell for a header column counts as incomplete and is dropped. */
  lemma AbsentCellIsMissing()
    ensures Clean(Frame(["price", "x"], [map["price" := Num(15.0)]]), 10.0, 20.0)
            == Success(Frame(["price", "x"], []))
  {
    var rows: seq<Row> := [map["price" := Num(15.0)]];
    assert !Complete(rows[0], ["price", "x"]) by { assert "x" in ["price", "x"]; }
    FilterKeepsNone(Keep(10.0, 20.0, ["price", "x"]), rows);
  }
}
