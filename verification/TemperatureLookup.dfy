/** RTD calibration tables and the search that turns raw ADC counts into degrees. */
module TemperatureLookup {

  datatype Row = Row(degrees: nat, count: nat)

  /** Nothing about a table's order is checked when it is loaded, so nothing is assumed here. */
  type Table = t: seq<Row> | 0 < |t| witness [Row(32, 1706)]

  const OUT_OF_RANGE := -1

  predicate Brackets(t: Table, raw: int, i: int) {
    0 <= i < |t| - 1 && t[i].count <= raw < t[i + 1].count
  }

  /**
   The first row at or after `from` whose count is at most `raw` while the next row's is larger.
   The discrete intermediate value argument is the contract: such a row lies before the last one.
   */
  function FirstBracket(t: Table, raw: int, from: nat): (i: nat)
    requires from < |t| && t[from].count <= raw < t[|t| - 1].count
    ensures from <= i && Brackets(t, raw, i)
    ensures forall k | from <= k < i :: !Brackets(t, raw, k)
    decreases |t| - from
  {
    if raw < t[from + 1].count then from else FirstBracket(t, raw, from + 1)
  }

  predicate InRange(t: Table, raw: int) {
    t[0].count <= raw <= t[|t| - 1].count
  }

  function Lookup(t: Table, raw: int): int {
    if !InRange(t, raw) then OUT_OF_RANGE
    else if raw == t[0].count then t[0].degrees
    else if raw == t[|t| - 1].count then t[|t| - 1].degrees
    else t[FirstBracket(t, raw, 0)].degrees
  }

  /**
   The search of the source, reading entry `i + 1` without a bound on it: every index below is
   proved in bounds, and the search never ends without a row.
   */
  method LookupTempFromRawCounts(t: Table, raw: int) returns (temp: int)
    ensures temp == Lookup(t, raw)
  {
    temp := OUT_OF_RANGE;
    if raw < t[0].count || raw > t[|t| - 1].count {
      temp := OUT_OF_RANGE;
    } else if raw == t[0].count {
      temp := t[0].degrees;
    } else if raw == t[|t| - 1].count {
      temp := t[|t| - 1].degrees;
    } else {
      var found := false;
      var i := 0;
      while i < |t| && !found
        invariant 0 <= i <= |t|
        invariant !found ==> i < |t| && t[i].count <= raw
        invariant !found ==> FirstBracket(t, raw, i) == FirstBracket(t, raw, 0)
        invariant found ==> temp == t[FirstBracket(t, raw, 0)].degrees
      {
        if raw >= t[i].count && raw < t[i + 1].count {
          found := true;
          temp := t[i].degrees;
        }
        i := i + 1;
      }
    }
  }

  /** For any table at all, sorted or not, an interior input has a bracketing row. */
  lemma EveryInteriorCountIsBracketed(t: Table, raw: int)
    requires t[0].count < raw < t[|t| - 1].count
    ensures exists i :: Brackets(t, raw, i) && Lookup(t, raw) == t[i].degrees
  {
    var i := FirstBracket(t, raw, 0);
    assert Brackets(t, raw, i);
  }

  ghost predicate CountsNonDecreasing(t: Table) {
    forall i, j | 0 <= i <= j < |t| :: t[i].count <= t[j].count
  }

  ghost predicate DegreesNonDecreasing(t: Table) {
    forall i, j | 0 <= i <= j < |t| :: t[i].degrees <= t[j].degrees
  }

  ghost predicate CountsIncreasing(t: Table) {
    forall i, j | 0 <= i < j < |t| :: t[i].count < t[j].count
  }

  ghost predicate DegreesIncreasing(t: Table) {
    forall i, j | 0 <= i < j < |t| :: t[i].degrees < t[j].degrees
  }

  /** Row `i` is the last row whose count is at most `raw`. */
  ghost predicate LastRowAtMost(t: Table, raw: int, i: int) {
    && 0 <= i < |t| && t[i].count <= raw
    && forall k | i < k < |t| :: raw < t[k].count
  }

  lemma LookupIsFloor(t: Table, raw: int) returns (i: nat)
    requires CountsNonDecreasing(t)
    requires t[0].count < raw < t[|t| - 1].count
    ensures LastRowAtMost(t, raw, i) && Lookup(t, raw) == t[i].degrees
  {
    i := FirstBracket(t, raw, 0);
  }

  lemma LookupIsMonotone(t: Table, low: int, high: int)
    requires CountsNonDecreasing(t) && DegreesNonDecreasing(t)
    requires InRange(t, low) && InRange(t, high) && low <= high
    ensures Lookup(t, low) <= Lookup(t, high)
  {
    if t[0].count < low && high < t[|t| - 1].count {
      var i := LookupIsFloor(t, low);
      var j := LookupIsFloor(t, high);
      assert i <= j;
    }
  }

  /** Rows that share a count share their temperature. */
  ghost predicate CountsDetermineDegrees(t: Table) {
    forall i, j | 0 <= i < |t| && 0 <= j < |t| && t[i].count == t[j].count :: t[i].degrees == t[j].degrees
  }

  lemma RowInverted(t: Table, i: nat)
    requires CountsNonDecreasing(t) && CountsDetermineDegrees(t) && i < |t|
    ensures Lookup(t, t[i].count) == t[i].degrees
  {
    if t[0].count < t[i].count < t[|t| - 1].count {
      var row := LookupIsFloor(t, t[i].count);
      assert i <= row;
    }
  }

  /** The exact condition for looking up a row's own count to give its own temperature, row by row. */
  lemma LookupInvertsRowsIffCountsDetermineDegrees(t: Table)
    requires CountsNonDecreasing(t)
    ensures (forall i | 0 <= i < |t| :: Lookup(t, t[i].count) == t[i].degrees) <==> CountsDetermineDegrees(t)
  {
    if CountsDetermineDegrees(t) {
      forall i | 0 <= i < |t| ensures Lookup(t, t[i].count) == t[i].degrees {
        RowInverted(t, i);
      }
    }
  }

  /** So strictly increasing counts suffice, whatever the temperatures. */
  lemma IncreasingCountsInvertRows(t: Table, i: nat)
    requires CountsIncreasing(t) && i < |t|
    ensures Lookup(t, t[i].count) == t[i].degrees
  {
    assert forall j, k | 0 <= j < |t| && 0 <= k < |t| && t[j].count == t[k].count :: !(j < k) && !(k < j);
    RowInverted(t, i);
  }

  /** A table with distinct temperatures inverts exactly on its own rows iff its counts never repeat. */
  lemma LookupInvertsRowsIffCountsIncrease(t: Table)
    requires CountsNonDecreasing(t) && DegreesIncreasing(t)
    ensures (forall i | 0 <= i < |t| :: Lookup(t, t[i].count) == t[i].degrees) <==> CountsIncreasing(t)
  {
    LookupInvertsRowsIffCountsDetermineDegrees(t);
    if CountsIncreasing(t) {
      forall i | 0 <= i < |t| ensures Lookup(t, t[i].count) == t[i].degrees {
        IncreasingCountsInvertRows(t, i);
      }
    } else {
      var i, j :| 0 <= i < j < |t| && t[i].count >= t[j].count;
      assert t[i].count == t[j].count && t[i].degrees != t[j].degrees;
    }
  }

  /** Outside the table there is no temperature; at its ends it is that of the row. */
  lemma LookupAtTheEnds(t: Table, raw: int)
    ensures Lookup(t, raw) == -1 <==> raw < t[0].count || t[|t| - 1].count < raw
    ensures t[0].count <= t[|t| - 1].count ==> Lookup(t, t[0].count) == t[0].degrees
    ensures t[0].count < t[|t| - 1].count ==> Lookup(t, t[|t| - 1].count) == t[|t| - 1].degrees
  {
  }
}
