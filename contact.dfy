/**
 * Contact-point estimation (`find_contact_y_and_x`): the lowest row of the
 * silhouette, and the floored mean column of the silhouette pixels within
 * three rows of it.
 */
module Contact {
  import opened Raster

  /** A pixel belongs to the silhouette when its opacity exceeds this. */
  const Threshold: real := 0.05

  /** Half-height of the band of rows around the contact row. */
  const Band: int := 3

  datatype ContactPoint = ContactPoint(y: int, x: int)

  /** The `ValueError` raised for a mask with no silhouette pixel. */
  datatype ContactError = EmptyMask

  predicate Hit(v: real)
  {
    v > Threshold
  }

  predicate RowHasHit(row: seq<real>)
  {
    exists c :: 0 <= c < |row| && Hit(row[c])
  }

  predicate MaskHasHit(mask: Field)
  {
    exists r :: 0 <= r < |mask| && RowHasHit(mask[r])
  }

  /** Row `r` has a silhouette pixel and no row below it has one. */
  predicate IsLowestHitRow(mask: Field, r: int)
  {
    && 0 <= r < |mask|
    && RowHasHit(mask[r])
    && forall r' :: r < r' < |mask| ==> !RowHasHit(mask[r'])
  }

  /** `np.abs(row - contact_y) <= band`. */
  predicate InBand(r: int, contactY: int): (b: bool)
    ensures r == contactY ==> b
    ensures b ==> contactY - Band <= r <= contactY + Band
  {
    -Band <= r - contactY <= Band
  }

  /** How many silhouette pixels were selected, and the sum of their columns. */
  datatype Tally = Tally(count: nat, colSum: nat)

  function Plus(s: Tally, t: Tally): Tally
  {
    Tally(s.count + t.count, s.colSum + t.colSum)
  }

  /** Every selected column is below `w`: the column sum is at most count·(w-1). */
  predicate ColumnsBelow(t: Tally, w: nat)
  {
    t.colSum + t.count <= t.count * w
  }

  lemma PlusColumnsBelow(s: Tally, t: Tally, w: nat)
    requires ColumnsBelow(s, w) && ColumnsBelow(t, w)
    ensures ColumnsBelow(Plus(s, t), w)
  {
    assert (s.count + t.count) * w == s.count * w + t.count * w;
  }

  /** The silhouette pixels of one row. */
  function RowTally(row: seq<real>): (t: Tally)
    ensures t.count > 0 <==> RowHasHit(row)
    ensures ColumnsBelow(t, |row|)
  {
    if |row| == 0 then Tally(0, 0)
    else
      var n := |row| - 1;
      var t := RowTally(row[..n]);
      assert forall c :: 0 <= c < n ==> row[..n][c] == row[c];
      WidenColumns(t, n);
      if Hit(row[n]) then Tally(t.count + 1, t.colSum + n) else t
  }

  /** Columns below n stay below n + 1, and so does one more column n. */
  lemma WidenColumns(t: Tally, n: nat)
    requires ColumnsBelow(t, n)
    ensures ColumnsBelow(t, n + 1)
    ensures ColumnsBelow(Tally(t.count + 1, t.colSum + n), n + 1)
  {
    assert t.count * (n + 1) == t.count * n + t.count;
    assert (t.count + 1) * (n + 1) == t.count * n + t.count + n + 1;
  }

  /** Every selected column lies in [lo, hi]: count·lo <= sum <= count·hi. */
  predicate Spans(t: Tally, lo: int, hi: int)
  {
    t.count * lo <= t.colSum <= t.count * hi
  }

  lemma SpansPlus(s: Tally, t: Tally, lo: int, hi: int)
    requires Spans(s, lo, hi) && Spans(t, lo, hi)
    ensures Spans(Plus(s, t), lo, hi)
  {
    assert (s.count + t.count) * lo == s.count * lo + t.count * lo;
    assert (s.count + t.count) * hi == s.count * hi + t.count * hi;
  }

  /** Adding one column c of [lo, hi] keeps the tally in [lo, hi]. */
  lemma SpansStep(t: Tally, c: nat, lo: int, hi: int)
    requires Spans(t, lo, hi) && lo <= c <= hi
    ensures Spans(Tally(t.count + 1, t.colSum + c), lo, hi)
  {
    assert (t.count + 1) * lo == t.count * lo + lo;
    assert (t.count + 1) * hi == t.count * hi + hi;
  }

  /**
   * Whatever bounds enclose the silhouette columns of a row also enclose
   * the tally: it lies within the span of the hit columns.
   */
  lemma {:induction false} RowTallyWithin(row: seq<real>, lo: int, hi: int)
    requires forall c :: 0 <= c < |row| && Hit(row[c]) ==> lo <= c <= hi
    ensures Spans(RowTally(row), lo, hi)
  {
    if |row| > 0 {
      var n := |row| - 1;
      assert forall c :: 0 <= c < n ==> row[..n][c] == row[c];
      RowTallyWithin(row[..n], lo, hi);
      if Hit(row[n]) {
        SpansStep(RowTally(row[..n]), n, lo, hi);
      }
    }
  }

  /** A row without silhouette pixels tallies nothing. */
  lemma NoHitNoTally(row: seq<real>)
    requires !RowHasHit(row)
    ensures RowTally(row) == Tally(0, 0)
  {
  }

  /**
   * Turning one pixel of a row into a silhouette pixel adds exactly one to
   * the count and its column to the sum: with `NoHitNoTally`, the tally is
   * the number and the column sum of the row's pixels above 0.05.
   */
  lemma {:induction false} RowTallyAddHit(row: seq<real>, c: int, v: real)
    requires 0 <= c < |row| && !Hit(row[c]) && Hit(v)
    ensures RowTally(row[c := v]) == Tally(RowTally(row).count + 1, RowTally(row).colSum + c)
  {
    var n := |row| - 1;
    var w := row[c := v];
    var t := RowTally(row[..n]);
    if c < n {
      assert w[..n] == row[..n][c := v];
      assert w[n] == row[n];
      RowTallyAddHit(row[..n], c, v);
    } else {
      assert w[..n] == row[..n];
      assert RowTally(row) == t;
    }
  }

  /** The silhouette pixels of rows 0 .. n-1 (`np.where(mask > 0.05)`). */
  function AllTally(mask: Field, n: nat): (t: Tally)
    requires Rectangular(mask) && n <= |mask|
    ensures t.count > 0 <==> exists r :: 0 <= r < n && RowHasHit(mask[r])
    ensures ColumnsBelow(t, Width(mask))
  {
    if n == 0 then Tally(0, 0)
    else
      var s := AllTally(mask, n - 1);
      var t := RowTally(mask[n - 1]);
      PlusColumnsBelow(s, t, Width(mask));
      Plus(s, t)
  }

  /** The silhouette pixels of the rows 0 .. n-1 that lie in the band. */
  function BandTally(mask: Field, contactY: int, n: nat): (t: Tally)
    requires Rectangular(mask) && n <= |mask|
    ensures t.count > 0 <==> exists r :: 0 <= r < n && InBand(r, contactY) && RowHasHit(mask[r])
    ensures ColumnsBelow(t, Width(mask))
  {
    if n == 0 then Tally(0, 0)
    else
      var s := BandTally(mask, contactY, n - 1);
      if InBand(n - 1, contactY) then
        var t := RowTally(mask[n - 1]);
        PlusColumnsBelow(s, t, Width(mask));
        Plus(s, t)
      else s
  }

  /** Pixel (r, c) is a silhouette pixel of the band around `contactY`. */
  predicate BandHit(mask: Field, contactY: int, r: int, c: int)
  {
    0 <= r < |mask| && InBand(r, contactY) && 0 <= c < |mask[r]| && Hit(mask[r][c])
  }

  /** Bounds enclosing the band's silhouette columns enclose the band tally. */
  lemma {:induction false} BandTallyWithin(mask: Field, contactY: int, n: nat, lo: int, hi: int)
    requires Rectangular(mask) && n <= |mask|
    requires forall r, c :: r < n && BandHit(mask, contactY, r, c) ==> lo <= c <= hi
    ensures Spans(BandTally(mask, contactY, n), lo, hi)
  {
    if n > 0 {
      BandTallyWithin(mask, contactY, n - 1, lo, hi);
      if InBand(n - 1, contactY) {
        var row := mask[n - 1];
        forall c | 0 <= c < |row| && Hit(row[c])
          ensures lo <= c <= hi
        {
          assert BandHit(mask, contactY, n - 1, c);
        }
        RowTallyWithin(row, lo, hi);
        SpansPlus(BandTally(mask, contactY, n - 1), RowTally(row), lo, hi);
      }
    }
  }

  /**
   * Turning one pixel into a silhouette pixel adds exactly one to the band
   * count and its column to the band sum when its row lies in the band, and
   * changes nothing otherwise: with the emptiness clause of `BandTally`, the
   * band tally is the number and the column sum of the band's pixels above
   * 0.05.
   */
  lemma {:induction false} BandTallyAddHit(mask: Field, contactY: int, n: nat, r: int, c: int, v: real)
    requires Rectangular(mask) && n <= |mask|
    requires 0 <= r < |mask| && 0 <= c < |mask[r]| && !Hit(mask[r][c]) && Hit(v)
    ensures Rectangular(mask[r := mask[r][c := v]])
    ensures var t := BandTally(mask, contactY, n);
            BandTally(mask[r := mask[r][c := v]], contactY, n)
            == if r < n && InBand(r, contactY) then Tally(t.count + 1, t.colSum + c) else t
  {
    SetPixelKeepsShape(mask, r, c, v);
    RowTallyAddHit(mask[r], c, v);
    BandTallyReplaceRow(mask, mask[r := mask[r][c := v]], contactY, n, r, c);
  }

  /** Replacing row r by one that tallies one more pixel, at column c. */
  lemma {:induction false} BandTallyReplaceRow(mask: Field, m2: Field, contactY: int, n: nat, r: int, c: nat)
    requires Rectangular(mask) && Rectangular(m2) && |m2| == |mask| && Width(m2) == Width(mask)
    requires n <= |mask| && 0 <= r < |mask|
    requires forall i :: 0 <= i < |mask| && i != r ==> m2[i] == mask[i]
    requires RowTally(m2[r]) == Tally(RowTally(mask[r]).count + 1, RowTally(mask[r]).colSum + c)
    ensures var t := BandTally(mask, contactY, n);
            BandTally(m2, contactY, n)
            == if r < n && InBand(r, contactY) then Tally(t.count + 1, t.colSum + c) else t
  {
    if n > 0 {
      BandTallyReplaceRow(mask, m2, contactY, n - 1, r, c);
      if n - 1 != r {
        assert m2[n - 1] == mask[n - 1];
      }
    }
  }

  lemma SetPixelKeepsShape(mask: Field, r: int, c: int, v: real)
    requires Rectangular(mask) && 0 <= r < |mask| && 0 <= c < |mask[r]|
    ensures Rectangular(mask[r := mask[r][c := v]])
    ensures Width(mask[r := mask[r][c := v]]) == Width(mask)
  {
    var m2 := mask[r := mask[r][c := v]];
    assert |m2[0]| == |mask[0]|;
  }

  /** The largest row index below `n` holding a silhouette pixel (`np.max(ys)`). */
  function LowestHitRow(mask: Field, n: nat): (r: Option<nat>)
    requires n <= |mask|
    ensures r.None? <==> forall r' :: 0 <= r' < n ==> !RowHasHit(mask[r'])
    ensures r.Some? ==> r.value < n && RowHasHit(mask[r.value])
    ensures r.Some? ==> forall r' :: r.value < r' < n ==> !RowHasHit(mask[r'])
  {
    if n == 0 then None
    else if RowTally(mask[n - 1]).count > 0 then Some(n - 1)
    else LowestHitRow(mask, n - 1)
  }

  /**
   * `int(np.mean(cols))` of the tallied columns: the floor of their mean,
   * hence a column of the mask when every column is below `w`.
   */
  function FlooredMean(t: Tally, w: nat): (m: nat)
    requires t.count > 0 && ColumnsBelow(t, w)
    ensures t.count * m <= t.colSum < t.count * m + t.count
    ensures m < w
  {
    var m := t.colSum / t.count;
    assert t.colSum < t.count * w;
    assert m * t.count <= t.colSum;
    m
  }

  /**
   * `find_contact_y_and_x`: fails on a mask without silhouette pixels,
   * otherwise returns the lowest silhouette row and a column inside the mask.
   */
  function FindContact(mask: Field): (res: Result<ContactPoint, ContactError>)
    requires Rectangular(mask)
    ensures res.Failure? <==> !MaskHasHit(mask)
    ensures res.Success? ==> IsLowestHitRow(mask, res.value.y)
    ensures res.Success? ==> 0 <= res.value.x < Width(mask)
  {
    var all := AllTally(mask, |mask|);
    if all.count == 0 then Failure(EmptyMask)
    else
      var lowest := LowestHitRow(mask, |mask|);
      var contactY := lowest.value;
      var band := BandTally(mask, contactY, |mask|);
      var contactX :=
        if band.count > 0 then FlooredMean(band, Width(mask))
        else FlooredMean(all, Width(mask));
      Success(ContactPoint(contactY, contactX))
  }

  /** The band always holds the contact row itself: the fallback to all pixels is dead code. */
  lemma BandNeverEmpty(mask: Field, contactY: int)
    requires Rectangular(mask) && IsLowestHitRow(mask, contactY)
    ensures BandTally(mask, contactY, |mask|).count > 0
  {
    assert InBand(contactY, contactY);
  }

  /**
   * The contact column is the floor of the mean column of the silhouette
   * pixels in the band (never the fallback).
   */
  lemma ContactXIsFlooredBandMean(mask: Field, p: ContactPoint)
    requires Rectangular(mask) && FindContact(mask) == Success(p)
    ensures var band := BandTally(mask, p.y, |mask|);
            && band.count > 0
            && band.count * p.x <= band.colSum < band.count * p.x + band.count
  {
    BandNeverEmpty(mask, p.y);
    var band := BandTally(mask, p.y, |mask|);
    assert p.x == FlooredMean(band, Width(mask));
  }

  /**
   * The contact column lies between the leftmost and the rightmost column of
   * the band's silhouette pixels: any bounds that enclose those columns
   * enclose it.
   */
  lemma ContactXWithinBand(mask: Field, p: ContactPoint, lo: int, hi: int)
    requires Rectangular(mask) && FindContact(mask) == Success(p)
    requires forall r, c :: BandHit(mask, p.y, r, c) ==> lo <= c <= hi
    ensures lo <= p.x <= hi
  {
    ContactXIsFlooredBandMean(mask, p);
    BandTallyWithin(mask, p.y, |mask|, lo, hi);
    var band := BandTally(mask, p.y, |mask|);
    FloorWithin(band.count, band.colSum, p.x, lo, hi);
  }

  /**
   * Both sides of the contact column hold a silhouette pixel of the band:
   * one at or left of it, and one at or right of it.
   */
  lemma ContactXBetweenBandHits(mask: Field, p: ContactPoint)
    requires Rectangular(mask) && FindContact(mask) == Success(p)
    ensures exists r, c :: BandHit(mask, p.y, r, c) && c <= p.x
    ensures exists r, c :: BandHit(mask, p.y, r, c) && p.x <= c
  {
    if forall r, c :: BandHit(mask, p.y, r, c) ==> p.x + 1 <= c {
      ContactXWithinBand(mask, p, p.x + 1, Width(mask));
      assert false;
    }
    if forall r, c :: BandHit(mask, p.y, r, c) ==> c <= p.x - 1 {
      ContactXWithinBand(mask, p, 0, p.x - 1);
      assert false;
    }
  }

  /** A floor m of sum/k lies in [lo, hi] when sum lies in [k·lo, k·hi]. */
  lemma FloorWithin(k: nat, sum: int, m: int, lo: int, hi: int)
    requires k > 0 && k * m <= sum < k * m + k
    requires k * lo <= sum <= k * hi
    ensures lo <= m <= hi
  {
    MulLeCancel(k, m, hi);
    assert k * (m + 1) == k * m + k;
    MulLtCancel(k, lo, m + 1);
  }

  lemma MulLeCancel(k: nat, a: int, b: int)
    requires k > 0
    ensures k * a <= k * b ==> a <= b
  {
    if a > b {
      MulLe(k, b + 1, a);
      assert k * (b + 1) == k * b + k;
    }
  }

  lemma MulLtCancel(k: nat, a: int, b: int)
    requires k > 0
    ensures k * a < k * b ==> a < b
  {
    if a >= b {
      MulLe(k, b, a);
    }
  }

  lemma MulLe(k: nat, a: int, b: int)
    requires a <= b
    ensures k * a <= k * b
  {
    assert k * b - k * a == k * (b - a);
  }

  /** Rows below the contact row add nothing to a tally: the band is rows contactY-3 .. contactY. */
  lemma {:induction false} BandEndsAtContactRow(mask: Field, contactY: int, n: nat)
    requires Rectangular(mask) && IsLowestHitRow(mask, contactY)
    requires contactY < n <= |mask|
    ensures BandTally(mask, contactY, n) == BandTally(mask, contactY, contactY + 1)
  {
    if n > contactY + 1 {
      BandEndsAtContactRow(mask, contactY, n - 1);
      var t := RowTally(mask[n - 1]);
      assert t.count == 0;
      assert t.colSum == 0;
    }
  }
}
