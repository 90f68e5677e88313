/**
 The coverage test of the security camera: the foreground mask produced by
 background subtraction is normalised to [0, 1] per pixel, summed, and the
 frame counts as "motion" when that sum is strictly greater than a tenth of
 the number of pixels.

 The source computes this in floating point (`mask / 255`, `h * w * 0.1`).
 Here the same comparison is stated exactly over integers, scaled by 2550,
 and proved equal to the exact real-valued reading of the source expression.
 */
module Coverage {

  /** The value an 8-bit foreground mask uses for "foreground". */
  const MaskMax: int := 255

  /** The threshold rate 0.1, as the fraction RateNum / RateDen. */
  const RateNum: int := 1
  const RateDen: int := 10

  /** The threshold rate as an exact real (Dafny reals are rationals). */
  const Rate: real := 0.1

  /** Number of columns of a row-major grid (0 for a grid with no rows). */
  function Width(m: seq<seq<int>>): nat
  {
    if |m| == 0 then 0 else |m[0]|
  }

  /** Every row has the same length. */
  predicate Rectangular(m: seq<seq<int>>)
  {
    forall i :: 0 <= i < |m| ==> |m[i]| == Width(m)
  }

  /** Every entry of a row is a valid 8-bit mask value. */
  predicate InRange(r: seq<int>)
  {
    forall k :: 0 <= k < |r| ==> 0 <= r[k] <= MaskMax
  }

  /** A well-formed single-channel 8-bit mask of height |m| and width Width(m). */
  predicate IsMask(m: seq<seq<int>>)
  {
    Rectangular(m) && forall i :: 0 <= i < |m| ==> InRange(m[i])
  }

  type Mask = m: seq<seq<int>> | IsMask(m) witness []

  /** Number of pixels of the mask, `height * width`. */
  function Pixels(m: seq<seq<int>>): nat
  {
    |m| * Width(m)
  }

  /** Sum of the raw entries of one row. */
  function RowSum(r: seq<int>): (s: int)
    ensures InRange(r) ==> 0 <= s <= MaskMax * |r|
  {
    if |r| == 0 then 0 else r[0] + RowSum(r[1..])
  }

  /** Sum of all raw entries of a grid, `mask.sum()`: between 0 and 255 per entry. */
  function Sum(m: seq<seq<int>>): (s: int)
    ensures (forall i :: 0 <= i < |m| ==> InRange(m[i])) ==> 0 <= s <= MaskMax * Cells(m)
  {
    if |m| == 0 then 0 else RowSum(m[0]) + Sum(m[1..])
  }

  /**
   The detection decision, exact over integers:
   sum(mask) / 255 > h * w * 1/10, multiplied through by 255 * 10.
   It agrees, in both directions, with the source's test read over exact
   reals, which divides every entry by 255 before summing.
   */
  predicate Detects(m: Mask)
    ensures Detects(m) <==> CoverageAboveRate(m)
  {
    NormSumScales(m);
    var s := Sum(m) as real;
    var n := Pixels(m) as real;
    assert RateDen * Sum(m) > RateNum * MaskMax * Pixels(m) <==> 10.0 * s > 255.0 * n;
    assert CoverageAboveRate(m) <==> s / 255.0 > n * 0.1;
    RateDen * Sum(m) > RateNum * MaskMax * Pixels(m)
  }

  // ---------------------------------------------------------------------
  // Reference definition: the source's expression read over exact reals
  // ---------------------------------------------------------------------

  /** Sum of one row after dividing every entry by 255. */
  function NormRowSum(r: seq<int>): real
  {
    if |r| == 0 then 0.0 else (r[0] as real) / (MaskMax as real) + NormRowSum(r[1..])
  }

  /** Sum of the whole grid after dividing every entry by 255. */
  function NormSum(m: seq<seq<int>>): real
  {
    if |m| == 0 then 0.0 else NormRowSum(m[0]) + NormSum(m[1..])
  }

  /** The source's test, `(mask / 255).sum() > h * w * 0.1`, in exact arithmetic. */
  predicate CoverageAboveRate(m: seq<seq<int>>)
  {
    NormSum(m) > (Pixels(m) as real) * Rate
  }

  lemma {:induction false} NormRowSumScales(r: seq<int>)
    ensures NormRowSum(r) == (RowSum(r) as real) / (MaskMax as real)
    decreases |r|
  {
    if |r| > 0 {
      NormRowSumScales(r[1..]);
    }
  }

  /** Dividing each entry by 255 and summing equals summing and dividing once. */
  lemma {:induction false} NormSumScales(m: seq<seq<int>>)
    ensures NormSum(m) == (Sum(m) as real) / (MaskMax as real)
    decreases |m|
  {
    if |m| > 0 {
      NormRowSumScales(m[0]);
      NormSumScales(m[1..]);
    }
  }

  // ---------------------------------------------------------------------
  // Cells: the pixel count of a rectangular grid, computed row by row
  // ---------------------------------------------------------------------

  /** Total number of entries, row by row. */
  function Cells(m: seq<seq<int>>): nat
  {
    if |m| == 0 then 0 else |m[0]| + Cells(m[1..])
  }

  /** On a rectangular grid the row-by-row count is `height * width`. */
  lemma {:induction false} CellsOfRectangular(m: seq<seq<int>>)
    requires Rectangular(m)
    ensures Cells(m) == Pixels(m)
    decreases |m|
  {
    if |m| > 0 {
      var tail := m[1..];
      assert Rectangular(tail) by {
        if |tail| > 0 {
          assert Width(tail) == |m[1]| == Width(m);
          assert forall i :: 0 <= i < |tail| ==> tail[i] == m[i + 1];
        }
      }
      CellsOfRectangular(tail);
      if |tail| > 0 {
        assert Width(tail) == Width(m);
      } else {
        assert Pixels(tail) == 0;
      }
      assert Pixels(m) == Width(m) + Pixels(tail);
    }
  }

  // ---------------------------------------------------------------------
  // Bounds
  // ---------------------------------------------------------------------

  /** The raw sum of a mask lies between 0 and 255 per pixel. */
  lemma SumBounds(m: Mask)
    ensures 0 <= Sum(m) <= MaskMax * Pixels(m)
  {
    CellsOfRectangular(m);
  }

  // ---------------------------------------------------------------------
  // All-zero and saturated masks
  // ---------------------------------------------------------------------

  /** Every entry of the row equals `c`. */
  predicate RowIs(r: seq<int>, c: int)
  {
    forall k :: 0 <= k < |r| ==> r[k] == c
  }

  /** Every entry of the grid equals `c`. */
  predicate Uniform(m: seq<seq<int>>, c: int)
  {
    forall i :: 0 <= i < |m| ==> RowIs(m[i], c)
  }

  lemma Distributes(c: int, a: int, b: int)
    ensures c * (a + b) == c * a + c * b
  {
  }

  lemma {:induction false} RowSumConst(r: seq<int>, c: int)
    requires RowIs(r, c)
    ensures RowSum(r) == c * |r|
    decreases |r|
  {
    if |r| > 0 {
      RowSumConst(r[1..], c);
    }
  }

  lemma {:induction false} SumConst(m: seq<seq<int>>, c: int)
    requires Uniform(m, c)
    ensures Sum(m) == c * Cells(m)
    decreases |m|
  {
    if |m| > 0 {
      RowSumConst(m[0], c);
      var tail := m[1..];
      assert Uniform(tail, c) by {
        assert forall i :: 0 <= i < |tail| ==> tail[i] == m[i + 1];
      }
      SumConst(tail, c);
      var a, b := |m[0]|, Cells(tail);
      assert Cells(m) == a + b;
      Distributes(c, a, b);
    }
  }

  /** A mask with no foreground pixel never counts as motion. */
  lemma AllZeroNeverDetects(m: Mask)
    requires Uniform(m, 0)
    ensures !Detects(m)
  {
    SumConst(m, 0);
    CellsOfRectangular(m);
  }

  /** A mask that is foreground everywhere (and has at least one pixel) counts as motion. */
  lemma AllForegroundDetects(m: Mask)
    requires Uniform(m, MaskMax) && Pixels(m) > 0
    ensures Detects(m)
  {
    SumConst(m, MaskMax);
    CellsOfRectangular(m);
  }

  // ---------------------------------------------------------------------
  // Monotonicity
  // ---------------------------------------------------------------------

  /** `hi` has the shape of `lo` and is at least as large at every entry. */
  predicate Dominates(hi: seq<seq<int>>, lo: seq<seq<int>>)
  {
    && |hi| == |lo|
    && (forall i :: 0 <= i < |lo| ==> |hi[i]| == |lo[i]|)
    && (forall i, k :: 0 <= i < |lo| && 0 <= k < |lo[i]| ==> lo[i][k] <= hi[i][k])
  }

  lemma {:induction false} RowSumMonotone(hi: seq<int>, lo: seq<int>)
    requires |hi| == |lo|
    requires forall k :: 0 <= k < |lo| ==> lo[k] <= hi[k]
    ensures RowSum(lo) <= RowSum(hi)
    decreases |lo|
  {
    if |lo| > 0 {
      RowSumMonotone(hi[1..], lo[1..]);
    }
  }

  lemma {:induction false} SumMonotone(hi: seq<seq<int>>, lo: seq<seq<int>>)
    requires Dominates(hi, lo)
    ensures Sum(lo) <= Sum(hi)
    decreases |lo|
  {
    if |lo| > 0 {
      RowSumMonotone(hi[0], lo[0]);
      assert Dominates(hi[1..], lo[1..]) by {
        forall i, k | 0 <= i < |lo| - 1 && 0 <= k < |lo[1..][i]|
          ensures lo[1..][i][k] <= hi[1..][i][k]
        {
          assert lo[1..][i] == lo[i + 1] && hi[1..][i] == hi[i + 1];
        }
      }
      SumMonotone(hi[1..], lo[1..]);
    }
  }

  /** Raising mask entries (same shape) can never turn a detection into a non-detection. */
  lemma DetectsMonotone(hi: Mask, lo: Mask)
    requires Dominates(hi, lo)
    requires Detects(lo)
    ensures Detects(hi)
  {
    SumMonotone(hi, lo);
    assert Pixels(hi) == Pixels(lo) by {
      if |lo| > 0 {
        assert |hi[0]| == |lo[0]|;
      }
    }
  }

  /** Raising one entry of a detecting mask keeps it detecting. */
  lemma RaiseEntryKeepsDetection(m: Mask, i: int, k: int, v: int)
    requires 0 <= i < |m| && 0 <= k < |m[i]|
    requires m[i][k] <= v <= MaskMax
    requires Detects(m)
    ensures IsMask(m[i := m[i][k := v]])
    ensures Detects(m[i := m[i][k := v]])
  {
    var raised := m[i := m[i][k := v]];
    assert Width(raised) == Width(m);
    assert InRange(raised[i]);
    assert IsMask(raised);
    DetectsMonotone(raised, m);
  }

  // ---------------------------------------------------------------------
  // Binary masks: the threshold as a pixel count
  // ---------------------------------------------------------------------

  /** Every entry is 0 or 255, as in the masks background subtraction produces. */
  predicate Binary(m: seq<seq<int>>)
  {
    forall i, k :: 0 <= i < |m| && 0 <= k < |m[i]| ==> m[i][k] == 0 || m[i][k] == MaskMax
  }

  function RowCount(r: seq<int>): nat
  {
    if |r| == 0 then 0 else (if r[0] == MaskMax then 1 else 0) + RowCount(r[1..])
  }

  /** Number of foreground (255) pixels. */
  function Count(m: seq<seq<int>>): nat
  {
    if |m| == 0 then 0 else RowCount(m[0]) + Count(m[1..])
  }

  lemma {:induction false} RowSumOfBinary(r: seq<int>)
    requires forall k :: 0 <= k < |r| ==> r[k] == 0 || r[k] == MaskMax
    ensures RowSum(r) == MaskMax * RowCount(r)
    decreases |r|
  {
    if |r| > 0 {
      RowSumOfBinary(r[1..]);
    }
  }

  lemma {:induction false} SumOfBinary(m: seq<seq<int>>)
    requires Binary(m)
    ensures Sum(m) == MaskMax * Count(m)
    decreases |m|
  {
    if |m| > 0 {
      RowSumOfBinary(m[0]);
      assert Binary(m[1..]) by {
        assert forall i :: 0 <= i < |m| - 1 ==> m[1..][i] == m[i + 1];
      }
      SumOfBinary(m[1..]);
    }
  }

  /**
   On a binary mask the test says: strictly more than 10% of the pixels are
   foreground. In particular exactly 10% does not count as motion.
   */
  lemma BinaryDetectsIff(m: Mask)
    requires Binary(m)
    ensures Detects(m) <==> RateDen * Count(m) > RateNum * Pixels(m)
    ensures RateDen * Count(m) == RateNum * Pixels(m) ==> !Detects(m)
  {
    SumOfBinary(m);
  }
}
