/** The upload progress bar of the page: `Math.round((processed / total) * 50)`
    while files are compressed, in integer arithmetic. */
module Progress {

  /** `Math.round((processed / total) * 50)` taken over the exact quotient:
      `floor(50 * processed / total + 1/2)`. The page computes the product in
      double precision, which can land just below an exact `.5` tie and then
      rounds one lower: for 57 of 100 files the double is 28.499999999999996,
      giving 28 where this function gives 29 (likewise 29 of 100, and their
      multiples). */
  function LoopProgress(processed: nat, total: nat): nat
    requires total > 0
  {
    (100 * processed + total) / (2 * total)
  }

  lemma DivBounds(n: nat, d: nat)
    requires d > 0
    ensures d * (n / d) <= n < d * (n / d) + d
  {
  }

  /** The value is half-up rounding of the exact quotient: the integer `r` with
      `r <= 50 * processed / total + 1/2 < r + 1`. (At exact ties the page's
      double arithmetic can read one lower; see `LoopProgress`.) */
  lemma LoopProgressIsRounded(processed: nat, total: nat)
    requires total > 0
    ensures var x := (50 * processed) as real / total as real;
      && LoopProgress(processed, total) as real <= x + 0.5
      && x + 0.5 < LoopProgress(processed, total) as real + 1.0
  {
    var n := 100 * processed + total;
    var d := 2 * total;
    DivBounds(n, d);
    var x := (50 * processed) as real / total as real;
    HalfUpScaled(x, 50 * processed, total);
    FloorOfQuotient(n / d, n, d, x + 0.5);
  }

  /** `(a / t + 1/2) * 2t == 2a + t`. */
  lemma HalfUpScaled(x: real, a: int, t: int)
    requires t > 0 && x == a as real / t as real
    ensures (x + 0.5) * (2 * t) as real == (2 * a + t) as real
  {
    assert x * t as real == a as real;
  }

  /** An integer quotient is the floor of the real one. */
  lemma FloorOfQuotient(r: int, n: int, d: int, y: real)
    requires d > 0 && d * r <= n < d * r + d && y * d as real == n as real
    ensures r as real <= y < r as real + 1.0
  {
    IntToRealProduct(d, r);
    IntToRealProduct(d, r + 1);
    RealCancel(r as real, y, d as real);
    RealCancelStrict(y, r as real + 1.0, d as real);
  }

  lemma IntToRealProduct(a: int, b: int)
    ensures (a * b) as real == a as real * b as real
  {
  }

  lemma RealCancel(a: real, b: real, c: real)
    requires c > 0.0 && c * a <= b * c
    ensures a <= b
  {
  }

  lemma RealCancelStrict(a: real, b: real, c: real)
    requires c > 0.0 && a * c < c * b
    ensures a < b
  {
  }

  lemma MulMonotone(a: int, b: int, c: int)
    requires c >= 0 && a <= b
    ensures c * a <= c * b
  {
  }

  lemma IntCancelLt(x: int, y: int, d: int)
    requires d > 0 && d * x < d * y
    ensures x < y
  {
  }

  lemma DivMonotone(a: nat, b: nat, d: nat)
    requires d > 0 && a <= b
    ensures a / d <= b / d
  {
    DivBounds(a, d);
    DivBounds(b, d);
    assert d * (a / d) < d * (b / d + 1);
    IntCancelLt(a / d, b / d + 1, d);
  }

  /** While files are compressed the bar stays between 0 and 50. */
  lemma LoopProgressInRange(processed: nat, total: nat)
    requires 0 < total && processed <= total
    ensures 0 <= LoopProgress(processed, total) <= 50
  {
    var n, d := 100 * processed + total, 2 * total;
    DivBounds(n, d);
    assert d * (n / d) < d * 51;
    IntCancelLt(n / d, 51, d);
  }

  /** One more compressed file never moves the bar back. */
  lemma LoopProgressMonotone(p: nat, q: nat, total: nat)
    requires 0 < total && p <= q
    ensures LoopProgress(p, total) <= LoopProgress(q, total)
  {
    DivMonotone(100 * p + total, 100 * q + total, 2 * total);
  }

  /** The bar shows 50 exactly when at least 99% of the files were processed.
      Since `total` counts every file and `processed` only the images, with fewer
      than 100 files that means every file was an image; from 100 files on,
      rounding shows 50 with one file short. */
  lemma LoopProgressFull(processed: nat, total: nat)
    requires 0 < total && processed <= total
    ensures LoopProgress(processed, total) == 50 <==> 100 * processed >= 99 * total
    ensures total < 100 ==> (LoopProgress(processed, total) == 50 <==> processed == total)
  {
    var n, d := 100 * processed + total, 2 * total;
    DivBounds(n, d);
    LoopProgressInRange(processed, total);
    FullFromBounds(processed, total, n / d);
  }

  lemma FullFromBounds(p: nat, t: nat, r: int)
    requires 0 < t && p <= t && r <= 50
    requires 2 * t * r <= 100 * p + t < 2 * t * r + 2 * t
    ensures r == 50 <==> 100 * p >= 99 * t
    ensures t < 100 ==> (r == 50 <==> p == t)
  {
    if r < 50 {
      MulMonotone(r, 49, 2 * t);
    }
  }

  /** The values the loop shows, one per processed image. */
  function LoopTrace(processed: nat, total: nat): (trace: seq<nat>)
    requires total > 0
    ensures |trace| == processed
  {
    if processed == 0 then [] else LoopTrace(processed - 1, total) + [LoopProgress(processed, total)]
  }

  /** The values the loop shows never decrease, stay within 0 to 50, and end at 50
      exactly when at least 99% of the files were images. */
  lemma {:induction false} LoopTraceShape(processed: nat, total: nat)
    requires 0 < total && processed <= total
    ensures forall i :: 0 <= i < processed ==> LoopTrace(processed, total)[i] <= 50
    ensures forall i :: 0 <= i < processed - 1 ==> LoopTrace(processed, total)[i] <= LoopTrace(processed, total)[i + 1]
    ensures processed > 0 ==> (LoopTrace(processed, total)[processed - 1] == 50 <==> 100 * processed >= 99 * total)
  {
    if processed > 0 {
      LoopTraceShape(processed - 1, total);
      LoopProgressInRange(processed, total);
      LoopProgressFull(processed, total);
      if processed > 1 {
        LoopProgressMonotone(processed - 1, processed, total);
      }
    }
  }
}
