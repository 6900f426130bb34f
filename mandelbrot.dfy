/** The integer logic of the Mandelbrot benchmark: how `mandelbrotSequential`
    turns the escape iteration of each pixel into a 16-bit grey value, and
    how `validate` compares two images with a tolerance of one grey level.
    The floating-point recurrence itself is an `EscapeTest` parameter. */
module Mandelbrot {
  import opened Grid

  /** Java's 16-bit `short`. */
  newtype short = x: int | -0x8000 <= x < 0x8000

  /** The iteration cap of each pixel (ITERATIONS). */
  const Iterations := 10000
  /** `validate` prints at most this many mismatches. */
  const MaxReported := 10

  function Min(a: int, b: int): int { if a <= b then a else b }

  // ---------------------------------------------------------------------
  // mandelbrotSequential
  // ---------------------------------------------------------------------

  /** `bounded(i, j, ii)`: before step ii of pixel (i, j) the point is still
      inside the escape radius (ZiN + ZrN <= 4.0f), given that every earlier
      step was too. */
  type EscapeTest = (int, int, int) -> bool

  /** The number of leading steps among the first k at which pixel (i, j)
      stays bounded: all steps before it are bounded, and unless it is k the
      step it names is the first that escapes. */
  function StepsBounded(bounded: EscapeTest, i: int, j: int, k: nat): (r: nat)
    ensures r <= k
    ensures forall t :: 0 <= t < r ==> bounded(i, j, t)
    ensures r < k ==> !bounded(i, j, r)
  {
    if k == 0 then 0
    else
      var c := StepsBounded(bounded, i, j, k - 1);
      if c == k - 1 && bounded(i, j, k - 1) then k else c
  }

  /** The count is fixed by its two properties: it is the first escaping
      step below the cap, or the cap itself. */
  lemma StepsBoundedUnique(bounded: EscapeTest, i: int, j: int, k: nat, y: nat)
    requires y <= k
    requires forall t :: 0 <= t < y ==> bounded(i, j, t)
    requires y < k ==> !bounded(i, j, y)
    ensures StepsBounded(bounded, i, j, k) == y
  {
  }

  /** The inner loop of one pixel: count the steps until the point escapes,
      stopping at the first escape or after ITERATIONS steps. */
  method EscapeSteps(bounded: EscapeTest, i: int, j: int) returns (y: int)
    ensures 0 <= y <= Iterations
    ensures forall t :: 0 <= t < y ==> bounded(i, j, t)
    ensures y < Iterations ==> !bounded(i, j, y)
    ensures y == StepsBounded(bounded, i, j, Iterations)
  {
    y := 0;
    var ii := 0;
    while ii < Iterations
      invariant 0 <= ii <= Iterations && y == ii
      invariant forall t :: 0 <= t < ii ==> bounded(i, j, t)
    {
      if bounded(i, j, ii) {
        y := y + 1;
      } else {
        break;
      }
      ii := ii + 1;
    }
    StepsBoundedUnique(bounded, i, j, Iterations, y);
  }

  /** `(short) ((y * 255) / ITERATIONS)`: the grey value of a pixel that
      stayed bounded for y steps. */
  function PixelValue(y: int): (r: short)
    requires 0 <= y <= Iterations
    ensures 0 <= r <= 255
    ensures r == 255 <==> y == Iterations
    ensures r == 0 <==> y * 255 < Iterations
  {
    ((y * 255) / Iterations) as short
  }

  /** More bounded steps never give a darker pixel. */
  lemma PixelValueMonotone(y1: int, y2: int)
    requires 0 <= y1 <= y2 <= Iterations
    ensures PixelValue(y1) <= PixelValue(y2)
  {
    MulMonotone(y1, y2, 255);
  }

  /** The grey value written at flat index c of a size x size image. */
  function ExpectedPixel(bounded: EscapeTest, size: int, c: int): short
    requires size > 0
  {
    PixelValue(StepsBounded(bounded, c / size, c % size, Iterations))
  }

  /** `mandelbrotSequential`: pixel (i, j) is written at `i * size + j`. For a
      positive size every entry of the image gets the grey value of its pixel;
      otherwise the loops do not run. */
  method MandelbrotSequential(output: array<short>, size: int, bounded: EscapeTest)
    requires output.Length == size * size
    modifies output
    ensures size > 0 ==> forall c :: 0 <= c < output.Length ==> output[c] == ExpectedPixel(bounded, size, c)
    ensures size <= 0 ==> output[..] == old(output[..])
  {
    var i := 0;
    while i < size
      invariant 0 <= i && (i == 0 || i <= size)
      invariant forall c :: 0 <= c < i * size ==> output[c] == ExpectedPixel(bounded, size, c)
      invariant forall c :: i * size <= c < output.Length ==> output[c] == old(output[c])
    {
      ghost var base := i * size;
      MulMonotone(i + 1, size, size);
      MulMonotone(0, i, size);
      assert base + size == (i + 1) * size;
      var j := 0;
      while j < size
        invariant 0 <= j <= size
        invariant 0 <= base && base + size <= output.Length
        invariant forall c :: 0 <= c < base + j ==> output[c] == ExpectedPixel(bounded, size, c)
        invariant forall c :: base + j <= c < output.Length ==> output[c] == old(output[c])
      {
        var y := EscapeSteps(bounded, i, j);
        var r := PixelValue(y);
        CellInRange(size, i, j);
        CellSplit(size, i, j);
        output[i * size + j] := r;
        assert output[base + j] == ExpectedPixel(bounded, size, base + j);
        j := j + 1;
      }
      i := i + 1;
    }
    if size > 0 {
      assert i * size == output.Length;
    } else {
      assert output[..] == old(output[..]);
    }
  }

  /** Every pixel of the reference image is a grey level in [0, 255]. */
  lemma ImageInRange(bounded: EscapeTest, size: int, c: int)
    requires size > 0
    ensures 0 <= ExpectedPixel(bounded, size, c) <= 255
    ensures ExpectedPixel(bounded, size, c) == 255 <==>
            forall t :: 0 <= t < Iterations ==> bounded(c / size, c % size, t)
  {
  }

  // ---------------------------------------------------------------------
  // validate
  // ---------------------------------------------------------------------

  function Abs(x: int): int { if x < 0 then -x else x }

  /** Java's `/` and `%` on int, which truncate toward zero. */
  function JavaDiv(a: int, b: int): int
    requires b != 0
  {
    if (a < 0) == (b < 0) then Abs(a) / Abs(b) else -(Abs(a) / Abs(b))
  }

  function JavaRem(a: int, b: int): int
    requires b != 0
  {
    a - b * JavaDiv(a, b)
  }

  /** Two grey values that differ by at most one are accepted as equal. */
  predicate WithinTolerance(a: short, b: short)
  {
    Abs(a as int - b as int) <= 1
  }

  /** One printed mismatch line: row, column, flat index, both values and their distance. */
  datatype Mismatch = Mismatch(row: int, col: int, index: int, reference: short, candidate: short, diff: int)

  /** The offending indices below k, in increasing order. */
  function Offending(reference: seq<short>, candidate: seq<short>, k: int): (r: seq<int>)
    requires k <= |reference| && k <= |candidate|
    ensures forall t :: 0 <= t < |r| ==> 0 <= r[t] < k
    decreases k
  {
    if k <= 0 then []
    else
      Offending(reference, candidate, k - 1)
        + (if WithinTolerance(reference[k - 1], candidate[k - 1]) then [] else [k - 1])
  }

  /** An index is listed exactly when it lies below k and its two values
      differ by more than the tolerance. */
  lemma {:induction false} OffendingExact(reference: seq<short>, candidate: seq<short>, k: int)
    requires k <= |reference| && k <= |candidate|
    ensures forall i :: i in Offending(reference, candidate, k) <==>
              0 <= i < k && !WithinTolerance(reference[i], candidate[i])
    decreases k
  {
    if k > 0 {
      OffendingExact(reference, candidate, k - 1);
      OffendingStep(reference, candidate, k - 1);
    }
  }

  lemma OffendingStep(reference: seq<short>, candidate: seq<short>, k: int)
    requires 0 <= k < |reference| && k < |candidate|
    ensures Offending(reference, candidate, k + 1) ==
            Offending(reference, candidate, k) + (if WithinTolerance(reference[k], candidate[k]) then [] else [k])
  {
  }

  /** The offending indices come in increasing order. */
  lemma {:induction false} OffendingIncreasing(reference: seq<short>, candidate: seq<short>, k: int)
    requires k <= |reference| && k <= |candidate|
    ensures forall t, u :: 0 <= t < u < |Offending(reference, candidate, k)| ==>
              Offending(reference, candidate, k)[t] < Offending(reference, candidate, k)[u]
    decreases k
  {
    if k > 0 {
      OffendingIncreasing(reference, candidate, k - 1);
      var before := Offending(reference, candidate, k - 1);
      var r := Offending(reference, candidate, k);
      assert r == before + (if WithinTolerance(reference[k - 1], candidate[k - 1]) then [] else [k - 1]);
      forall t, u | 0 <= t < u < |r|
        ensures r[t] < r[u]
      {
        if u < |before| {
          assert r[t] == before[t] && r[u] == before[u];
        } else {
          assert r[u] == k - 1 && r[t] == before[t];
        }
      }
    }
  }

  /** The report line for offending index i. */
  function Report(reference: seq<short>, candidate: seq<short>, size: int, i: int): Mismatch
    requires size != 0 && 0 <= i < |reference| && i < |candidate|
  {
    Mismatch(JavaDiv(i, size), JavaRem(i, size), i, reference[i], candidate[i],
             Abs(reference[i] as int - candidate[i] as int))
  }

  function Reports(reference: seq<short>, candidate: seq<short>, size: int, idx: seq<int>): seq<Mismatch>
    requires size != 0 && forall t :: 0 <= t < |idx| ==> 0 <= idx[t] < |reference| && idx[t] < |candidate|
  {
    seq(|idx|, t requires 0 <= t < |idx| => Report(reference, candidate, size, idx[t]))
  }

  /** `validate`: the images agree when no pixel differs by more than one
      grey level. It counts the offending pixels and reports the first ten of
      them, in index order, with their row and column. */
  method Validate(reference: array<short>, candidate: array<short>, size: int)
    returns (valid: bool, errors: int, reported: seq<Mismatch>)
    requires size * size <= reference.Length && size * size <= candidate.Length
    ensures valid <==> forall i :: 0 <= i < size * size ==> WithinTolerance(reference[i], candidate[i])
    ensures valid <==> errors == 0
    ensures errors == |Offending(reference[..], candidate[..], size * size)|
    ensures size != 0 ==>
              reported == Reports(reference[..], candidate[..], size,
                                  Offending(reference[..], candidate[..], size * size)[..Min(MaxReported, errors)])
    ensures size == 0 ==> reported == []
  {
    errors := 0;
    reported := [];
    ghost var ref, cand := reference[..], candidate[..];
    var total := size * size;
    assert Offending(ref, cand, 0) == [] && Collected(ref, cand, size, 0) == [];
    var i := 0;
    while i < total
      invariant 0 <= i && (i == 0 || i <= total)
      invariant errors == |Offending(ref, cand, i)|
      invariant reported == Collected(ref, cand, size, i)
    {
      OffendingStep(ref, cand, i);
      var refVal := reference[i];
      var candVal := candidate[i];
      assert refVal == ref[i] && candVal == cand[i];
      if Abs(refVal as int - candVal as int) > 1 {
        if errors < MaxReported {
          var row := JavaDiv(i, size);
          var col := JavaRem(i, size);
          reported := reported + [Mismatch(row, col, i, refVal, candVal, Abs(refVal as int - candVal as int))];
          assert reported == Collected(ref, cand, size, i) + [Report(ref, cand, size, i)];
        }
        errors := errors + 1;
      }
      assert errors == |Offending(ref, cand, i + 1)|;
      assert reported == Collected(ref, cand, size, i + 1);
      i := i + 1;
    }
    assert i == size * size && ref == reference[..] && cand == candidate[..];
    valid := errors == 0;
    NoneOffending(ref, cand, i);
    if size != 0 {
      CollectedAreFirstOffending(ref, cand, size, i);
    }
  }

  /** The mismatch lines printed while scanning the first k indices: an
      offending index is reported while fewer than ten came before it. */
  function Collected(reference: seq<short>, candidate: seq<short>, size: int, k: int): seq<Mismatch>
    requires k <= |reference| && k <= |candidate|
    decreases k
  {
    if k <= 0 || size == 0 then []
    else
      var before := Collected(reference, candidate, size, k - 1);
      if !WithinTolerance(reference[k - 1], candidate[k - 1])
         && |Offending(reference, candidate, k - 1)| < MaxReported
      then before + [Report(reference, candidate, size, k - 1)]
      else before
  }

  /** The printed lines are the reports of the first ten offending indices, in order. */
  lemma {:induction false} CollectedAreFirstOffending(reference: seq<short>, candidate: seq<short>,
                                                       size: int, k: int)
    requires size != 0 && 0 <= k <= |reference| && k <= |candidate|
    ensures Collected(reference, candidate, size, k) ==
            Reports(reference, candidate, size,
                    Offending(reference, candidate, k)[..Min(MaxReported, |Offending(reference, candidate, k)|)])
    decreases k
  {
    var off := Offending(reference, candidate, k);
    if k == 0 {
      assert Reports(reference, candidate, size, off[..0]) == [];
    } else {
      var last := k - 1;
      CollectedAreFirstOffending(reference, candidate, size, last);
      var before := Offending(reference, candidate, last);
      OffendingStep(reference, candidate, last);
      if WithinTolerance(reference[last], candidate[last]) {
        assert off == before;
        assert Collected(reference, candidate, size, k) == Collected(reference, candidate, size, last);
      } else if |before| < MaxReported {
        assert off == before + [last];
        assert Collected(reference, candidate, size, k) ==
               Collected(reference, candidate, size, last) + [Report(reference, candidate, size, last)];
        assert before[..Min(MaxReported, |before|)] == before;
        assert off[..Min(MaxReported, |off|)] == before + [last];
        ReportsAppend(reference, candidate, size, before, last);
      } else {
        assert off == before + [last];
        assert Collected(reference, candidate, size, k) == Collected(reference, candidate, size, last);
        assert off[..MaxReported] == before[..MaxReported];
      }
    }
  }

  /** No index below k is offending exactly when none is out of tolerance. */
  lemma NoneOffending(reference: seq<short>, candidate: seq<short>, k: int)
    requires k <= |reference| && k <= |candidate|
    ensures |Offending(reference, candidate, k)| == 0 <==>
            forall i :: 0 <= i < k ==> WithinTolerance(reference[i], candidate[i])
  {
    var r := Offending(reference, candidate, k);
    OffendingExact(reference, candidate, k);
    if |r| > 0 {
      assert r[0] in r;
    }
  }

  lemma ReportsAppend(reference: seq<short>, candidate: seq<short>, size: int, idx: seq<int>, i: int)
    requires size != 0 && 0 <= i < |reference| && i < |candidate|
    requires forall t :: 0 <= t < |idx| ==> 0 <= idx[t] < |reference| && idx[t] < |candidate|
    ensures Reports(reference, candidate, size, idx + [i]) ==
            Reports(reference, candidate, size, idx) + [Report(reference, candidate, size, i)]
  {
  }

  /** With a positive size the printed row and column locate the pixel. */
  lemma RowColDecomposition(size: int, i: int)
    requires size > 0 && 0 <= i < size * size
    ensures 0 <= JavaDiv(i, size) < size && 0 <= JavaRem(i, size) < size
    ensures i == JavaDiv(i, size) * size + JavaRem(i, size)
  {
    IndexSplit(size, i);
  }

  /** The tolerance is exactly one grey level: two images that differ in one
      pixel pass when that pixel is off by at most one, and otherwise fail
      with that pixel as the only mismatch. */
  lemma {:induction false} SingleDifference(reference: seq<short>, candidate: seq<short>, j: int, k: int)
    requires |reference| == |candidate| && 0 <= j < |reference| && k <= |reference|
    requires forall i :: 0 <= i < |reference| && i != j ==> reference[i] == candidate[i]
    ensures Offending(reference, candidate, k) ==
            if j < k && !WithinTolerance(reference[j], candidate[j]) then [j] else []
    decreases k
  {
    if k > 0 {
      SingleDifference(reference, candidate, j, k - 1);
      var last := k - 1;
      var tail := if WithinTolerance(reference[last], candidate[last]) then [] else [last];
      assert Offending(reference, candidate, k) == Offending(reference, candidate, last) + tail;
      if last != j {
        assert reference[last] == candidate[last];
        assert tail == [];
      }
    }
  }
}
