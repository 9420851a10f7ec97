/** The `WideFieldImaging` class of the W/A-projection gridder: construction, the image-domain
    and projected kernels, the W- and A-projection convolution kernels with their truncation
    search, and the kernel cache. The numerical routines it calls (the w phase term, the FFTs,
    the Hankel transform and the radial interpolation) are supplied as opaque functions. */
module AwProjection {
  import opened Complex
  import opened Wrappers
  import opened ImagingTypes
  import opened AwKernelLayout
  import opened IntArith

  /** The numerical routines the kernel generators call and this model leaves uninterpreted. */
  datatype Numerics = Numerics(
    // `exp(-2*pi*i*w*(n-1))/n`, `n = sqrt(1-r^2)`, as a function of `(r^2, w)`
    phase: (real, real) -> Cx,
    // `fft_fftw_c2c`
    fft2d: seq<seq<Cx>> -> seq<seq<Cx>>,
    // `fft_fftw_dft_c2c_1d`
    fft1d: seq<Cx> -> seq<Cx>,
    // the radius vector of the combined kernel and its discrete Hankel transform
    hankelRadius: KernelInputs -> seq<Cx>,
    // `RadialInterpolate<cubic, false>(points, values, trunc_at)`
    radialInterpolate: (seq<real>, seq<Cx>, real, bool) -> seq<Cx>)
  {
    /** The 2-D FFT maps an `n`-by-`n` matrix to an `n`-by-`n` matrix. */
    ghost predicate KeepsShape(n: nat)
    {
      forall m :: IsSquare(m, n) ==> IsSquare(fft2d(m), n)
    }
  }

  /** `m` is an `n`-by-`n` matrix, stored row by row. */
  predicate IsSquare<T>(m: seq<seq<T>>, n: nat)
  {
    |m| == n && forall r :: 0 <= r < n ==> |m[r]| == n
  }

  /** The contents of a matrix held in an `array2`. */
  function Snapshot(a: array2<Cx>): seq<seq<Cx>>
    reads a
  {
    seq(a.Length0, r requires 0 <= r < a.Length0 reads a =>
      seq(a.Length1, c requires 0 <= c < a.Length1 reads a => a[r, c]))
  }

  /** An array holding the entries of `m` has `m` as its snapshot. */
  lemma SnapshotIs(a: array2<Cx>, m: seq<seq<Cx>>)
    requires |m| == a.Length0 && forall r :: 0 <= r < |m| ==> |m[r]| == a.Length1
    requires forall r, c :: 0 <= r < a.Length0 && 0 <= c < a.Length1 ==> a[r, c] == m[r][c]
    ensures Snapshot(a) == m
  {
    forall r | 0 <= r < |m|
      ensures Snapshot(a)[r] == m[r]
    {
      assert forall c :: 0 <= c < a.Length1 ==> Snapshot(a)[r][c] == m[r][c];
    }
  }

  /** Column 0 of a matrix. */
  function FirstColumn(m: seq<seq<Cx>>): seq<Cx>
    requires forall r :: 0 <= r < |m| ==> |m[r]| > 0
  {
    seq(|m|, r requires 0 <= r < |m| => m[r][0])
  }

  /** The image-domain kernel as an `arr`-by-`arr` matrix. */
  function ImageDomainMatrix(k: KernelInputs): (m: seq<seq<Cx>>)
    ensures IsSquare(m, k.arr)
  {
    seq(k.arr, r => seq(k.arr, c => ImageDomainEntry(k, r, c)))
  }

  /** The projected kernel as a vector of length `arr`. */
  function ProjectedVector(k: KernelInputs): (v: seq<Cx>)
    ensures |v| == k.arr
  {
    seq(k.arr, c => ProjectedEntry(k, c))
  }

  /** The vector after the line loop of `generate_projected_image_domain_kernel`: `f(i, 0)` at
      `1 <= i < half`, zero elsewhere. */
  function LineStage(k: KernelInputs): (v: seq<Cx>)
    ensures |v| == k.arr
  {
    seq(k.arr, m => if 1 <= m < k.half then Combine(k, m, 0) else Zero())
  }

  /** `s` and `t` have one length and agree at indices `0 .. n`. */
  predicate AgreesUpTo(s: seq<Cx>, t: seq<Cx>, n: int)
  {
    |s| == |t| && forall m :: 0 <= m < |t| && m <= n ==> s[m] == t[m]
  }

  /** Index `arr - i` of `t` holds the value of index `i`, for `1 <= i < half`. */
  predicate MirrorSymmetric(t: seq<Cx>, half: nat)
  {
    forall i, j :: 1 <= i < half && i < |t| && i + j == |t| ==> t[j] == t[i]
  }

  /** The projected kernel is mirror-symmetric, so the mirror fill completes it. */
  lemma ProjectedVectorSymmetric(k: KernelInputs)
    requires k.WellSized()
    ensures MirrorSymmetric(ProjectedVector(k), k.half)
  {
    forall i, j | 1 <= i < k.half && i + j == k.arr
      ensures ProjectedVector(k)[j] == ProjectedVector(k)[i]
    {
      ProjectedMirror(k, i);
    }
  }

  /** A vector holding the projected kernel at its direct indices `0 .. half-1` and zero above
      them agrees with the projected kernel up to index `arr - half`. */
  lemma DirectPartAgrees(k: KernelInputs, s: seq<Cx>)
    requires k.WellSized() && |s| == k.arr && s[0] == ProjectedEntry(k, 0)
    requires forall m :: 1 <= m < k.arr ==> s[m] == if m < k.half then ProjectedEntry(k, m) else Zero()
    ensures AgreesUpTo(s, ProjectedVector(k), k.arr - k.half)
  {
  }

  /** `generate_hankel_radius_points`: the radii `0, 1, .., n-1`. */
  method HankelRadiusPoints(n: nat) returns (points: array<real>)
    ensures points.Length == n
    ensures forall i :: 0 <= i < n ==> points[i] == i as real
  {
    points := new real[n];
    for i := 0 to n
      invariant forall i' :: 0 <= i' < i ==> points[i'] == i' as real
    {
      points[i] := i as real;
    }
  }

  /** The four line cells of offset `i`: `(i, 0)`, `(arr-i, 0)`, `(0, i)` and `(0, arr-i)`. */
  predicate IsLineCell(arr: int, i: int, r: int, c: int)
  {
    (c == 0 && (r == i || r == arr - i)) || (r == 0 && (c == i || c == arr - i))
  }

  /** The four square cells of offsets `(i, j)`: rows `i`, `arr-i` by columns `j`, `arr-j`. */
  predicate IsSquareCell(arr: int, i: int, j: int, r: int, c: int)
  {
    (r == i || r == arr - i) && (c == j || c == arr - j)
  }

  /** The line writes of `generate_image_domain_convolution_kernel`. */
  method WriteLine(output: array2<Cx>, i: int, v: Cx)
    requires output.Length0 == output.Length1 && 0 < i < output.Length0
    modifies output
    ensures forall r, c :: 0 <= r < output.Length0 && 0 <= c < output.Length1 ==>
      output[r, c] == if IsLineCell(output.Length0, i, r, c) then v else old(output[r, c])
  {
    var arr := output.Length0;
    output[i, 0] := v;
    output[arr - i, 0] := v;
    output[0, i] := v;
    output[0, arr - i] := v;
  }

  /** The square writes of `generate_image_domain_convolution_kernel`. */
  method WriteSquare(output: array2<Cx>, i: int, j: int, v: Cx)
    requires output.Length0 == output.Length1 && 0 < i < output.Length0 && 0 < j < output.Length0
    modifies output
    ensures forall r, c :: 0 <= r < output.Length0 && 0 <= c < output.Length1 ==>
      output[r, c] == if IsSquareCell(output.Length0, i, j, r, c) then v else old(output[r, c])
  {
    var arr := output.Length0;
    output[i, j] := v;
    output[arr - i, j] := v;
    output[i, arr - j] := v;
    output[arr - i, arr - j] := v;
  }

  /** The column-sum loop of `generate_convolution_kernel_wproj`: applied to the image-domain
      kernel it computes the projected kernel. */
  method ColumnSums(comb: array2<Cx>, ghost k: KernelInputs) returns (output: array<Cx>)
    requires k.WellSized() && comb.Length0 == k.arr && comb.Length1 == k.arr
    requires forall r, c :: 0 <= r < k.arr && 0 <= c < k.arr ==> comb[r, c] == ImageDomainEntry(k, r, c)
    ensures output.Length == k.arr
    ensures forall c :: 0 <= c < k.arr ==> output[c] == ProjectedEntry(k, c)
  {
    var arr := comb.Length0;
    output := new Cx[arr](_ => Zero());
    for i := 0 to arr
      invariant forall m :: 0 <= m < arr ==> output[m] == if m < i then CSum(ColumnOf(k, m), 0, arr) else Zero()
    {
      for j := 0 to arr
        invariant output[i] == CSum(ColumnOf(k, i), 0, j)
        invariant forall m :: 0 <= m < arr && m != i ==> output[m] == if m < i then CSum(ColumnOf(k, m), 0, arr) else Zero()
      {
        output[i] := Add(output[i], comb[j, i]);
      }
    }
    forall c | 0 <= c < arr
      ensures output[c] == ProjectedEntry(k, c)
    {
      ProjectedIsColumnSum(k, c);
    }
  }

  /** The lines of `generate_projected_image_domain_kernel`: `f(i, 0)` at `1 <= i < half`. */
  method ProjectedLines(output: array<Cx>, k: KernelInputs)
    requires k.WellSized() && output.Length == k.arr
    requires forall m :: 0 <= m < k.arr ==> output[m] == Zero()
    modifies output
    ensures output[..] == LineStage(k)
  {
    var half := k.half;
    var i := 1;
    while i < half
      invariant 1 <= i <= if half >= 1 then half else 1
      invariant forall m :: 0 <= m < k.arr ==> output[m] == if 1 <= m < i then Combine(k, m, 0) else Zero()
    {
      output[i] := Combine(k, i, 0);
      i := i + 1;
    }
  }

  /** The centre point of `generate_projected_image_domain_kernel`: twice the sum of the whole
      vector, which holds only the lines, plus the centre value. */
  method ProjectedPoint(output: array<Cx>, k: KernelInputs)
    requires k.WellSized() && output[..] == LineStage(k)
    modifies output
    ensures output[0] == Add(Scale(CSum(LineTerm(k), 1, k.half), 2.0), Centre(k))
    ensures forall m :: 1 <= m < k.arr ==> output[m] == if m < k.half then Combine(k, m, 0) else Zero()
  {
    LineSum(k, output[..]);
    var total := SeqSum(output[..]);
    output[0] := Add(Scale(total, 2.0), Centre(k));
  }

  /** The squares of `generate_projected_image_domain_kernel`: each `f(i, j)`, doubled, added
      into index `j`; the vector then holds the projected kernel at its direct indices. */
  method ProjectedSquares(output: array<Cx>, k: KernelInputs)
    requires k.WellSized() && output.Length == k.arr
    requires forall m :: 1 <= m < k.arr ==> output[m] == if m < k.half then Combine(k, m, 0) else Zero()
    modifies output
    ensures output[0] == old(output[0])
    ensures forall m :: 1 <= m < k.arr ==> output[m] == if m < k.half then ProjectedEntry(k, m) else Zero()
  {
    var half := k.half;
    var j := 1;
    while j < half
      invariant 1 <= j && (half >= 1 ==> j <= half)
      invariant output[0] == old(output[0])
      invariant forall m :: 1 <= m < k.arr ==>
        output[m] == if m < j then ProjectedEntry(k, m) else if m < half then Combine(k, m, 0) else Zero()
    {
      ProjectedColumn(output, k, j);
      j := j + 1;
    }
  }

  /** The inner loop of the squares: column `j`'s doubled square values added into index `j`. */
  method ProjectedColumn(output: array<Cx>, k: KernelInputs, j: int)
    requires k.WellSized() && output.Length == k.arr && 1 <= j < k.half
    requires output[j] == Combine(k, j, 0)
    modifies output
    ensures output[j] == ProjectedEntry(k, j)
    ensures forall m :: 0 <= m < k.arr && m != j ==> output[m] == old(output[m])
  {
    var row := 1;
    while row < k.half
      invariant 1 <= row <= k.half
      invariant output[j] == Add(Combine(k, j, 0), CSum(SquareTerm(k, j), 1, row))
      invariant forall m :: 0 <= m < k.arr && m != j ==> output[m] == old(output[m])
    {
      AddAssoc(Combine(k, j, 0), CSum(SquareTerm(k, j), 1, row), SquareTerm(k, j)(row));
      output[j] := Add(output[j], Scale(Combine(k, row, j), 2.0));
      row := row + 1;
    }
  }

  /** The final loop of `generate_projected_image_domain_kernel`: index `arr-i` gets a copy of
      index `i` for `1 <= i < half`. A vector that already agrees with a mirror-symmetric
      `target` up to index `arr - half` ends equal to it. */
  method ProjectedMirrorFill(output: array<Cx>, half: nat, ghost target: seq<Cx>)
    requires output.Length >= 2 * half
    requires AgreesUpTo(output[..], target, |target| - half) && MirrorSymmetric(target, half)
    modifies output
    ensures output[..] == target
  {
    var arr := output.Length;
    var m := 1;
    while m < half
      invariant 1 <= m && (half >= 1 ==> m <= half)
      invariant forall c :: 0 <= c < arr && (c <= arr - half || arr - m < c) ==> output[c] == target[c]
    {
      output[arr - m] := output[m];
      m := m + 1;
    }
  }

  /** `generate_projected_image_domain_kernel` on a fresh zero vector: lines, centre point,
      squares and the mirror fill leave exactly the projected kernel. */
  method ProjectedKernel(k: KernelInputs) returns (output: array<Cx>)
    requires k.WellSized()
    ensures output[..] == ProjectedVector(k)
  {
    output := new Cx[k.arr](_ => Zero());
    ProjectedLines(output, k);
    ProjectedDirect(output, k);
    ProjectedVectorSymmetric(k);
    ProjectedMirrorFill(output, k.half, ProjectedVector(k));
  }

  /** The centre point and the squares after the lines: the vector then agrees with the
      projected kernel everywhere the mirror fill does not overwrite. */
  method ProjectedDirect(output: array<Cx>, k: KernelInputs)
    requires k.WellSized() && output[..] == LineStage(k)
    modifies output
    ensures AgreesUpTo(output[..], ProjectedVector(k), k.arr - k.half)
  {
    ProjectedPoint(output, k);
    ProjectedSquares(output, k);
    ProjectedCentre(k);
    assert output[0] == ProjectedEntry(k, 0);
    DirectPartAgrees(k, output[..]);
  }

  /** The matrix of `generate_image_domain_convolution_kernel` on a fresh zero matrix: lines,
      centre point and four-fold mirrored squares leave exactly the image-domain kernel. */
  method ImageDomainKernel(k: KernelInputs) returns (output: array2<Cx>)
    requires k.WellSized()
    ensures fresh(output) && output.Length0 == k.arr && output.Length1 == k.arr
    ensures forall r, c :: 0 <= r < k.arr && 0 <= c < k.arr ==> output[r, c] == ImageDomainEntry(k, r, c)
  {
    output := new Cx[k.arr, k.arr]((_, _) => Zero());
    var lines := ImageDomainLines(output, k);
    var j := ImageDomainSquares(output, k, lines);
    forall r, c | 0 <= r < k.arr && 0 <= c < k.arr
      ensures output[r, c] == ImageDomainEntry(k, r, c)
    {
      PartialEntryComplete(k, r, c, lines, j);
    }
  }

  /** The lines and the centre point of `generate_image_domain_convolution_kernel`. */
  method ImageDomainLines(output: array2<Cx>, k: KernelInputs) returns (lines: int)
    requires k.WellSized() && output.Length0 == k.arr && output.Length1 == k.arr
    requires forall r, c :: 0 <= r < k.arr && 0 <= c < k.arr ==> output[r, c] == Zero()
    modifies output
    ensures lines == if k.half >= 1 then k.half else 1
    ensures forall r, c :: 0 <= r < k.arr && 0 <= c < k.arr ==> output[r, c] == PartialEntry(k, r, c, lines, true, 1, 0)
  {
    var arr, half := k.arr, k.half;
    var i := 1;
    while i < half
      invariant 1 <= i <= if half >= 1 then half else 1
      invariant forall r, c :: 0 <= r < arr && 0 <= c < arr ==> output[r, c] == PartialEntry(k, r, c, i, false, 1, 0)
    {
      WriteLine(output, i, Combine(k, i, 0));
      forall r, c | 0 <= r < arr && 0 <= c < arr
        ensures output[r, c] == PartialEntry(k, r, c, i + 1, false, 1, 0)
      {
        PartialEntryLine(k, i, r, c);
      }
      i := i + 1;
    }

    // point
    output[0, 0] := Centre(k);
    lines := i;
    forall r, c | 0 <= r < arr && 0 <= c < arr
      ensures output[r, c] == PartialEntry(k, r, c, lines, true, 1, 0)
    {
      PartialEntryPoint(k, lines, r, c);
    }
  }

  /** The squares of `generate_image_domain_convolution_kernel`, each written at its four
      mirrored positions. */
  method ImageDomainSquares(output: array2<Cx>, k: KernelInputs, lines: int) returns (j: int)
    requires k.WellSized() && output.Length0 == k.arr && output.Length1 == k.arr
    requires lines == if k.half >= 1 then k.half else 1
    requires forall r, c :: 0 <= r < k.arr && 0 <= c < k.arr ==> output[r, c] == PartialEntry(k, r, c, lines, true, 1, 0)
    modifies output
    ensures j == if k.half >= 1 then k.half else 1
    ensures forall r, c :: 0 <= r < k.arr && 0 <= c < k.arr ==> output[r, c] == PartialEntry(k, r, c, lines, true, j, 0)
  {
    var arr, half := k.arr, k.half;
    j := 1;
    while j < half
      invariant 1 <= j <= if half >= 1 then half else 1
      invariant forall r, c :: 0 <= r < arr && 0 <= c < arr ==> output[r, c] == PartialEntry(k, r, c, lines, true, j, 0)
    {
      var row := 1;
      while row < half
        invariant 1 <= row <= half
        invariant forall r, c :: 0 <= r < arr && 0 <= c < arr ==> output[r, c] == PartialEntry(k, r, c, lines, true, j, row)
      {
        WriteSquare(output, row, j, Combine(k, row, j));
        forall r, c | 0 <= r < arr && 0 <= c < arr
          ensures output[r, c] == PartialEntry(k, r, c, lines, true, j, row + 1)
        {
          PartialEntrySquare(k, lines, row, j, r, c);
        }
        row := row + 1;
      }
      forall r, c | 0 <= r < arr && 0 <= c < arr
        ensures output[r, c] == PartialEntry(k, r, c, lines, true, j + 1, 0)
      {
        PartialEntryNextColumn(k, lines, j, r, c);
      }
      j := j + 1;
    }
  }

  /** The loop of the truncation search: from `start` down in steps of the oversampling until
      the first column exceeds the threshold, stopping at zero. */
  method TruncationSearch(col: seq<Cx>, t: real, start: nat, oversampling: nat) returns (i: nat)
    requires start < |col| && oversampling > 0
    ensures i == TruncationStop(col, t, start, oversampling)
  {
    i := start;
    while i > 0
      invariant i <= start
      invariant TruncationStop(col, t, i, oversampling) == TruncationStop(col, t, start, oversampling)
      decreases i
    {
      if Exceeds(col[i], col[0], t) {
        break;
      }
      i := StepCorrected(i, oversampling);
    }
  }

  function Min(a: nat, b: nat): nat
  {
    if a <= b then a else b
  }

  /** Whole pixels in `i` oversampled steps. */
  function WholePixels(i: nat, oversampling: nat): nat
    requires oversampling > 0
  {
    i / oversampling
  }

  class WideFieldImaging {
    const kernelSize: nat
    const cellSize: real
    const oversampling: nat
    const scalingFactor: real
    const wp: WProjectionPars
    const arraySize: nat
    var rFft: FFTRoutine
    var wValue: real
    var maxHankelKernelSize: nat
    var hankelRadiusPoints: seq<real>
    var truncatedWpconvSupport: nat
    var currentHankelKernelSize: nat
    var combKernel: array2<Cx>
    var convKernel: seq<seq<Cx>>
    var kernelHalfQuadrant: seq<Cx>

    /** The array size is the oversampled kernel size and is even, and the truncated support
        never exceeds the configured maximum. */
    ghost predicate Valid()
      reads this
    {
      && arraySize == kernelSize * oversampling
      && arraySize % 2 == 0
      && truncatedWpconvSupport <= wp.maxWpconvSupport
    }

    /** The fields no kernel generator writes. */
    twostate predicate SettingsUnchanged()
      reads this
    {
      && rFft == old(rFft)
      && maxHankelKernelSize == old(maxHankelKernelSize)
      && hankelRadiusPoints == old(hankelRadiusPoints)
      && currentHankelKernelSize == old(currentHankelKernelSize)
    }

    /** With at least one sample per pixel, the array holds the whole kernel. */
    lemma ArrayHoldsKernel()
      requires Valid() && oversampling > 0
      ensures arraySize >= kernelSize >= 2 * (kernelSize / 2)
    {
      if kernelSize > 0 {
        MulAtLeast(kernelSize, oversampling);
      }
    }

    /** What the kernel generators read for w value `w` and anti-aliasing kernel `aa`. */
    function Inputs(w: real, aa: seq<real>, num: Numerics): KernelInputs
    {
      KernelInputs(aa, w, cellSize * scalingFactor, kernelSize / 2, arraySize, num.phase)
    }

    /** The constructor, once the array size has been checked to be even. */
    constructor (kernelSize: nat, cellSize: real, oversampling: nat, scalingFactor: real,
                 wProj: WProjectionPars, rFft: FFTRoutine)
      requires ValidateArraySize(kernelSize, oversampling).Pass?
      ensures Valid()
      ensures this.kernelSize == kernelSize && this.cellSize == cellSize && this.oversampling == oversampling
      ensures this.scalingFactor == scalingFactor && wp == wProj
      ensures arraySize == kernelSize * oversampling && wValue == 0.0
      ensures this.rFft == if arraySize < 4 then FFTW_ESTIMATE_FFT else rFft
      ensures wProj.hankelOpt ==> maxHankelKernelSize == (wProj.maxWpconvSupport * 2 + 1 + 1) * oversampling
      ensures !wProj.hankelOpt ==> maxHankelKernelSize == 0
      ensures wProj.hankelOpt && !wProj.hankelProjSlice ==>
        |hankelRadiusPoints| == arraySize / 2 && forall i :: 0 <= i < arraySize / 2 ==> hankelRadiusPoints[i] == i as real
      ensures !(wProj.hankelOpt && !wProj.hankelProjSlice) ==> hankelRadiusPoints == []
      ensures truncatedWpconvSupport == wProj.maxWpconvSupport
      ensures currentHankelKernelSize == wProj.maxWpconvSupport
      ensures combKernel.Length0 == 0 && combKernel.Length1 == 0
      ensures convKernel == [] && kernelHalfQuadrant == []
    {
      this.kernelSize := kernelSize;
      this.cellSize := cellSize;
      this.oversampling := oversampling;
      this.scalingFactor := scalingFactor;
      wp := wProj;
      wValue := 0.0;
      var arr := kernelSize * oversampling;
      arraySize := arr;
      maxHankelKernelSize := 0;
      hankelRadiusPoints := [];
      if wProj.hankelOpt {
        maxHankelKernelSize := (wProj.maxWpconvSupport * 2 + 1 + 1) * oversampling;
        if !wProj.hankelProjSlice {
          var points := HankelRadiusPoints(arr / 2);
          hankelRadiusPoints := points[..];
        }
      }
      this.rFft := if arr < 4 then FFTW_ESTIMATE_FFT else rFft;
      truncatedWpconvSupport := wProj.maxWpconvSupport;
      currentHankelKernelSize := wProj.maxWpconvSupport;
      combKernel := new Cx[0, 0];
      convKernel := [];
      kernelHalfQuadrant := [];
    }

    /** `generate_image_domain_convolution_kernel`: fills the combined kernel in the FFT layout
        with the lines, the centre point and the four-fold mirrored squares. */
    method GenerateImageDomainConvolutionKernel(inputW: real, aa: seq<real>, num: Numerics)
      requires !wp.hankelOpt && Inputs(inputW, aa, num).WellSized()
      modifies this
      ensures SettingsUnchanged() && wValue == inputW
      ensures truncatedWpconvSupport == old(truncatedWpconvSupport)
      ensures convKernel == old(convKernel) && kernelHalfQuadrant == old(kernelHalfQuadrant)
      ensures fresh(combKernel) && combKernel.Length0 == arraySize && combKernel.Length1 == arraySize
      ensures forall r, c :: 0 <= r < arraySize && 0 <= c < arraySize ==>
        combKernel[r, c] == ImageDomainEntry(Inputs(inputW, aa, num), r, c)
    {
      var k := Inputs(inputW, aa, num);
      wValue := inputW;
      combKernel := ImageDomainKernel(k);
    }

    /** `generate_projected_image_domain_kernel`: the 1-D kernel of the Hankel projection-slice
        path, built from the lines, the centre point, the doubled squares and a final mirror. */
    method GenerateProjectedImageDomainKernel(inputW: real, aa: seq<real>, num: Numerics) returns (output: array<Cx>)
      requires Inputs(inputW, aa, num).WellSized()
      modifies this
      ensures SettingsUnchanged() && wValue == inputW
      ensures truncatedWpconvSupport == old(truncatedWpconvSupport) && combKernel == old(combKernel)
      ensures convKernel == old(convKernel) && kernelHalfQuadrant == old(kernelHalfQuadrant)
      ensures output.Length == arraySize
      ensures output[..] == ProjectedVector(Inputs(inputW, aa, num))
    {
      var k := Inputs(inputW, aa, num);
      wValue := inputW;
      output := ProjectedKernel(k);
    }

    /** How far the corrected truncation search cuts the support of `conv` at fraction
        `truncAt` of the centre magnitude: the stop index in whole pixels, capped at
        `max_wpconv_support`. */
    function TruncatedSupport(conv: seq<seq<Cx>>, truncAt: real): (t: nat)
      requires oversampling > 0 && arraySize > 0 && IsSquare(conv, arraySize)
      ensures t <= wp.maxWpconvSupport
      ensures t * oversampling <= TruncationStart(wp.maxWpconvSupport, oversampling, arraySize)
    {
      var start := TruncationStart(wp.maxWpconvSupport, oversampling, arraySize);
      var stop := TruncationStop(FirstColumn(conv), truncAt, start, oversampling);
      var t := Min(WholePixels(stop, oversampling), wp.maxWpconvSupport);
      WholeMultiplesBelow(stop, oversampling, t);
      t
    }

    /** The truncation search of `generate_convolution_kernel_wproj` and `_aproj`, with the
        decrement that stops at zero (see `StepCorrected`). */
    method TruncateConvKernel(truncAt: real)
      requires oversampling > 0 && arraySize > 0 && IsSquare(convKernel, arraySize)
      modifies this
      ensures SettingsUnchanged() && wValue == old(wValue) && combKernel == old(combKernel)
      ensures convKernel == old(convKernel) && kernelHalfQuadrant == old(kernelHalfQuadrant)
      ensures truncatedWpconvSupport == TruncatedSupport(convKernel, truncAt)
      ensures truncatedWpconvSupport <= wp.maxWpconvSupport
    {
      var start := TruncationStart(wp.maxWpconvSupport, oversampling, arraySize);
      var i := TruncationSearch(FirstColumn(convKernel), truncAt, start, oversampling);
      truncatedWpconvSupport := Min(WholePixels(i, oversampling), wp.maxWpconvSupport);
    }

    /** `generate_convolution_kernel_wproj`. Without the Hankel option: the image-domain kernel,
        its column sums (computed and discarded), its 2-D FFT as the convolution kernel, the
        combined kernel released, and the truncation search when a percentage is set. With it:
        the kernel half-quadrant by radial interpolation of the projected kernel's 1-D FFT
        (projection slice) or of the Hankel transform of the radius vector. */
    method GenerateConvolutionKernelWproj(inputW: real, aa: seq<real>, hankelProjSlice: bool, num: Numerics)
      requires Valid()
      requires !wp.hankelOpt || hankelProjSlice ==> Inputs(inputW, aa, num).WellSized()
      requires num.KeepsShape(arraySize)
      modifies this
      ensures Valid() && SettingsUnchanged() && wValue == inputW
      ensures !wp.hankelOpt ==>
        && convKernel == num.fft2d(ImageDomainMatrix(Inputs(inputW, aa, num)))
        && combKernel.Length0 == 0 && combKernel.Length1 == 0
        && kernelHalfQuadrant == old(kernelHalfQuadrant)
        && truncatedWpconvSupport == if TruncAt(wp.kernelTruncPerc) > 0.0
           then TruncatedSupport(convKernel, TruncAt(wp.kernelTruncPerc)) else old(truncatedWpconvSupport)
      ensures wp.hankelOpt ==>
        && convKernel == old(convKernel) && combKernel == old(combKernel)
        && truncatedWpconvSupport == old(truncatedWpconvSupport)
      ensures wp.hankelOpt && hankelProjSlice ==>
        kernelHalfQuadrant == num.radialInterpolate(
          seq(arraySize, i => i as real), num.fft1d(ProjectedVector(Inputs(inputW, aa, num))),
          TruncAt(wp.kernelTruncPerc), wp.interpType == CUBIC)
      ensures wp.hankelOpt && !hankelProjSlice ==>
        kernelHalfQuadrant == num.radialInterpolate(
          hankelRadiusPoints, num.hankelRadius(Inputs(inputW, aa, num)),
          TruncAt(wp.kernelTruncPerc), wp.interpType == CUBIC)
    {
      var k := Inputs(inputW, aa, num);
      wValue := inputW;
      var truncAt := TruncAt(wp.kernelTruncPerc);
      if !wp.hankelOpt {
        GenerateImageDomainConvolutionKernel(inputW, aa, num);
        var columnSums := ColumnSums(combKernel, k);
        SnapshotIs(combKernel, ImageDomainMatrix(k));
        convKernel := num.fft2d(Snapshot(combKernel));
        combKernel := new Cx[0, 0];
        if truncAt > 0.0 {
          TruncateConvKernel(truncAt);
        }
      } else if !hankelProjSlice {
        kernelHalfQuadrant := num.radialInterpolate(hankelRadiusPoints, num.hankelRadius(k), truncAt, wp.interpType == CUBIC);
      } else {
        var projected := GenerateProjectedImageDomainKernel(inputW, aa, num);
        assert projected[..] == ProjectedVector(k);
        var radius := num.fft1d(projected[..]);
        var points := HankelRadiusPoints(arraySize);
        assert points[..] == seq(arraySize, i => i as real);
        kernelHalfQuadrant := num.radialInterpolate(points[..], radius, truncAt, wp.interpType == CUBIC);
      }
    }

    /** The A-projection product of the combined kernel with `a` (an A-kernel image). */
    function AprojProduct(a: seq<seq<real>>): (m: seq<seq<Cx>>)
      reads this`combKernel, combKernel
      requires combKernel.Length0 == arraySize && combKernel.Length1 == arraySize
      ensures IsSquare(m, arraySize)
    {
      var comb := combKernel;
      seq(arraySize, i requires 0 <= i < arraySize reads comb =>
        seq(arraySize, j requires 0 <= j < arraySize reads comb =>
          AprojEntry(kernelSize / 2, arraySize, comb[i, j], a, i, j)))
    }

    /** The inner loops of `generate_convolution_kernel_aproj` for column `j` (A-kernel column
        `jj`): the first `half` rows and the last `half` rows multiplied by the A-kernel. */
    method MultiplyColumn(tmp: array2<Cx>, a: seq<seq<real>>, j: int, jj: int)
      requires arraySize >= 2 * (kernelSize / 2)
      requires combKernel.Length0 == arraySize && combKernel.Length1 == arraySize
      requires tmp != combKernel && tmp.Length0 == arraySize && tmp.Length1 == arraySize
      requires |a| >= 2 * (kernelSize / 2) && forall r :: 0 <= r < |a| ==> |a[r]| == kernelSize
      requires 0 <= j < arraySize && InBand(kernelSize / 2, arraySize, j) && jj == Unfold(kernelSize / 2, arraySize, j)
      modifies tmp
      ensures forall r, c :: 0 <= r < arraySize && 0 <= c < arraySize ==>
        tmp[r, c] == if c == j && InBand(kernelSize / 2, arraySize, r)
          then AprojEntry(kernelSize / 2, arraySize, combKernel[r, c], a, r, c) else old(tmp[r, c])
    {
      var half, arr := kernelSize / 2, arraySize;
      MultiplyRows(tmp, a, j, jj, 0, half);
      MultiplyRows(tmp, a, j, jj, arr - half, arr);
    }

    /** One of the two row loops of `MultiplyColumn`: rows `lo .. hi-1`, all inside one half
        of the band, multiplied by the A-kernel row they unfold to. */
    method MultiplyRows(tmp: array2<Cx>, a: seq<seq<real>>, j: int, jj: int, lo: int, hi: int)
      requires arraySize >= 2 * (kernelSize / 2)
      requires combKernel.Length0 == arraySize && combKernel.Length1 == arraySize
      requires tmp != combKernel && tmp.Length0 == arraySize && tmp.Length1 == arraySize
      requires |a| >= 2 * (kernelSize / 2) && forall r :: 0 <= r < |a| ==> |a[r]| == kernelSize
      requires 0 <= j < arraySize && InBand(kernelSize / 2, arraySize, j) && jj == Unfold(kernelSize / 2, arraySize, j)
      requires (0 == lo && hi == kernelSize / 2) || (arraySize - kernelSize / 2 == lo && hi == arraySize)
      modifies tmp
      ensures forall r, c :: 0 <= r < arraySize && 0 <= c < arraySize ==>
        tmp[r, c] == if c == j && lo <= r < hi
          then AprojEntry(kernelSize / 2, arraySize, combKernel[r, c], a, r, c) else old(tmp[r, c])
    {
      var half, arr, comb := kernelSize / 2, arraySize, combKernel;
      var i, ii := lo, if lo == 0 then half else 0;
      while i < hi
        invariant lo <= i <= hi && ii == i + (if lo == 0 then half else half - arr)
        invariant forall r, c :: 0 <= r < arr && 0 <= c < arr ==>
          tmp[r, c] == if c == j && lo <= r < i then AprojEntry(half, arr, comb[r, c], a, r, c) else old(tmp[r, c])
      {
        tmp[i, j] := Scale(comb[i, j], a[ii][jj]);
        i, ii := i + 1, ii + 1;
      }
    }

    /** The two column loops of `generate_convolution_kernel_aproj`: a fresh matrix holding
        the combined kernel times the re-centred A-kernel in the band, zero elsewhere. */
    method MultiplyByAKernel(a: seq<seq<real>>) returns (tmp: array2<Cx>)
      requires arraySize >= 2 * (kernelSize / 2)
      requires combKernel.Length0 == arraySize && combKernel.Length1 == arraySize
      requires |a| >= 2 * (kernelSize / 2) && forall r :: 0 <= r < |a| ==> |a[r]| == kernelSize
      ensures fresh(tmp) && tmp.Length0 == arraySize && tmp.Length1 == arraySize
      ensures forall r, c :: 0 <= r < arraySize && 0 <= c < arraySize ==>
        tmp[r, c] == AprojEntry(kernelSize / 2, arraySize, combKernel[r, c], a, r, c)
    {
      var half, arr := kernelSize / 2, arraySize;
      tmp := new Cx[arr, arr]((_, _) => Zero());
      // left side
      var j, jj := 0, half;
      while j < half
        invariant 0 <= j <= half && jj == half + j
        invariant forall r, c :: 0 <= r < arr && 0 <= c < arr ==>
          tmp[r, c] == if c < j then AprojEntry(half, arr, combKernel[r, c], a, r, c) else Zero()
        modifies tmp
      {
        MultiplyColumn(tmp, a, j, jj);
        j, jj := j + 1, jj + 1;
      }
      // right side
      j, jj := arr - half, 0;
      while j < arr
        invariant arr - half <= j <= arr && jj == j - (arr - half)
        invariant forall r, c :: 0 <= r < arr && 0 <= c < arr ==>
          tmp[r, c] == if c < half || arr - half <= c < j then AprojEntry(half, arr, combKernel[r, c], a, r, c) else Zero()
        modifies tmp
      {
        MultiplyColumn(tmp, a, j, jj);
        j, jj := j + 1, jj + 1;
      }
    }

    /** `generate_convolution_kernel_aproj`: fails under the Hankel option; otherwise the 2-D
        FFT of the combined kernel multiplied, in its band, by the A-kernel re-centred by half
        a kernel, then the truncation search when a percentage is set. */
    method GenerateConvolutionKernelAproj(a: seq<seq<real>>, num: Numerics) returns (o: Outcome<string>)
      requires Valid() && oversampling > 0
      requires combKernel.Length0 == arraySize && combKernel.Length1 == arraySize
      requires |a| >= 2 * (kernelSize / 2) && forall r :: 0 <= r < |a| ==> |a[r]| == kernelSize
      requires TruncAt(wp.kernelTruncPerc) > 0.0 ==> arraySize > 0
      requires num.KeepsShape(arraySize)
      modifies this
      ensures Valid() && SettingsUnchanged() && wValue == old(wValue)
      ensures combKernel == old(combKernel) && kernelHalfQuadrant == old(kernelHalfQuadrant)
      ensures o.Fail? <==> wp.hankelOpt
      ensures o.Fail? ==> o.error == "A-Projection does not support Hankel transform optimization."
      ensures o.Fail? ==> convKernel == old(convKernel) && truncatedWpconvSupport == old(truncatedWpconvSupport)
      ensures o.Pass? ==>
        && convKernel == num.fft2d(AprojProduct(a))
        && truncatedWpconvSupport == if TruncAt(wp.kernelTruncPerc) > 0.0
           then TruncatedSupport(convKernel, TruncAt(wp.kernelTruncPerc)) else old(truncatedWpconvSupport)
    {
      if wp.hankelOpt {
        return Fail("A-Projection does not support Hankel transform optimization.");
      }
      var truncAt := TruncAt(wp.kernelTruncPerc);
      ArrayHoldsKernel();
      var tmp := MultiplyByAKernel(a);
      SnapshotIs(tmp, AprojProduct(a));
      convKernel := num.fft2d(Snapshot(tmp));
      if truncAt > 0.0 {
        TruncateConvKernel(truncAt);
      }
      return Pass;
    }

    /** Row (or column) of the convolution kernel that tap `t` of cache entry `z` reads. */
    function Gather(z: int, t: int): (g: nat)
      reads this
      requires arraySize > 0
      ensures g < arraySize
    {
      GatherIndex(arraySize, oversampling, truncatedWpconvSupport, z, t)
    }

    /** `m` is cache entry `(y, x)` of the non-Hankel branch, before normalisation: a
        `(2*support+1)`-square matrix whose tap `(tx, ty)` is the convolution kernel at row
        `Gather(x, ty)` and column `Gather(y, tx)`. */
    ghost predicate IsCacheEntry(m: seq<seq<Cx>>, x: int, y: int)
      reads this
      requires arraySize > 0 && IsSquare(convKernel, arraySize)
    {
      var ts := 2 * truncatedWpconvSupport + 1;
      && IsSquare(m, ts)
      && forall tx, ty :: 0 <= tx < ts && 0 <= ty < ts ==> m[tx][ty] == convKernel[Gather(x, ty)][Gather(y, tx)]
    }

    /** The two inner loops of `generate_kernel_cache` (non-Hankel branch) for entry `(y, x)`,
        writing the gathered taps into the buffer `tmp`. */
    method FillCacheEntry(tmp: array2<Cx>, x: int, y: int, oversampConv: nat)
      requires arraySize > 0 && IsSquare(convKernel, arraySize)
      requires tmp.Length0 == 2 * truncatedWpconvSupport + 1 && tmp.Length1 == 2 * truncatedWpconvSupport + 1
      requires oversampConv == Wrap64(arraySize / 2 - truncatedWpconvSupport * oversampling + oversampling / 2)
      modifies tmp
      ensures forall tx, ty :: 0 <= tx < tmp.Length0 && 0 <= ty < tmp.Length1 ==>
        tmp[tx, ty] == convKernel[Gather(x, ty)][Gather(y, tx)]
    {
      var arr, os, mcs := arraySize, oversampling, truncatedWpconvSupport;
      var ts := 2 * mcs + 1;
      var xxStart := Wrap64(oversampConv - x);
      GatherStartFirst(arr, os, mcs, x);
      var ty := 0;
      while ty < ts
        invariant 0 <= ty <= ts
        invariant xxStart == GatherStart(arr, os, mcs, x, ty)
        invariant forall tx', ty' :: 0 <= tx' < ts && 0 <= ty' < ty ==>
          tmp[tx', ty'] == convKernel[Gather(x, ty')][Gather(y, tx')]
      {
        FillCacheTaps(tmp, x, y, ty, xxStart, oversampConv);
        GatherStartNext(arr, os, mcs, x, ty);
        ty := ty + 1;
        xxStart := Wrap64(xxStart + os);
      }
    }

    /** The innermost loop of `generate_kernel_cache` (non-Hankel branch): column `ty` of the
        buffer, whose kernel row starts at `xxStart`, gathered along the `y` taps. */
    method FillCacheTaps(tmp: array2<Cx>, x: int, y: int, ty: int, xxStart: int, oversampConv: nat)
      requires arraySize > 0 && IsSquare(convKernel, arraySize)
      requires tmp.Length0 == 2 * truncatedWpconvSupport + 1 && tmp.Length1 == 2 * truncatedWpconvSupport + 1
      requires 0 <= ty < tmp.Length1
      requires xxStart == GatherStart(arraySize, oversampling, truncatedWpconvSupport, x, ty)
      requires oversampConv == Wrap64(arraySize / 2 - truncatedWpconvSupport * oversampling + oversampling / 2)
      modifies tmp
      ensures forall tx', ty' :: 0 <= tx' < tmp.Length0 && 0 <= ty' < tmp.Length1 ==>
        tmp[tx', ty'] == if ty' == ty then convKernel[Gather(x, ty)][Gather(y, tx')] else old(tmp[tx', ty'])
    {
      var arr, os, mcs := arraySize, oversampling, truncatedWpconvSupport;
      var ts := 2 * mcs + 1;
      var kernelHalfSize := arr / 2;
      var cx := Wrap64(xxStart + kernelHalfSize) % arr;
      GatherFromStart(arr, os, mcs, x, ty);
      var yyStart := Wrap64(oversampConv - y);
      GatherStartFirst(arr, os, mcs, y);
      var tx := 0;
      while tx < ts
        invariant 0 <= tx <= ts
        invariant yyStart == GatherStart(arr, os, mcs, y, tx)
        invariant forall tx', ty' :: 0 <= tx' < ts && 0 <= ty' < ts ==>
          tmp[tx', ty'] == if ty' == ty && tx' < tx then convKernel[Gather(x, ty)][Gather(y, tx')] else old(tmp[tx', ty'])
      {
        var cy := Wrap64(yyStart + kernelHalfSize) % arr;
        GatherFromStart(arr, os, mcs, y, tx);
        tmp[tx, ty] := convKernel[cx][cy];
        GatherStartNext(arr, os, mcs, y, tx);
        tx := tx + 1;
        yyStart := Wrap64(yyStart + os);
      }
    }

    /** A buffer holding the gathered taps of entry `(y, x)` is, copied out, that entry. */
    lemma BufferIsCacheEntry(tmp: array2<Cx>, x: int, y: int)
      requires arraySize > 0 && IsSquare(convKernel, arraySize)
      requires tmp.Length0 == 2 * truncatedWpconvSupport + 1 && tmp.Length1 == 2 * truncatedWpconvSupport + 1
      requires forall tx, ty :: 0 <= tx < tmp.Length0 && 0 <= ty < tmp.Length1 ==>
        tmp[tx, ty] == convKernel[Gather(x, ty)][Gather(y, tx)]
      ensures IsCacheEntry(Snapshot(tmp), x, y)
    {
    }

    /** `generate_kernel_cache`, non-Hankel branch: `(2*(oversampling/2)+1)`-square entries,
        one per sub-pixel offset, each gathering `(2*support+1)`-square taps of the
        convolution kernel. */
    method GenerateKernelCache() returns (cache: array2<seq<seq<Cx>>>)
      requires !wp.hankelOpt && arraySize > 0 && IsSquare(convKernel, arraySize)
      ensures fresh(cache) && cache.Length0 == CacheSize(oversampling) && cache.Length1 == CacheSize(oversampling)
      ensures forall y, x :: 0 <= y < cache.Length0 && 0 <= x < cache.Length1 ==> IsCacheEntry(cache[y, x], x, y)
    {
      var arr, os, mcs := arraySize, oversampling, truncatedWpconvSupport;
      var oversampledPixel := os / 2;
      var cacheSize := oversampledPixel * 2 + 1;
      var tmpCacheSize := 2 * mcs + 1;
      cache := new seq<seq<Cx>>[cacheSize, cacheSize]((_, _) => []);
      var tmp := new Cx[tmpCacheSize, tmpCacheSize]((_, _) => Zero());
      var oversampConv := Wrap64((arr / 2) as int - mcs * os + oversampledPixel);
      for x := 0 to cacheSize
        invariant forall y', x' :: 0 <= y' < cacheSize && 0 <= x' < x ==> IsCacheEntry(cache[y', x'], x', y')
      {
        for y := 0 to cacheSize
          invariant forall y', x' :: 0 <= y' < cacheSize && 0 <= x' < x + 1 && (x' < x || y' < y) ==>
            IsCacheEntry(cache[y', x'], x', y')
        {
          FillCacheEntry(tmp, x, y, oversampConv);
          BufferIsCacheEntry(tmp, x, y);
          cache[y, x] := Snapshot(tmp);
        }
      }
    }
  }

  /** The `WideFieldImaging` constructor with its check: it throws when `array_size` is odd,
      and otherwise builds the object. */
  method NewWideFieldImaging(kernelSize: nat, cellSize: real, oversampling: nat, scalingFactor: real,
                             wProj: WProjectionPars, rFft: FFTRoutine) returns (r: Result<WideFieldImaging, string>)
    ensures r.Failure? <==> (kernelSize * oversampling) % 2 == 1
    ensures r.Failure? ==> r.error == "array_size must be multiple of 2 for WideFieldImaging generation."
    ensures r.Success? ==>
      && r.value.Valid() && r.value.arraySize == kernelSize * oversampling
      && r.value.truncatedWpconvSupport == wProj.maxWpconvSupport
      && r.value.currentHankelKernelSize == wProj.maxWpconvSupport
      && r.value.rFft == (if kernelSize * oversampling < 4 then FFTW_ESTIMATE_FFT else rFft)
  {
    var check := ValidateArraySize(kernelSize, oversampling);
    if check.Fail? {
      return Failure(check.error);
    }
    var w := new WideFieldImaging(kernelSize, cellSize, oversampling, scalingFactor, wProj, rFft);
    return Success(w);
  }
}
