/** Wrap-around convolutional gridding with pre-computed oversampled kernels.

    Each good visibility has an integer kernel centre on the uv-grid. The centres are first
    half-shifted into the FFT layout. The grid is then filled by `kernel_size = 2*support+1`
    workers: worker `b` writes only the grid columns congruent to `b` modulo `kernel_size`,
    which is what keeps the parallel writes apart. Columns near the left or right border
    are placed a second time with the centre moved by one image width; rows wrap
    periodically. Every write adds `vis * k` to the visibility grid and `k` to the
    sampling grid for the same kernel value `k`. */
module ConvolutionGridding {
  import opened Complex
  import opened Wrappers
  import opened IntArith

  // ---------------------------------------------------------------- half shift

  /** The in-place shift applied to every kernel centre: values below the offset move up by
      it, the others move down by it. */
  function HalfShift(v: int, shiftOffset: int): (r: int)
    ensures 0 <= v < 2 * shiftOffset ==> 0 <= r < 2 * shiftOffset && (r < shiftOffset <==> v >= shiftOffset)
  {
    if v < shiftOffset then v + shiftOffset else v - shiftOffset
  }

  /** A centre on the grid stays on the grid (for any image size). */
  lemma HalfShiftStaysOnGrid(v: int, imageSize: nat)
    requires 0 <= v < imageSize
    ensures 0 <= HalfShift(v, imageSize / 2) < imageSize
  {
  }

  /** For an even image size the shift is the cyclic FFT shift by half the image, and it is
      its own inverse. */
  lemma HalfShiftIsFftShift(v: int, imageSize: nat)
    requires imageSize % 2 == 0 && 0 <= v < imageSize
    ensures HalfShift(v, imageSize / 2) == (v + imageSize / 2) % imageSize
    ensures HalfShift(HalfShift(v, imageSize / 2), imageSize / 2) == v
  {
    var h := imageSize / 2;
    if v < h {
      ModUnique(v + h, imageSize, 0, v + h);
    } else {
      ModUnique(v + h, imageSize, 1, v - h);
    }
  }

  /** The `for_each` over the matrix of kernel centres (one row per visibility). */
  method ShiftCentres(centres: array2<int>, imageSize: nat)
    modifies centres
    ensures forall i, j :: 0 <= i < centres.Length0 && 0 <= j < centres.Length1 ==>
      centres[i, j] == HalfShift(old(centres[i, j]), imageSize / 2)
  {
    // `ceil` is applied to an integer quotient, so the offset is the truncated half.
    var shiftOffset := imageSize / 2;
    var i := 0;
    while i < centres.Length0
      invariant 0 <= i <= centres.Length0
      invariant forall i', j :: 0 <= i' < i && 0 <= j < centres.Length1 ==>
        centres[i', j] == HalfShift(old(centres[i', j]), shiftOffset)
      invariant forall i', j :: i <= i' < centres.Length0 && 0 <= j < centres.Length1 ==>
        centres[i', j] == old(centres[i', j])
    {
      var j := 0;
      while j < centres.Length1
        invariant 0 <= j <= centres.Length1
        invariant forall i', j' :: 0 <= i' < i && 0 <= j' < centres.Length1 ==>
          centres[i', j'] == HalfShift(old(centres[i', j']), shiftOffset)
        invariant forall j' :: 0 <= j' < j ==> centres[i, j'] == HalfShift(old(centres[i, j']), shiftOffset)
        invariant forall i', j' :: i <= i' < centres.Length0 && 0 <= j' < centres.Length1 && (i' != i || j' >= j) ==>
          centres[i', j'] == old(centres[i', j'])
      {
        var val := centres[i, j];
        if val < shiftOffset {
          val := val + shiftOffset;
        } else {
          val := val - shiftOffset;
        }
        centres[i, j] := val;
        j := j + 1;
      }
      i := i + 1;
    }
  }

  // ---------------------------------------------------------------- column placement

  function KernelSize(support: nat): nat { 2 * support + 1 }

  /** Signed offset of a grid column from the kernel centre, from the remainder of the
      (positive) dividend `gc_x - b + m*kernel_size` folded into [-support, support]. */
  function ConvCol(dividend: int, support: nat): (c: int)
    ensures dividend >= 0 ==> -(support as int) <= c <= support
    ensures dividend >= 0 ==> (dividend - c) % KernelSize(support) == 0
  {
    var ks := KernelSize(support);
    var c := CRem(dividend, ks);
    FoldedRemainder(dividend, support);
    if c > support then c - ks else c
  }

  lemma FoldedRemainder(d: int, support: nat)
    ensures var ks := KernelSize(support);
      d >= 0 ==> var c := d % ks; var f := if c > support then c - ks else c;
        -(support as int) <= f <= support && (d - f) % ks == 0
  {
    if d >= 0 {
      var ks := KernelSize(support);
      var c := d % ks;
      if c > support {
        ModUnique(d - (c - ks), ks, d / ks + 1, 0);
      } else {
        ModUnique(d - c, ks, d / ks, 0);
      }
    }
  }

  /** A grid column together with the signed kernel offset it receives. */
  datatype Placement = Placement(gridCol: int, convCol: int)

  /** The kernel window of columns centred on `centre`. */
  predicate InWindow(col: int, centre: int, support: nat)
  {
    centre - support <= col <= centre + support
  }

  /** What worker `b` may write for a kernel centred on `centre`: a column of the grid in the
      window, congruent to `b`, at the offset that separates it from the centre. */
  predicate IsWorkerPlacement(p: Placement, centre: int, b: nat, imageSize: nat, support: nat)
  {
    && p.gridCol == centre - p.convCol
    && -(support as int) <= p.convCol <= support
    && 0 <= p.gridCol < imageSize
    && p.gridCol % KernelSize(support) == b
  }

  /** No column of the window that is congruent to `b` lies on the grid. */
  predicate NoWorkerColumn(centre: int, b: nat, imageSize: nat, support: nat)
  {
    forall col :: InWindow(col, centre, support) && col % KernelSize(support) == b ==> !(0 <= col < imageSize)
  }

  /** Two columns of one window with the same residue are the same column. */
  lemma WindowResidueUnique(c1: int, c2: int, centre: int, support: nat)
    requires InWindow(c1, centre, support) && InWindow(c2, centre, support)
    requires c1 % KernelSize(support) == c2 % KernelSize(support)
    ensures c1 == c2
  {
    var ks := KernelSize(support);
    var q1, q2, r := c1 / ks, c2 / ks, c1 % ks;
    assert c1 == ks * q1 + r && c2 == ks * q2 + r;
    assert c1 - c2 == ks * (q1 - q2) by {
      assert ks * (q1 - q2) == ks * q1 - ks * q2;
    }
    if c1 > c2 {
      ModUnique(c1 - c2, ks, q1 - q2, 0);
      ModUnique(c1 - c2, ks, 0, c1 - c2);
    } else if c1 < c2 {
      ModUnique(c2 - c1, ks, q2 - q1, 0);
      ModUnique(c2 - c1, ks, 0, c2 - c1);
    }
  }

  /** The column of the window that `ConvCol` picks for worker `b` from the dividend
      `centre - b + m*kernel_size`: inside the window and congruent to `b`. */
  lemma ConvColResidue(centre: int, b: nat, support: nat, m: int)
    requires b < KernelSize(support) && centre - b + m * KernelSize(support) >= 0
    ensures var conv := ConvCol(centre - b + m * KernelSize(support), support);
      InWindow(centre - conv, centre, support) && (centre - conv) % KernelSize(support) == b
  {
    var ks := KernelSize(support);
    var d := centre - b + m * ks;
    var conv := ConvCol(d, support);
    var col := centre - conv;
    var q := (d - conv) / ks;
    assert d - conv == ks * q;
    assert col == ks * (q - m) + b by {
      assert ks * (q - m) == ks * q - ks * m;
    }
    ModUnique(col, ks, q - m, b);
  }

  /** Within one window, the column `ConvCol` picks is the only one congruent to `b`. */
  lemma OnlyWorkerColumn(centre: int, b: nat, support: nat, m: int)
    requires b < KernelSize(support) && centre - b + m * KernelSize(support) >= 0
    ensures var conv := ConvCol(centre - b + m * KernelSize(support), support);
      && InWindow(centre - conv, centre, support) && (centre - conv) % KernelSize(support) == b
      && forall col :: InWindow(col, centre, support) && col % KernelSize(support) == b ==> col == centre - conv
  {
    ConvColResidue(centre, b, support, m);
    var conv := ConvCol(centre - b + m * KernelSize(support), support);
    forall col | InWindow(col, centre, support) && col % KernelSize(support) == b
      ensures col == centre - conv
    {
      WindowResidueUnique(col, centre - conv, centre, support);
    }
  }

  /** The first placement of a visibility for worker `b`: the window column congruent to
      `b`, if it is on the grid. */
  function DirectPlacement(gcX: int, b: nat, imageSize: nat, support: nat): (p: Option<Placement>)
    ensures p.Some? ==> 0 <= p.value.gridCol < imageSize && p.value.gridCol == gcX - p.value.convCol
    ensures p.Some? && gcX >= 0 && b < KernelSize(support) ==> -(support as int) <= p.value.convCol <= support
  {
    var conv := ConvCol(gcX - b + KernelSize(support), support);
    if 0 <= gcX - conv < imageSize then Some(Placement(gcX - conv, conv)) else None
  }

  /** The first placement is a column worker `b` may write, and there is none only when no
      column of the window congruent to `b` is on the grid. */
  lemma DirectPlacementSound(gcX: int, b: nat, imageSize: nat, support: nat)
    requires 0 <= gcX && b < KernelSize(support)
    ensures var p := DirectPlacement(gcX, b, imageSize, support);
      && (p.Some? ==> IsWorkerPlacement(p.value, gcX, b, imageSize, support))
      && (p.None? ==> NoWorkerColumn(gcX, b, imageSize, support))
  {
    OnlyWorkerColumn(gcX, b, support, 1);
  }

  /** A centre close enough to the left or right border to be placed a second time. */
  predicate IsBorder(gcX: int, imageSize: nat, support: nat)
  {
    gcX >= imageSize - support || gcX < support
  }

  /** The centre used for the second placement: one image width to the left when near the
      right border, one image width to the right otherwise. */
  function RetryCentre(gcX: int, imageSize: nat, support: nat): int
  {
    if gcX >= imageSize - support then gcX - imageSize else gcX + imageSize
  }

  /** The second placement of a border visibility for worker `b`: the column congruent to `b`
      in the window around the wrapped centre, if it is on the grid. */
  function RetryPlacement(gcX: int, b: nat, imageSize: nat, support: nat): (p: Option<Placement>)
    ensures p.Some? ==> IsBorder(gcX, imageSize, support) && 0 <= p.value.gridCol < imageSize
    ensures p.Some? ==> p.value.gridCol == RetryCentre(gcX, imageSize, support) - p.value.convCol
    ensures p.Some? && 0 <= gcX < imageSize && b < KernelSize(support) ==> -(support as int) <= p.value.convCol <= support
  {
    var ks := KernelSize(support);
    if gcX >= imageSize - support then
      var x := gcX - imageSize;
      var conv := ConvCol(x - b + ks * 2, support);
      if 0 <= x - conv < imageSize then Some(Placement(x - conv, conv)) else None
    else if gcX < support then
      var x := gcX + imageSize;
      var conv := ConvCol(x - b + ks, support);
      if 0 <= x - conv < imageSize then Some(Placement(x - conv, conv)) else None
    else
      None
  }

  /** The three dividends whose remainder places a column, taken in `size_t` by the source,
      are non-negative for an on-grid centre and a worker below `kernel_size`: there the
      unsigned remainder is the mathematical one and never sees a wrapped operand. */
  lemma PlacementDividendsNonNegative(gcX: int, b: nat, imageSize: nat, support: nat)
    requires 0 <= gcX < imageSize && b < KernelSize(support)
    ensures gcX - b + KernelSize(support) > 0
    ensures gcX >= imageSize - support ==> (gcX - imageSize) - b + KernelSize(support) * 2 > 0
    ensures (gcX + imageSize) - b + KernelSize(support) > 0
  {
  }

  /** Only a border centre has a second placement; it is a column worker `b` may write around
      the wrapped centre, and a border centre has none only when no column of that window
      congruent to `b` is on the grid. */
  lemma RetryPlacementSound(gcX: int, b: nat, imageSize: nat, support: nat)
    requires 0 <= gcX < imageSize && b < KernelSize(support)
    ensures var p := RetryPlacement(gcX, b, imageSize, support);
      && (p.Some? ==> IsBorder(gcX, imageSize, support))
      && (p.Some? ==> IsWorkerPlacement(p.value, RetryCentre(gcX, imageSize, support), b, imageSize, support))
      && (p.None? && IsBorder(gcX, imageSize, support) ==>
          NoWorkerColumn(RetryCentre(gcX, imageSize, support), b, imageSize, support))
  {
    if gcX >= imageSize - support {
      OnlyWorkerColumn(gcX - imageSize, b, support, 2);
    } else if gcX < support {
      OnlyWorkerColumn(gcX + imageSize, b, support, 1);
    }
  }

  /** Every window column on the grid is the first placement of worker `col mod kernel_size`. */
  lemma DirectCoversWindow(gcX: int, col: int, imageSize: nat, support: nat)
    requires 0 <= gcX && InWindow(col, gcX, support) && 0 <= col < imageSize
    ensures DirectPlacement(gcX, col % KernelSize(support), imageSize, support) == Some(Placement(col, gcX - col))
  {
    OnlyWorkerColumn(gcX, col % KernelSize(support), support, 1);
  }

  /** For a border centre, every column on the grid in the window around the wrapped centre
      is the second placement of worker `col mod kernel_size`. */
  lemma RetryCoversWindow(gcX: int, col: int, imageSize: nat, support: nat)
    requires 0 <= gcX < imageSize && IsBorder(gcX, imageSize, support)
    requires InWindow(col, RetryCentre(gcX, imageSize, support), support) && 0 <= col < imageSize
    ensures RetryPlacement(gcX, col % KernelSize(support), imageSize, support)
      == Some(Placement(col, RetryCentre(gcX, imageSize, support) - col))
  {
    var x := RetryCentre(gcX, imageSize, support);
    if gcX >= imageSize - support {
      OnlyWorkerColumn(x, col % KernelSize(support), support, 2);
    } else {
      OnlyWorkerColumn(x, col % KernelSize(support), support, 1);
    }
  }

  // ---------------------------------------------------------------- row wrap

  /** Grid row of kernel row `i`, corrected once by one image width. It is the periodic
      row `(gc_y - support + i) mod image_size`. */
  function GridRow(gcY: int, support: nat, i: nat, imageSize: nat): (r: int)
    requires 0 <= gcY < imageSize && support < imageSize && i < KernelSize(support)
    ensures 0 <= r < imageSize
    ensures r == (gcY - support + i) % imageSize
  {
    var row := gcY - support + i;
    var row1 := if row >= imageSize then row - imageSize else row;
    PeriodicRow(row, imageSize);
    if row1 < 0 then row1 + imageSize else row1
  }

  /** A row at most one image width off the grid is brought back by one correction. */
  lemma PeriodicRow(row: int, imageSize: nat)
    requires -(imageSize as int) < row < 2 * imageSize
    ensures var row1 := if row >= imageSize then row - imageSize else row;
      (if row1 < 0 then row1 + imageSize else row1) == row % imageSize
  {
    if row >= imageSize {
      ModUnique(row, imageSize, 1, row - imageSize);
    } else if row < 0 {
      ModUnique(row, imageSize, -1, row + imageSize);
    } else {
      ModUnique(row, imageSize, 0, row);
    }
  }

  // ---------------------------------------------------------------- accumulated weights

  /** What the worker reads for one visibility: its (half-shifted) kernel centre, its
      oversampled kernel offset and its visibility value. */
  datatype Sample = Sample(gcX: int, gcY: int, cpX: int, cpY: int, vis: Cx)

  /** `kernel_cache(cp_y, cp_x).at(row, col)`; the kernel values are opaque. */
  type KernelCache = (int, int, int, int) -> real

  predicate OnGrid(s: Sample, imageSize: nat)
  {
    0 <= s.gcX < imageSize && 0 <= s.gcY < imageSize
  }

  predicate AllOnGrid(samples: seq<Sample>, imageSize: nat)
  {
    forall k :: 0 <= k < |samples| ==> OnGrid(samples[k], imageSize)
  }

  /** Total kernel weight that kernel rows `0 .. n-1`, read at kernel column `kcol`, add to
      grid row `r` when rows wrap periodically. */
  function ColumnWeight(s: Sample, kcol: int, r: int, kernel: KernelCache, support: nat, imageSize: nat, n: nat): real
    requires OnGrid(s, imageSize) && support < imageSize && n <= KernelSize(support)
  {
    if n == 0 then 0.0
    else
      ColumnWeight(s, kcol, r, kernel, support, imageSize, n - 1)
      + (if (s.gcY - support + (n - 1)) % imageSize == r then kernel(s.cpY, s.cpX, n - 1, kcol) else 0.0)
  }

  /** Weight that kernel rows `0 .. n-1` of a placement add at cell (r, c). */
  function ColumnDelta(s: Sample, p: Placement, r: int, c: int, kernel: KernelCache, support: nat, imageSize: nat, n: nat): real
    requires OnGrid(s, imageSize) && support < imageSize && n <= KernelSize(support)
  {
    if c == p.gridCol then ColumnWeight(s, support - p.convCol, r, kernel, support, imageSize, n) else 0.0
  }

  /** One more kernel row adds its kernel value at the wrapped row of the placement's column,
      and nothing elsewhere. */
  lemma ColumnDeltaStep(s: Sample, p: Placement, r: int, c: int, kernel: KernelCache, support: nat, imageSize: nat, i: nat)
    requires OnGrid(s, imageSize) && support < imageSize && i < KernelSize(support)
    ensures ColumnDelta(s, p, r, c, kernel, support, imageSize, i + 1)
      == ColumnDelta(s, p, r, c, kernel, support, imageSize, i)
         + (if c == p.gridCol && r == GridRow(s.gcY, support, i, imageSize) then kernel(s.cpY, s.cpX, i, support - p.convCol) else 0.0)
  {
  }

  /** Weight that one placement, if any, adds at cell (r, c). */
  function PlacementWeight(s: Sample, p: Option<Placement>, r: int, c: int, kernel: KernelCache, support: nat, imageSize: nat): real
    requires OnGrid(s, imageSize) && support < imageSize
  {
    if p.Some? then ColumnDelta(s, p.value, r, c, kernel, support, imageSize, KernelSize(support)) else 0.0
  }

  /** Weight that worker `b` adds at cell (r, c) for one visibility: its first placement plus,
      for border centres, its second one. */
  function SampleWeight(s: Sample, b: nat, r: int, c: int, kernel: KernelCache, support: nat, imageSize: nat): real
    requires OnGrid(s, imageSize) && support < imageSize && b < KernelSize(support)
  {
    PlacementWeight(s, DirectPlacement(s.gcX, b, imageSize, support), r, c, kernel, support, imageSize)
    + PlacementWeight(s, RetryPlacement(s.gcX, b, imageSize, support), r, c, kernel, support, imageSize)
  }

  /** Sampling-grid increment of worker `b` at (r, c) over a sequence of visibilities. */
  function WorkerWeight(samples: seq<Sample>, b: nat, r: int, c: int, kernel: KernelCache, support: nat, imageSize: nat): real
    requires AllOnGrid(samples, imageSize) && support < imageSize && b < KernelSize(support)
  {
    if |samples| == 0 then 0.0
    else
      WorkerWeight(samples[..|samples| - 1], b, r, c, kernel, support, imageSize)
      + SampleWeight(samples[|samples| - 1], b, r, c, kernel, support, imageSize)
  }

  /** Visibility-grid increment of worker `b` at (r, c): each visibility times its weight. */
  function WorkerVis(samples: seq<Sample>, b: nat, r: int, c: int, kernel: KernelCache, support: nat, imageSize: nat): Cx
    requires AllOnGrid(samples, imageSize) && support < imageSize && b < KernelSize(support)
  {
    if |samples| == 0 then Zero()
    else
      var s := samples[|samples| - 1];
      Add(WorkerVis(samples[..|samples| - 1], b, r, c, kernel, support, imageSize),
          Scale(s.vis, SampleWeight(s, b, r, c, kernel, support, imageSize)))
  }

  /** Sampling-grid increment of workers `0 .. nb-1` at (r, c). */
  function StepWeight(samples: seq<Sample>, nb: nat, r: int, c: int, kernel: KernelCache, support: nat, imageSize: nat): real
    requires AllOnGrid(samples, imageSize) && support < imageSize && nb <= KernelSize(support)
  {
    if nb == 0 then 0.0
    else StepWeight(samples, nb - 1, r, c, kernel, support, imageSize) + WorkerWeight(samples, nb - 1, r, c, kernel, support, imageSize)
  }

  /** Visibility-grid increment of workers `0 .. nb-1` at (r, c). */
  function StepVis(samples: seq<Sample>, nb: nat, r: int, c: int, kernel: KernelCache, support: nat, imageSize: nat): Cx
    requires AllOnGrid(samples, imageSize) && support < imageSize && nb <= KernelSize(support)
  {
    if nb == 0 then Zero()
    else Add(StepVis(samples, nb - 1, r, c, kernel, support, imageSize), WorkerVis(samples, nb - 1, r, c, kernel, support, imageSize))
  }

  /** For one visibility, worker `b` adds nothing to a column that is not congruent to `b`. */
  lemma SampleStaysInResidueClass(s: Sample, b: nat, r: int, c: int, kernel: KernelCache, support: nat, imageSize: nat)
    requires OnGrid(s, imageSize) && support < imageSize && b < KernelSize(support)
    requires c % KernelSize(support) != b
    ensures SampleWeight(s, b, r, c, kernel, support, imageSize) == 0.0
  {
    DirectPlacementSound(s.gcX, b, imageSize, support);
    RetryPlacementSound(s.gcX, b, imageSize, support);
  }

  /** Worker `b` adds nothing to a column that is not congruent to `b`. */
  lemma {:induction false} WorkerStaysInResidueClass(samples: seq<Sample>, b: nat, r: int, c: int, kernel: KernelCache, support: nat, imageSize: nat)
    requires AllOnGrid(samples, imageSize) && support < imageSize && b < KernelSize(support)
    requires c % KernelSize(support) != b
    ensures WorkerWeight(samples, b, r, c, kernel, support, imageSize) == 0.0
    ensures WorkerVis(samples, b, r, c, kernel, support, imageSize) == Zero()
  {
    if |samples| > 0 {
      var init := samples[..|samples| - 1];
      assert AllOnGrid(init, imageSize);
      WorkerStaysInResidueClass(init, b, r, c, kernel, support, imageSize);
      SampleStaysInResidueClass(samples[|samples| - 1], b, r, c, kernel, support, imageSize);
    }
  }

  /** Disjointness of the parallel writes to the sampling grid: of workers `0 .. nb-1`,
      only worker `c mod kernel_size` contributes to column `c`. */
  lemma {:induction false} OneWorkerPerColumn(samples: seq<Sample>, nb: nat, r: int, c: int, kernel: KernelCache, support: nat, imageSize: nat)
    requires AllOnGrid(samples, imageSize) && support < imageSize && nb <= KernelSize(support)
    ensures StepWeight(samples, nb, r, c, kernel, support, imageSize)
      == (if c % KernelSize(support) < nb then WorkerWeight(samples, c % KernelSize(support), r, c, kernel, support, imageSize) else 0.0)
  {
    if nb > 0 {
      var b := c % KernelSize(support);
      var prev := StepWeight(samples, nb - 1, r, c, kernel, support, imageSize);
      var last := WorkerWeight(samples, nb - 1, r, c, kernel, support, imageSize);
      assert StepWeight(samples, nb, r, c, kernel, support, imageSize) == prev + last;
      OneWorkerPerColumn(samples, nb - 1, r, c, kernel, support, imageSize);
      if b != nb - 1 {
        WorkerStaysInResidueClass(samples, nb - 1, r, c, kernel, support, imageSize);
        assert last == 0.0;
      } else {
        assert prev == 0.0;
      }
    }
  }

  /** The same disjointness for the visibility grid. */
  lemma {:induction false} OneWorkerPerColumnVis(samples: seq<Sample>, nb: nat, r: int, c: int, kernel: KernelCache, support: nat, imageSize: nat)
    requires AllOnGrid(samples, imageSize) && support < imageSize && nb <= KernelSize(support)
    ensures StepVis(samples, nb, r, c, kernel, support, imageSize)
      == (if c % KernelSize(support) < nb then WorkerVis(samples, c % KernelSize(support), r, c, kernel, support, imageSize) else Zero())
  {
    if nb > 0 {
      var b := c % KernelSize(support);
      var prev := StepVis(samples, nb - 1, r, c, kernel, support, imageSize);
      var last := WorkerVis(samples, nb - 1, r, c, kernel, support, imageSize);
      assert StepVis(samples, nb, r, c, kernel, support, imageSize) == Add(prev, last);
      OneWorkerPerColumnVis(samples, nb - 1, r, c, kernel, support, imageSize);
      if b != nb - 1 {
        WorkerStaysInResidueClass(samples, nb - 1, r, c, kernel, support, imageSize);
        assert last == Zero();
        AddZero(prev);
        assert StepVis(samples, nb, r, c, kernel, support, imageSize) == prev;
        assert (b < nb - 1) == (b < nb);
      } else {
        assert prev == Zero();
        ZeroAdd(last);
        assert StepVis(samples, nb, r, c, kernel, support, imageSize) == last;
      }
    }
  }

  // ---------------------------------------------------------------- periodic gridding

  /** The reference behaviour: the kernel wraps around the grid in both directions. Kernel
      column `j` lands on grid column `(gc_x - support + j) mod image_size`, so the column
      that lands on `c` is `(c - gc_x + support) mod image_size`, if that is a kernel column. */
  function PeriodicWeight(s: Sample, r: int, c: int, kernel: KernelCache, support: nat, imageSize: nat): (w: real)
    requires OnGrid(s, imageSize) && support < imageSize
    ensures (c - s.gcX + support) % imageSize >= KernelSize(support) ==> w == 0.0
  {
    var j := (c - s.gcX + support) % imageSize;
    if j < KernelSize(support) then ColumnWeight(s, j, r, kernel, support, imageSize, KernelSize(support)) else 0.0
  }

  /** Periodic sampling-grid value at (r, c) of a sequence of visibilities. */
  function GridWeight(samples: seq<Sample>, r: int, c: int, kernel: KernelCache, support: nat, imageSize: nat): real
    requires AllOnGrid(samples, imageSize) && support < imageSize
  {
    if |samples| == 0 then 0.0
    else
      GridWeight(samples[..|samples| - 1], r, c, kernel, support, imageSize)
      + PeriodicWeight(samples[|samples| - 1], r, c, kernel, support, imageSize)
  }

  /** Periodic visibility-grid value at (r, c) of a sequence of visibilities. */
  function GridVis(samples: seq<Sample>, r: int, c: int, kernel: KernelCache, support: nat, imageSize: nat): Cx
    requires AllOnGrid(samples, imageSize) && support < imageSize
  {
    if |samples| == 0 then Zero()
    else
      var s := samples[|samples| - 1];
      Add(GridVis(samples[..|samples| - 1], r, c, kernel, support, imageSize),
          Scale(s.vis, PeriodicWeight(s, r, c, kernel, support, imageSize)))
  }

  /** What the first placement of worker `c mod kernel_size` adds in column `c`: the kernel
      column at offset `c - gc_x` if `c` is in the window, and nothing otherwise. */
  lemma DirectWeightAt(s: Sample, r: int, c: int, kernel: KernelCache, support: nat, imageSize: nat)
    requires OnGrid(s, imageSize) && support < imageSize && 0 <= c < imageSize
    ensures PlacementWeight(s, DirectPlacement(s.gcX, c % KernelSize(support), imageSize, support), r, c, kernel, support, imageSize)
      == if InWindow(c, s.gcX, support) then ColumnWeight(s, support - s.gcX + c, r, kernel, support, imageSize, KernelSize(support)) else 0.0
  {
    if InWindow(c, s.gcX, support) {
      DirectCoversWindow(s.gcX, c, imageSize, support);
    }
  }

  /** What the second placement of worker `c mod kernel_size` adds in column `c`. */
  lemma RetryWeightAt(s: Sample, r: int, c: int, kernel: KernelCache, support: nat, imageSize: nat)
    requires OnGrid(s, imageSize) && support < imageSize && 0 <= c < imageSize
    ensures var x := RetryCentre(s.gcX, imageSize, support);
      PlacementWeight(s, RetryPlacement(s.gcX, c % KernelSize(support), imageSize, support), r, c, kernel, support, imageSize)
      == if IsBorder(s.gcX, imageSize, support) && InWindow(c, x, support)
         then ColumnWeight(s, support - x + c, r, kernel, support, imageSize, KernelSize(support)) else 0.0
  {
    var x := RetryCentre(s.gcX, imageSize, support);
    if IsBorder(s.gcX, imageSize, support) && InWindow(c, x, support) {
      RetryCoversWindow(s.gcX, c, imageSize, support);
    }
  }

  /** When the kernel is no wider than the image, the two placements of worker
      `c mod kernel_size` together put into column `c` exactly what periodic gridding puts
      there. */
  lemma SampleWeightIsPeriodic(s: Sample, r: int, c: int, kernel: KernelCache, support: nat, imageSize: nat)
    requires OnGrid(s, imageSize) && KernelSize(support) <= imageSize && 0 <= c < imageSize
    ensures SampleWeight(s, c % KernelSize(support), r, c, kernel, support, imageSize)
      == PeriodicWeight(s, r, c, kernel, support, imageSize)
  {
    var v := c - s.gcX + support;
    if 0 <= v < imageSize {
      ModUnique(v, imageSize, 0, v);
    } else if v < 0 {
      ModUnique(v, imageSize, -1, v + imageSize);
    } else {
      ModUnique(v, imageSize, 1, v - imageSize);
    }
    DirectWeightAt(s, r, c, kernel, support, imageSize);
    RetryWeightAt(s, r, c, kernel, support, imageSize);
  }

  /** Worker `c mod kernel_size` alone produces the periodic gridding of column `c`. */
  lemma {:induction false} WorkerIsPeriodic(samples: seq<Sample>, r: int, c: int, kernel: KernelCache, support: nat, imageSize: nat)
    requires AllOnGrid(samples, imageSize) && KernelSize(support) <= imageSize && 0 <= c < imageSize
    ensures WorkerWeight(samples, c % KernelSize(support), r, c, kernel, support, imageSize)
      == GridWeight(samples, r, c, kernel, support, imageSize)
    ensures WorkerVis(samples, c % KernelSize(support), r, c, kernel, support, imageSize)
      == GridVis(samples, r, c, kernel, support, imageSize)
  {
    if |samples| > 0 {
      var init := samples[..|samples| - 1];
      assert AllOnGrid(init, imageSize);
      WorkerIsPeriodic(init, r, c, kernel, support, imageSize);
      SampleWeightIsPeriodic(samples[|samples| - 1], r, c, kernel, support, imageSize);
    }
  }

  /** Wrap-around gridding is periodic convolution: after all `kernel_size` workers, each cell
      of both grids holds its periodic gridding value. */
  lemma StepIsPeriodic(samples: seq<Sample>, r: int, c: int, kernel: KernelCache, support: nat, imageSize: nat)
    requires AllOnGrid(samples, imageSize) && KernelSize(support) <= imageSize && 0 <= c < imageSize
    ensures StepWeight(samples, KernelSize(support), r, c, kernel, support, imageSize)
      == GridWeight(samples, r, c, kernel, support, imageSize)
    ensures StepVis(samples, KernelSize(support), r, c, kernel, support, imageSize)
      == GridVis(samples, r, c, kernel, support, imageSize)
  {
    OneWorkerPerColumn(samples, KernelSize(support), r, c, kernel, support, imageSize);
    OneWorkerPerColumnVis(samples, KernelSize(support), r, c, kernel, support, imageSize);
    WorkerIsPeriodic(samples, r, c, kernel, support, imageSize);
  }

  /** `StepIsPeriodic` for every cell of the grid. */
  lemma GridIsPeriodic(samples: seq<Sample>, kernel: KernelCache, support: nat, imageSize: nat)
    requires AllOnGrid(samples, imageSize) && KernelSize(support) <= imageSize
    ensures forall r, c :: 0 <= r < imageSize && 0 <= c < imageSize ==>
      && StepWeight(samples, KernelSize(support), r, c, kernel, support, imageSize) == GridWeight(samples, r, c, kernel, support, imageSize)
      && StepVis(samples, KernelSize(support), r, c, kernel, support, imageSize) == GridVis(samples, r, c, kernel, support, imageSize)
  {
    forall r, c | 0 <= r < imageSize && 0 <= c < imageSize
      ensures StepWeight(samples, KernelSize(support), r, c, kernel, support, imageSize) == GridWeight(samples, r, c, kernel, support, imageSize)
      ensures StepVis(samples, KernelSize(support), r, c, kernel, support, imageSize) == GridVis(samples, r, c, kernel, support, imageSize)
    {
      StepIsPeriodic(samples, r, c, kernel, support, imageSize);
    }
  }

  // ---------------------------------------------------------------- the gridding loops

  /** The inner `for i` loop: kernel column `support - conv_col` is added down grid column
      `p.gridCol`, row by row with the periodic row wrap, to both grids. */
  method AddKernelColumn(visGrid: array2<Cx>, samplingGrid: array2<real>, s: Sample, p: Placement,
                         kernel: KernelCache, support: nat, imageSize: nat)
    requires visGrid.Length0 == visGrid.Length1 == imageSize
    requires samplingGrid.Length0 == samplingGrid.Length1 == imageSize
    requires OnGrid(s, imageSize) && support < imageSize && 0 <= p.gridCol < imageSize
    modifies visGrid, samplingGrid
    ensures forall r, c :: 0 <= r < imageSize && 0 <= c < imageSize ==>
      samplingGrid[r, c] == old(samplingGrid[r, c])
        + ColumnDelta(s, p, r, c, kernel, support, imageSize, KernelSize(support))
    ensures forall r, c :: 0 <= r < imageSize && 0 <= c < imageSize ==>
      visGrid[r, c] == Add(old(visGrid[r, c]),
        Scale(s.vis, ColumnDelta(s, p, r, c, kernel, support, imageSize, KernelSize(support))))
  {
    var kernelSize := KernelSize(support);
    var gridCol := p.gridCol;
    forall r, c | 0 <= r < imageSize && 0 <= c < imageSize
      ensures visGrid[r, c] == Add(old(visGrid[r, c]),
        Scale(s.vis, ColumnDelta(s, p, r, c, kernel, support, imageSize, 0)))
    {
      AddScaleZero(visGrid[r, c], s.vis);
    }
    for i := 0 to kernelSize
      invariant forall r, c :: 0 <= r < imageSize && 0 <= c < imageSize ==>
        samplingGrid[r, c] == old(samplingGrid[r, c])
          + ColumnDelta(s, p, r, c, kernel, support, imageSize, i)
      invariant forall r, c :: 0 <= r < imageSize && 0 <= c < imageSize ==>
        visGrid[r, c] == Add(old(visGrid[r, c]),
          Scale(s.vis, ColumnDelta(s, p, r, c, kernel, support, imageSize, i)))
    {
      var kernelVal := kernel(s.cpY, s.cpX, i, support - p.convCol);
      var gridRow := s.gcY - support + i;
      if gridRow >= imageSize {
        gridRow := gridRow - imageSize;
      }
      if gridRow < 0 {
        gridRow := gridRow + imageSize;
      }
      assert gridRow == GridRow(s.gcY, support, i, imageSize);
      visGrid[gridRow, gridCol] := Add(visGrid[gridRow, gridCol], Scale(s.vis, kernelVal));
      samplingGrid[gridRow, gridCol] := samplingGrid[gridRow, gridCol] + kernelVal;
      forall r, c | 0 <= r < imageSize && 0 <= c < imageSize
        ensures samplingGrid[r, c] == old(samplingGrid[r, c])
          + ColumnDelta(s, p, r, c, kernel, support, imageSize, i + 1)
        ensures visGrid[r, c] == Add(old(visGrid[r, c]),
          Scale(s.vis, ColumnDelta(s, p, r, c, kernel, support, imageSize, i + 1)))
      {
        ColumnDeltaStep(s, p, r, c, kernel, support, imageSize, i);
        if c == gridCol && r == gridRow {
          AddScaleTwice(old(visGrid[r, c]), s.vis, ColumnDelta(s, p, r, c, kernel, support, imageSize, i), kernelVal);
        }
      }
    }
  }

  /** Runs the inner loop for a placement that passed the bounds check, and nothing for a
      column off the grid. */
  method AddPlacement(visGrid: array2<Cx>, samplingGrid: array2<real>, s: Sample, p: Option<Placement>,
                      kernel: KernelCache, support: nat, imageSize: nat)
    requires visGrid.Length0 == visGrid.Length1 == imageSize
    requires samplingGrid.Length0 == samplingGrid.Length1 == imageSize
    requires OnGrid(s, imageSize) && support < imageSize
    requires p.Some? ==> 0 <= p.value.gridCol < imageSize
    modifies visGrid, samplingGrid
    ensures forall r, c :: 0 <= r < imageSize && 0 <= c < imageSize ==>
      samplingGrid[r, c] == old(samplingGrid[r, c]) + PlacementWeight(s, p, r, c, kernel, support, imageSize)
    ensures forall r, c :: 0 <= r < imageSize && 0 <= c < imageSize ==>
      visGrid[r, c] == Add(old(visGrid[r, c]), Scale(s.vis, PlacementWeight(s, p, r, c, kernel, support, imageSize)))
  {
    if p.Some? {
      AddKernelColumn(visGrid, samplingGrid, s, p.value, kernel, support, imageSize);
    } else {
      forall r, c | 0 <= r < imageSize && 0 <= c < imageSize
        ensures visGrid[r, c] == Add(old(visGrid[r, c]), Scale(s.vis, PlacementWeight(s, p, r, c, kernel, support, imageSize)))
      {
        AddScaleZero(visGrid[r, c], s.vis);
      }
    }
  }

  /** One visibility as seen by worker `b`: the first placement, then the border retry. The
      two grids receive `vis * k` and `k` at exactly the same cells. */
  method GridSample(visGrid: array2<Cx>, samplingGrid: array2<real>, s: Sample, b: nat,
                    kernel: KernelCache, support: nat, imageSize: nat)
    requires visGrid.Length0 == visGrid.Length1 == imageSize
    requires samplingGrid.Length0 == samplingGrid.Length1 == imageSize
    requires OnGrid(s, imageSize) && support < imageSize && b < KernelSize(support)
    modifies visGrid, samplingGrid
    ensures forall r, c :: 0 <= r < imageSize && 0 <= c < imageSize ==>
      samplingGrid[r, c] == old(samplingGrid[r, c]) + SampleWeight(s, b, r, c, kernel, support, imageSize)
    ensures forall r, c :: 0 <= r < imageSize && 0 <= c < imageSize ==>
      visGrid[r, c] == Add(old(visGrid[r, c]), Scale(s.vis, SampleWeight(s, b, r, c, kernel, support, imageSize)))
  {
    var direct := DirectPlacement(s.gcX, b, imageSize, support);
    AddPlacement(visGrid, samplingGrid, s, direct, kernel, support, imageSize);
    var retry := RetryPlacement(s.gcX, b, imageSize, support);
    label Direct:
    AddPlacement(visGrid, samplingGrid, s, retry, kernel, support, imageSize);
    forall r, c | 0 <= r < imageSize && 0 <= c < imageSize
      ensures samplingGrid[r, c] == old(samplingGrid[r, c]) + SampleWeight(s, b, r, c, kernel, support, imageSize)
      ensures visGrid[r, c] == Add(old(visGrid[r, c]), Scale(s.vis, SampleWeight(s, b, r, c, kernel, support, imageSize)))
    {
      var w1 := PlacementWeight(s, direct, r, c, kernel, support, imageSize);
      var w2 := PlacementWeight(s, retry, r, c, kernel, support, imageSize);
      assert old@Direct(samplingGrid[r, c]) == old(samplingGrid[r, c]) + w1;
      assert old@Direct(visGrid[r, c]) == Add(old(visGrid[r, c]), Scale(s.vis, w1));
      AddScaleTwice(old(visGrid[r, c]), s.vis, w1, w2);
    }
  }

  // ---------------------------------------------------------------- the workers

  /** The inputs of the gridding loop: kernel centres and oversampled kernel offsets (one row
      per visibility, columns x and y), the visibilities, and the indices of the good ones. */
  predicate ValidInputs(centres: array2<int>, offsets: array2<int>, vis: seq<Cx>, goodIdx: seq<nat>)
    reads centres, offsets
  {
    && centres.Length1 == 2 && offsets.Length1 == 2
    && centres.Length0 == offsets.Length0 == |vis|
    && forall k :: 0 <= k < |goodIdx| ==> goodIdx[k] < |vis|
  }

  /** What one worker reads for visibility `val`. */
  function SampleAt(centres: array2<int>, offsets: array2<int>, vis: seq<Cx>, val: nat): (s: Sample)
    reads centres, offsets
    requires centres.Length1 == 2 && offsets.Length1 == 2
    requires val < centres.Length0 && val < offsets.Length0 && val < |vis|
    ensures s.gcX == centres[val, 0] && s.gcY == centres[val, 1]
    ensures s.cpX == offsets[val, 0] && s.cpY == offsets[val, 1] && s.vis == vis[val]
  {
    Sample(centres[val, 0], centres[val, 1], offsets[val, 0], offsets[val, 1], vis[val])
  }

  /** The good visibilities in the order the workers visit them. */
  function Samples(centres: array2<int>, offsets: array2<int>, vis: seq<Cx>, goodIdx: seq<nat>): (ss: seq<Sample>)
    reads centres, offsets
    requires ValidInputs(centres, offsets, vis, goodIdx)
    ensures |ss| == |goodIdx|
    ensures forall k :: 0 <= k < |goodIdx| ==> ss[k] == SampleAt(centres, offsets, vis, goodIdx[k])
  {
    if |goodIdx| == 0 then []
    else Samples(centres, offsets, vis, goodIdx[..|goodIdx| - 1]) + [SampleAt(centres, offsets, vis, goodIdx[|goodIdx| - 1])]
  }

  /** Every good visibility has its kernel centre on the grid. */
  predicate CentresOnGrid(centres: array2<int>, goodIdx: seq<nat>, imageSize: nat)
    reads centres
    requires centres.Length1 == 2
  {
    forall k :: 0 <= k < |goodIdx| && goodIdx[k] < centres.Length0 ==>
      0 <= centres[goodIdx[k], 0] < imageSize && 0 <= centres[goodIdx[k], 1] < imageSize
  }

  /** The good visibilities all have their kernel centres on the grid. */
  lemma SamplesOnGrid(centres: array2<int>, offsets: array2<int>, vis: seq<Cx>, goodIdx: seq<nat>, imageSize: nat)
    requires ValidInputs(centres, offsets, vis, goodIdx) && CentresOnGrid(centres, goodIdx, imageSize)
    ensures AllOnGrid(Samples(centres, offsets, vis, goodIdx), imageSize)
  {
  }

  /** The contents of a grid, row by row. */
  ghost function Cells<T>(a: array2<T>): (g: seq<seq<T>>)
    reads a
    ensures |g| == a.Length0 && forall r :: 0 <= r < a.Length0 ==> |g[r]| == a.Length1
    ensures forall r, c :: 0 <= r < a.Length0 && 0 <= c < a.Length1 ==> g[r][c] == a[r, c]
  {
    seq(a.Length0, r requires 0 <= r < a.Length0 reads a => seq(a.Length1, c requires 0 <= c < a.Length1 reads a => a[r, c]))
  }

  /** Worker `b`'s increments over the first `k + 1` visibilities extend those over the first
      `k` by visibility `k`'s. */
  lemma WorkerSnoc(samples: seq<Sample>, k: nat, b: nat, r: int, c: int, kernel: KernelCache, support: nat, imageSize: nat)
    requires AllOnGrid(samples, imageSize) && support < imageSize && b < KernelSize(support) && k < |samples|
    ensures WorkerWeight(samples[..k + 1], b, r, c, kernel, support, imageSize)
      == WorkerWeight(samples[..k], b, r, c, kernel, support, imageSize) + SampleWeight(samples[k], b, r, c, kernel, support, imageSize)
    ensures WorkerVis(samples[..k + 1], b, r, c, kernel, support, imageSize)
      == Add(WorkerVis(samples[..k], b, r, c, kernel, support, imageSize),
             Scale(samples[k].vis, SampleWeight(samples[k], b, r, c, kernel, support, imageSize)))
  {
    assert samples[..k + 1][..k] == samples[..k];
  }

  /** One pass of a worker's loop: from grids holding `base` plus worker `b`'s increments over
      the first `k` visibilities, visibility `k` brings them to the first `k + 1`. */
  method WorkerVisit(visGrid: array2<Cx>, samplingGrid: array2<real>, ghost samples: seq<Sample>, k: nat, s: Sample,
                     b: nat, kernel: KernelCache, support: nat, imageSize: nat,
                     ghost baseVis: seq<seq<Cx>>, ghost baseWeight: seq<seq<real>>)
    requires visGrid.Length0 == visGrid.Length1 == imageSize
    requires samplingGrid.Length0 == samplingGrid.Length1 == imageSize
    requires AllOnGrid(samples, imageSize) && k < |samples| && samples[k] == s
    requires support < imageSize && b < KernelSize(support)
    requires |baseVis| == |baseWeight| == imageSize
    requires forall r :: 0 <= r < imageSize ==> |baseVis[r]| == |baseWeight[r]| == imageSize
    requires forall r, c :: 0 <= r < imageSize && 0 <= c < imageSize ==>
      samplingGrid[r, c] == baseWeight[r][c] + WorkerWeight(samples[..k], b, r, c, kernel, support, imageSize)
    requires forall r, c :: 0 <= r < imageSize && 0 <= c < imageSize ==>
      visGrid[r, c] == Add(baseVis[r][c], WorkerVis(samples[..k], b, r, c, kernel, support, imageSize))
    modifies visGrid, samplingGrid
    ensures forall r, c :: 0 <= r < imageSize && 0 <= c < imageSize ==>
      samplingGrid[r, c] == baseWeight[r][c] + WorkerWeight(samples[..k + 1], b, r, c, kernel, support, imageSize)
    ensures forall r, c :: 0 <= r < imageSize && 0 <= c < imageSize ==>
      visGrid[r, c] == Add(baseVis[r][c], WorkerVis(samples[..k + 1], b, r, c, kernel, support, imageSize))
  {
    GridSample(visGrid, samplingGrid, s, b, kernel, support, imageSize);
    forall r, c | 0 <= r < imageSize && 0 <= c < imageSize
      ensures samplingGrid[r, c] == baseWeight[r][c] + WorkerWeight(samples[..k + 1], b, r, c, kernel, support, imageSize)
      ensures visGrid[r, c] == Add(baseVis[r][c], WorkerVis(samples[..k + 1], b, r, c, kernel, support, imageSize))
    {
      WorkerSnoc(samples, k, b, r, c, kernel, support, imageSize);
      AddAssoc(baseVis[r][c], WorkerVis(samples[..k], b, r, c, kernel, support, imageSize),
               Scale(s.vis, SampleWeight(s, b, r, c, kernel, support, imageSize)));
    }
  }

  /** The body of one parallel task: worker `b` walks over all good visibilities. */
  method Worker(visGrid: array2<Cx>, samplingGrid: array2<real>, centres: array2<int>, offsets: array2<int>,
                vis: seq<Cx>, goodIdx: seq<nat>, b: nat, kernel: KernelCache, support: nat, imageSize: nat,
                ghost samples: seq<Sample>)
    requires visGrid.Length0 == visGrid.Length1 == imageSize
    requires samplingGrid.Length0 == samplingGrid.Length1 == imageSize
    requires ValidInputs(centres, offsets, vis, goodIdx) && CentresOnGrid(centres, goodIdx, imageSize)
    requires samples == Samples(centres, offsets, vis, goodIdx)
    requires support < imageSize && b < KernelSize(support)
    modifies visGrid, samplingGrid
    ensures forall r, c :: 0 <= r < imageSize && 0 <= c < imageSize ==>
      samplingGrid[r, c] == old(samplingGrid[r, c]) + WorkerWeight(samples, b, r, c, kernel, support, imageSize)
    ensures forall r, c :: 0 <= r < imageSize && 0 <= c < imageSize ==>
      visGrid[r, c] == Add(old(visGrid[r, c]), WorkerVis(samples, b, r, c, kernel, support, imageSize))
  {
    SamplesOnGrid(centres, offsets, vis, goodIdx, imageSize);
    ghost var baseVis, baseWeight := Cells(visGrid), Cells(samplingGrid);
    forall r, c | 0 <= r < imageSize && 0 <= c < imageSize
      ensures visGrid[r, c] == Add(baseVis[r][c], WorkerVis(samples[..0], b, r, c, kernel, support, imageSize))
    {
      AddZero(visGrid[r, c]);
    }
    for k := 0 to |goodIdx|
      invariant forall r, c :: 0 <= r < imageSize && 0 <= c < imageSize ==>
        samplingGrid[r, c] == baseWeight[r][c] + WorkerWeight(samples[..k], b, r, c, kernel, support, imageSize)
      invariant forall r, c :: 0 <= r < imageSize && 0 <= c < imageSize ==>
        visGrid[r, c] == Add(baseVis[r][c], WorkerVis(samples[..k], b, r, c, kernel, support, imageSize))
    {
      var s := SampleAt(centres, offsets, vis, goodIdx[k]);
      WorkerVisit(visGrid, samplingGrid, samples, k, s, b, kernel, support, imageSize, baseVis, baseWeight);
    }
    assert samples[..|goodIdx|] == samples;
  }

  /** The `parallel_for` over the `kernel_size` workers, run one after the other: their writes
      go to disjoint columns, so the order does not matter. */
  method GridStep(visGrid: array2<Cx>, samplingGrid: array2<real>, centres: array2<int>, offsets: array2<int>,
                  vis: seq<Cx>, goodIdx: seq<nat>, kernel: KernelCache, support: nat, imageSize: nat)
    requires visGrid.Length0 == visGrid.Length1 == imageSize
    requires samplingGrid.Length0 == samplingGrid.Length1 == imageSize
    requires ValidInputs(centres, offsets, vis, goodIdx) && CentresOnGrid(centres, goodIdx, imageSize)
    requires support < imageSize
    modifies visGrid, samplingGrid
    ensures AllOnGrid(Samples(centres, offsets, vis, goodIdx), imageSize)
    ensures forall r, c :: 0 <= r < imageSize && 0 <= c < imageSize ==>
      samplingGrid[r, c] == old(samplingGrid[r, c])
        + StepWeight(Samples(centres, offsets, vis, goodIdx), KernelSize(support), r, c, kernel, support, imageSize)
    ensures forall r, c :: 0 <= r < imageSize && 0 <= c < imageSize ==>
      visGrid[r, c] == Add(old(visGrid[r, c]),
        StepVis(Samples(centres, offsets, vis, goodIdx), KernelSize(support), r, c, kernel, support, imageSize))
  {
    ghost var samples := Samples(centres, offsets, vis, goodIdx);
    ghost var baseVis, baseWeight := Cells(visGrid), Cells(samplingGrid);
    forall r, c | 0 <= r < imageSize && 0 <= c < imageSize
      ensures visGrid[r, c] == Add(baseVis[r][c], StepVis(samples, 0, r, c, kernel, support, imageSize))
    {
      AddZero(visGrid[r, c]);
    }
    for b := 0 to KernelSize(support)
      invariant forall r, c :: 0 <= r < imageSize && 0 <= c < imageSize ==>
        samplingGrid[r, c] == baseWeight[r][c] + StepWeight(samples, b, r, c, kernel, support, imageSize)
      invariant forall r, c :: 0 <= r < imageSize && 0 <= c < imageSize ==>
        visGrid[r, c] == Add(baseVis[r][c], StepVis(samples, b, r, c, kernel, support, imageSize))
    {
      StepVisit(visGrid, samplingGrid, centres, offsets, vis, goodIdx, b, kernel, support, imageSize, samples, baseVis, baseWeight);
    }
    SamplesOnGrid(centres, offsets, vis, goodIdx, imageSize);
  }

  /** One pass of the worker loop of `grid_visibilities`: worker `b` moves both grids from
      the first `b` workers' increments to the first `b + 1` workers'. */
  method StepVisit(visGrid: array2<Cx>, samplingGrid: array2<real>, centres: array2<int>, offsets: array2<int>,
                   vis: seq<Cx>, goodIdx: seq<nat>, b: nat, kernel: KernelCache, support: nat, imageSize: nat,
                   ghost samples: seq<Sample>, ghost baseVis: seq<seq<Cx>>, ghost baseWeight: seq<seq<real>>)
    requires visGrid.Length0 == visGrid.Length1 == imageSize
    requires samplingGrid.Length0 == samplingGrid.Length1 == imageSize
    requires ValidInputs(centres, offsets, vis, goodIdx) && CentresOnGrid(centres, goodIdx, imageSize)
    requires samples == Samples(centres, offsets, vis, goodIdx)
    requires support < imageSize && b < KernelSize(support)
    requires |baseVis| == |baseWeight| == imageSize
    requires forall r :: 0 <= r < imageSize ==> |baseVis[r]| == |baseWeight[r]| == imageSize
    requires forall r, c :: 0 <= r < imageSize && 0 <= c < imageSize ==>
      samplingGrid[r, c] == baseWeight[r][c] + StepWeight(samples, b, r, c, kernel, support, imageSize)
    requires forall r, c :: 0 <= r < imageSize && 0 <= c < imageSize ==>
      visGrid[r, c] == Add(baseVis[r][c], StepVis(samples, b, r, c, kernel, support, imageSize))
    modifies visGrid, samplingGrid
    ensures forall r, c :: 0 <= r < imageSize && 0 <= c < imageSize ==>
      samplingGrid[r, c] == baseWeight[r][c] + StepWeight(samples, b + 1, r, c, kernel, support, imageSize)
    ensures forall r, c :: 0 <= r < imageSize && 0 <= c < imageSize ==>
      visGrid[r, c] == Add(baseVis[r][c], StepVis(samples, b + 1, r, c, kernel, support, imageSize))
  {
    Worker(visGrid, samplingGrid, centres, offsets, vis, goodIdx, b, kernel, support, imageSize, samples);
    forall r, c | 0 <= r < imageSize && 0 <= c < imageSize
      ensures visGrid[r, c] == Add(baseVis[r][c], StepVis(samples, b + 1, r, c, kernel, support, imageSize))
    {
      AddAssoc(baseVis[r][c], StepVis(samples, b, r, c, kernel, support, imageSize),
               WorkerVis(samples, b, r, c, kernel, support, imageSize));
    }
  }

  /** The workers on two zero grids leave exactly their increments in them. */
  method GridFromZero(visGrid: array2<Cx>, samplingGrid: array2<real>, centres: array2<int>, offsets: array2<int>,
                      vis: seq<Cx>, goodIdx: seq<nat>, kernel: KernelCache, support: nat, imageSize: nat)
    requires visGrid.Length0 == visGrid.Length1 == imageSize
    requires samplingGrid.Length0 == samplingGrid.Length1 == imageSize
    requires forall r, c :: 0 <= r < imageSize && 0 <= c < imageSize ==> visGrid[r, c] == Zero() && samplingGrid[r, c] == 0.0
    requires ValidInputs(centres, offsets, vis, goodIdx) && CentresOnGrid(centres, goodIdx, imageSize)
    requires support < imageSize
    modifies visGrid, samplingGrid
    ensures AllOnGrid(Samples(centres, offsets, vis, goodIdx), imageSize)
    ensures forall r, c :: 0 <= r < imageSize && 0 <= c < imageSize ==>
      samplingGrid[r, c] == StepWeight(Samples(centres, offsets, vis, goodIdx), KernelSize(support), r, c, kernel, support, imageSize)
    ensures forall r, c :: 0 <= r < imageSize && 0 <= c < imageSize ==>
      visGrid[r, c] == StepVis(Samples(centres, offsets, vis, goodIdx), KernelSize(support), r, c, kernel, support, imageSize)
  {
    GridStep(visGrid, samplingGrid, centres, offsets, vis, goodIdx, kernel, support, imageSize);
    ghost var samples := Samples(centres, offsets, vis, goodIdx);
    forall r, c | 0 <= r < imageSize && 0 <= c < imageSize
      ensures visGrid[r, c] == StepVis(samples, KernelSize(support), r, c, kernel, support, imageSize)
    {
      ZeroAdd(StepVis(samples, KernelSize(support), r, c, kernel, support, imageSize));
    }
  }

  /** The gridding part of the benchmark body: the half shift of the kernel centres, two grids
      allocated as zero matrices, then the workers. When the kernel fits in the image, each
      cell holds its periodic gridding value. */
  method GridVisibilities(centres: array2<int>, offsets: array2<int>, vis: seq<Cx>, goodIdx: seq<nat>,
                          kernel: KernelCache, support: nat, imageSize: nat)
    returns (visGrid: array2<Cx>, samplingGrid: array2<real>)
    requires ValidInputs(centres, offsets, vis, goodIdx) && CentresOnGrid(centres, goodIdx, imageSize)
    requires support < imageSize
    modifies centres
    ensures fresh(visGrid) && fresh(samplingGrid)
    ensures visGrid.Length0 == visGrid.Length1 == imageSize
    ensures samplingGrid.Length0 == samplingGrid.Length1 == imageSize
    ensures forall i, j :: 0 <= i < centres.Length0 && 0 <= j < 2 ==>
      centres[i, j] == HalfShift(old(centres[i, j]), imageSize / 2)
    ensures AllOnGrid(Samples(centres, offsets, vis, goodIdx), imageSize)
    ensures forall r, c :: 0 <= r < imageSize && 0 <= c < imageSize ==>
      samplingGrid[r, c] == StepWeight(Samples(centres, offsets, vis, goodIdx), KernelSize(support), r, c, kernel, support, imageSize)
    ensures forall r, c :: 0 <= r < imageSize && 0 <= c < imageSize ==>
      visGrid[r, c] == StepVis(Samples(centres, offsets, vis, goodIdx), KernelSize(support), r, c, kernel, support, imageSize)
    ensures KernelSize(support) <= imageSize ==> forall r, c :: 0 <= r < imageSize && 0 <= c < imageSize ==>
      && samplingGrid[r, c] == GridWeight(Samples(centres, offsets, vis, goodIdx), r, c, kernel, support, imageSize)
      && visGrid[r, c] == GridVis(Samples(centres, offsets, vis, goodIdx), r, c, kernel, support, imageSize)
  {
    visGrid := new Cx[imageSize, imageSize]((_, _) => Zero());
    samplingGrid := new real[imageSize, imageSize]((_, _) => 0.0);
    ShiftCentres(centres, imageSize);
    forall k | 0 <= k < |goodIdx|
      ensures 0 <= centres[goodIdx[k], 0] < imageSize && 0 <= centres[goodIdx[k], 1] < imageSize
    {
      HalfShiftStaysOnGrid(old(centres[goodIdx[k], 0]), imageSize);
      HalfShiftStaysOnGrid(old(centres[goodIdx[k], 1]), imageSize);
    }
    GridFromZero(visGrid, samplingGrid, centres, offsets, vis, goodIdx, kernel, support, imageSize);
    if KernelSize(support) <= imageSize {
      GridIsPeriodic(Samples(centres, offsets, vis, goodIdx), kernel, support, imageSize);
    }
  }
}
