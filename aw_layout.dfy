/** Index layout of the W/A-projection kernels, as pure functions: where the image-domain
    kernel puts each combined kernel value, what the projected (1-D) kernel holds, which
    indices the truncation search visits, and which indices the kernel cache gathers.

    Kernel values are opaque: the phase term `exp(-2*pi*i*w*(n-1))/n`, `n = sqrt(1-r^2)`, is a
    caller-supplied function of `(r^2, w)`, and everything else is exact real arithmetic. */
module AwKernelLayout {
  import opened Complex
  import opened Wrappers
  import opened IntArith

  // ---------------------------------------------------------------- sums

  /** Left-to-right sum of `f(lo) .. f(hi-1)`. */
  function CSum(f: int -> Cx, lo: int, hi: int): Cx
    decreases hi - lo
  {
    if hi <= lo then Zero() else Add(CSum(f, lo, hi - 1), f(hi - 1))
  }

  lemma {:induction false} CSumSplit(f: int -> Cx, lo: int, mid: int, hi: int)
    requires lo <= mid <= hi
    ensures CSum(f, lo, hi) == Add(CSum(f, lo, mid), CSum(f, mid, hi))
    decreases hi - mid
  {
    if hi == mid {
      AddZero(CSum(f, lo, mid));
    } else {
      CSumSplit(f, lo, mid, hi - 1);
      AddAssoc(CSum(f, lo, mid), CSum(f, mid, hi - 1), f(hi - 1));
    }
  }

  lemma {:induction false} CSumExt(f: int -> Cx, g: int -> Cx, lo: int, hi: int)
    requires forall i :: lo <= i < hi ==> f(i) == g(i)
    ensures CSum(f, lo, hi) == CSum(g, lo, hi)
    decreases hi - lo
  {
    if lo < hi {
      CSumExt(f, g, lo, hi - 1);
    }
  }

  lemma {:induction false} CSumZero(f: int -> Cx, lo: int, hi: int)
    requires forall i :: lo <= i < hi ==> f(i) == Zero()
    ensures CSum(f, lo, hi) == Zero()
    decreases hi - lo
  {
    if lo < hi {
      CSumZero(f, lo, hi - 1);
    }
  }

  /** Summing `g(i) = f(s - i)` over `[lo, hi)` is summing `f` over the mirrored range. */
  lemma {:induction false} CSumReverse(f: int -> Cx, g: int -> Cx, lo: int, hi: int, s: int)
    requires lo <= hi
    requires forall i :: lo <= i < hi ==> g(i) == f(s - i)
    ensures CSum(g, lo, hi) == CSum(f, s - hi + 1, s - lo + 1)
    decreases hi - lo
  {
    if lo < hi {
      CSumReverse(f, g, lo, hi - 1, s);
      CSumSplit(f, s - hi + 1, s - hi + 2, s - lo + 1);
      assert CSum(f, s - hi + 1, s - hi + 2) == Add(Zero(), f(s - hi + 1));
    }
  }

  lemma {:induction false} CSumScale(f: int -> Cx, g: int -> Cx, k: real, lo: int, hi: int)
    requires forall i :: lo <= i < hi ==> g(i) == Scale(f(i), k)
    ensures CSum(g, lo, hi) == Scale(CSum(f, lo, hi), k)
    decreases hi - lo
  {
    if lo < hi {
      CSumScale(f, g, k, lo, hi - 1);
      ScaleAdd(CSum(f, lo, hi - 1), f(hi - 1), k);
    }
  }

  /** `arma::sum` of a column vector. */
  function SeqSum(s: seq<Cx>): Cx
  {
    if |s| == 0 then Zero() else Add(SeqSum(s[..|s| - 1]), s[|s| - 1])
  }

  // ---------------------------------------------------------------- kernel inputs

  /** What the kernel generators read: the anti-aliasing image-domain kernel `aa`, the w
      value, the scaled cell size, `half = kernel_size / 2`, `arr = array_size`, and the
      phase term as a function of `(r^2, w)`. */
  datatype KernelInputs = KernelInputs(
    aa: seq<real>, w: real, scaledCellSize: real, half: nat, arr: nat, phase: (real, real) -> Cx)
  {
    /** The sizes the generators rely on: every `aa` index they read exists, and the
        mirrored indices `arr - i` of `1 <= i < half` lie above the direct ones. */
    predicate WellSized()
    {
      && |aa| > half && |aa| >= 2 * half
      && arr > 0 && arr >= 2 * half
    }
  }

  /** `aa_kernel_img.at(i)`, zero off the vector. */
  function AaAt(aa: seq<real>, i: int): real
  {
    if 0 <= i < |aa| then aa[i] else 0.0
  }

  /** `combine_2d_kernel_value`: the anti-aliasing kernel at `(px, py)` from the centre, times
      the w phase term inside the unit circle. */
  function Combine(k: KernelInputs, px: int, py: int): (z: Cx)
    ensures AaAt(k.aa, k.half + px) == 0.0 || AaAt(k.aa, k.half + py) == 0.0 ==> z == Zero()
    ensures z.im != 0.0 ==> (px as real * k.scaledCellSize) * (px as real * k.scaledCellSize)
                            + (py as real * k.scaledCellSize) * (py as real * k.scaledCellSize) < 1.0
  {
    var dx := px as real * k.scaledCellSize;
    var dy := py as real * k.scaledCellSize;
    var rsq := dx * dx + dy * dy;
    var ax, ay := AaAt(k.aa, k.half + px), AaAt(k.aa, k.half + py);
    if rsq >= 1.0 then OfReal(ax * ay) else Scale(Scale(k.phase(rsq, k.w), ax), ay)
  }

  /** The combined kernel is symmetric in its two offsets. */
  lemma CombineSymmetric(k: KernelInputs, px: int, py: int)
    ensures Combine(k, px, py) == Combine(k, py, px)
  {
    var dx := px as real * k.scaledCellSize;
    var dy := py as real * k.scaledCellSize;
    var p := k.phase(dx * dx + dy * dy, k.w);
    var ax, ay := AaAt(k.aa, k.half + px), AaAt(k.aa, k.half + py);
    assert dx * dx + dy * dy == dy * dy + dx * dx;
    assert p.re * ax * ay == p.re * ay * ax;
    assert p.im * ax * ay == p.im * ay * ax;
  }

  /** The value of the centre point: the anti-aliasing kernel's centre squared. */
  function Centre(k: KernelInputs): Cx
  {
    OfReal(AaAt(k.aa, k.half) * AaAt(k.aa, k.half))
  }

  // ---------------------------------------------------------------- image-domain kernel

  /** Offset from the centre that an index of the FFT layout stands for: index `0` is the
      centre, `1 .. half-1` are themselves and `arr-half+1 .. arr-1` mirror them. Other indices
      hold no kernel value. */
  function Fold(k: KernelInputs, idx: int): Option<nat>
  {
    if idx == 0 then Some(0)
    else if 1 <= idx < k.half then Some(idx)
    else if k.arr - k.half < idx < k.arr then Some(k.arr - idx)
    else None
  }

  /** The index of the FFT layout that mirrors `idx`. */
  function Mirror(arr: nat, idx: int): int
  {
    if idx == 0 then 0 else arr - idx
  }

  lemma FoldMirror(k: KernelInputs, idx: int)
    requires k.WellSized() && 0 <= idx < k.arr
    ensures 0 <= Mirror(k.arr, idx) < k.arr
    ensures Fold(k, Mirror(k.arr, idx)) == Fold(k, idx)
    ensures Fold(k, idx).Some? ==> Fold(k, idx).value < k.half || (idx == 0 && Fold(k, idx).value == 0)
  {
  }

  /** Which indices carry offset `i`: only `i` itself and its mirror. */
  lemma FoldInverse(k: KernelInputs, idx: int, i: nat)
    requires k.WellSized() && Fold(k, idx) == Some(i)
    ensures idx == i || (i >= 1 && idx == k.arr - i)
    ensures i == 0 ==> idx == 0
  {
  }

  /** The combined image-domain kernel in the FFT layout, as `generate_image_domain_convolution_kernel`
      leaves it: the centre point, the two centre lines, the four quadrants of squares, and
      zero elsewhere. */
  function ImageDomainEntry(k: KernelInputs, r: int, c: int): (e: Cx)
    ensures Fold(k, r).None? || Fold(k, c).None? ==> e == Zero()
    ensures Fold(k, r).Some? && Fold(k, c).Some? && (Fold(k, r).value != 0 || Fold(k, c).value != 0)
      ==> e == Combine(k, Fold(k, r).value, Fold(k, c).value)
  {
    var fr, fc := Fold(k, r), Fold(k, c);
    if fr.None? || fc.None? then Zero()
    else if fr.value == 0 && fc.value == 0 then Centre(k)
    else if fc.value == 0 then Combine(k, fr.value, 0)
    else if fr.value == 0 then CombineSymmetric(k, fc.value, 0); Combine(k, fc.value, 0)
    else Combine(k, fr.value, fc.value)
  }

  /** Four-fold mirror symmetry: mirroring the row or the column does not change the kernel. */
  lemma ImageDomainMirror(k: KernelInputs, r: int, c: int)
    requires k.WellSized() && 0 <= r < k.arr && 0 <= c < k.arr
    ensures ImageDomainEntry(k, Mirror(k.arr, r), c) == ImageDomainEntry(k, r, c)
    ensures ImageDomainEntry(k, r, Mirror(k.arr, c)) == ImageDomainEntry(k, r, c)
  {
    FoldMirror(k, r);
    FoldMirror(k, c);
  }

  /** The kernel is symmetric under transposition. */
  lemma ImageDomainTranspose(k: KernelInputs, r: int, c: int)
    ensures ImageDomainEntry(k, r, c) == ImageDomainEntry(k, c, r)
  {
    var fr, fc := Fold(k, r), Fold(k, c);
    if fr.Some? && fc.Some? && fr.value != 0 && fc.value != 0 {
      CombineSymmetric(k, fr.value, fc.value);
    }
  }

  /** The four cells a square value `f(i, j)` is written to, and the four cells a line value
      `f(i, 0)` is written to, all lie in the array and all hold that value. */
  lemma ImageDomainWrites(k: KernelInputs, i: int, j: int)
    requires k.WellSized() && 1 <= i < k.half && 1 <= j < k.half
    ensures 0 <= k.arr - i < k.arr && 0 <= k.arr - j < k.arr
    ensures ImageDomainEntry(k, i, j) == Combine(k, i, j)
    ensures ImageDomainEntry(k, k.arr - i, j) == Combine(k, i, j)
    ensures ImageDomainEntry(k, i, k.arr - j) == Combine(k, i, j)
    ensures ImageDomainEntry(k, k.arr - i, k.arr - j) == Combine(k, i, j)
    ensures ImageDomainEntry(k, i, 0) == Combine(k, i, 0) && ImageDomainEntry(k, k.arr - i, 0) == Combine(k, i, 0)
    ensures ImageDomainEntry(k, 0, i) == Combine(k, i, 0) && ImageDomainEntry(k, 0, k.arr - i) == Combine(k, i, 0)
    ensures ImageDomainEntry(k, 0, 0) == Centre(k)
  {
  }

  /** The partially filled kernel: line values `f(i, 0)` for `i < lines`, the centre if
      `point`, and square values `f(i, j)` for the columns `j < cols` and the first `rows`
      rows of column `cols`. `ImageDomainEntry` is the completed fill. */
  function PartialEntry(k: KernelInputs, r: int, c: int, lines: int, point: bool, cols: int, rows: int): Cx
  {
    var fr, fc := Fold(k, r), Fold(k, c);
    if fr.None? || fc.None? then Zero()
    else if fr.value == 0 && fc.value == 0 then (if point then Centre(k) else Zero())
    else if fc.value == 0 then (if fr.value < lines then Combine(k, fr.value, 0) else Zero())
    else if fr.value == 0 then (if fc.value < lines then Combine(k, fc.value, 0) else Zero())
    else if fc.value < cols || (fc.value == cols && fr.value < rows) then Combine(k, fr.value, fc.value)
    else Zero()
  }

  /** Once every line and every square column is in, the partial fill is the whole kernel. */
  lemma PartialEntryComplete(k: KernelInputs, r: int, c: int, lines: int, cols: int)
    requires k.WellSized() && 0 <= r < k.arr && 0 <= c < k.arr
    requires lines >= k.half && cols >= k.half
    ensures PartialEntry(k, r, c, lines, true, cols, 0) == ImageDomainEntry(k, r, c)
  {
    FoldMirror(k, r);
    FoldMirror(k, c);
  }

  /** Line `i` fills exactly the cells `(i, 0)`, `(arr-i, 0)`, `(0, i)` and `(0, arr-i)`. */
  lemma PartialEntryLine(k: KernelInputs, i: int, r: int, c: int)
    requires k.WellSized() && 1 <= i < k.half && 0 <= r < k.arr && 0 <= c < k.arr
    ensures PartialEntry(k, r, c, i + 1, false, 1, 0)
      == if (c == 0 && (r == i || r == k.arr - i)) || (r == 0 && (c == i || c == k.arr - i))
         then Combine(k, i, 0) else PartialEntry(k, r, c, i, false, 1, 0)
  {
    if Fold(k, r) == Some(i) {
      FoldInverse(k, r, i);
    }
    if Fold(k, c) == Some(i) {
      FoldInverse(k, c, i);
    }
  }

  /** The centre point fills exactly the cell `(0, 0)`. */
  lemma PartialEntryPoint(k: KernelInputs, lines: int, r: int, c: int)
    requires k.WellSized() && 0 <= r < k.arr && 0 <= c < k.arr
    ensures PartialEntry(k, r, c, lines, true, 1, 0)
      == if r == 0 && c == 0 then Centre(k) else PartialEntry(k, r, c, lines, false, 1, 0)
  {
    if Fold(k, r) == Some(0) {
      FoldInverse(k, r, 0);
    }
    if Fold(k, c) == Some(0) {
      FoldInverse(k, c, 0);
    }
  }

  /** Square `(i, j)` fills exactly the cells `(i, j)`, `(arr-i, j)`, `(i, arr-j)` and
      `(arr-i, arr-j)`. */
  lemma PartialEntrySquare(k: KernelInputs, lines: int, i: int, j: int, r: int, c: int)
    requires k.WellSized() && 1 <= i < k.half && 1 <= j < k.half && 0 <= r < k.arr && 0 <= c < k.arr
    ensures PartialEntry(k, r, c, lines, true, j, i + 1)
      == if (r == i || r == k.arr - i) && (c == j || c == k.arr - j)
         then Combine(k, i, j) else PartialEntry(k, r, c, lines, true, j, i)
  {
    if Fold(k, r) == Some(i) {
      FoldInverse(k, r, i);
    }
    if Fold(k, c) == Some(j) {
      FoldInverse(k, c, j);
    }
  }

  /** A square column is complete once its rows below `half` are in. */
  lemma PartialEntryNextColumn(k: KernelInputs, lines: int, j: int, r: int, c: int)
    requires k.WellSized() && 0 <= r < k.arr && 0 <= c < k.arr
    ensures PartialEntry(k, r, c, lines, true, j, k.half) == PartialEntry(k, r, c, lines, true, j + 1, 0)
  {
    FoldMirror(k, r);
  }

  // ---------------------------------------------------------------- projected kernel

  /** The line values `f(i, 0)` as a function of the offset. */
  function LineTerm(k: KernelInputs): int -> Cx
  {
    i => Combine(k, i, 0)
  }

  /** The square values of column `j`, doubled, as a function of the row offset. */
  function SquareTerm(k: KernelInputs, j: int): int -> Cx
  {
    i => Scale(Combine(k, i, j), 2.0)
  }

  /** Column `c` of the image-domain kernel as a function of the row. */
  function ColumnOf(k: KernelInputs, c: int): int -> Cx
  {
    r => ImageDomainEntry(k, r, c)
  }

  /** The projected kernel of `generate_projected_image_domain_kernel`, entry by entry:
      index `0` holds twice the line sum plus the centre, offset `j` holds `f(j, 0)` plus twice
      the square values of column `j`, and the other indices hold zero. */
  function ProjectedEntry(k: KernelInputs, c: int): (e: Cx)
    ensures Fold(k, c).None? ==> e == Zero()
  {
    var fc := Fold(k, c);
    if fc.None? then Zero()
    else if fc.value == 0 then Add(Scale(CSum(LineTerm(k), 1, k.half), 2.0), Centre(k))
    else Add(Combine(k, fc.value, 0), CSum(SquareTerm(k, fc.value), 1, k.half))
  }

  /** Index 0 of the projected kernel: twice the line sum plus the centre value. */
  lemma ProjectedCentre(k: KernelInputs)
    ensures ProjectedEntry(k, 0) == Add(Scale(CSum(LineTerm(k), 1, k.half), 2.0), Centre(k))
  {
  }

  /** The projected kernel is mirror-symmetric. */
  lemma ProjectedMirror(k: KernelInputs, c: int)
    requires k.WellSized() && 0 <= c < k.arr
    ensures ProjectedEntry(k, Mirror(k.arr, c)) == ProjectedEntry(k, c)
  {
    FoldMirror(k, c);
  }

  /** The kernel values `f(i, j)` of the column with offset `j`, indexed by the row offset. */
  function ColumnTerm(k: KernelInputs, j: int): int -> Cx
  {
    i => Combine(k, i, j)
  }

  /** Rows `1 .. half-1` of a kernel column hold the values of its offset. */
  lemma ColumnDirectRows(k: KernelInputs, c: int)
    requires k.WellSized() && Fold(k, c).Some?
    ensures CSum(ColumnOf(k, c), 1, k.half) == CSum(ColumnTerm(k, Fold(k, c).value), 1, k.half)
  {
    var j := Fold(k, c).value;
    forall i | 1 <= i < k.half
      ensures ColumnOf(k, c)(i) == ColumnTerm(k, j)(i)
    {
      assert Fold(k, i) == Some(i);
    }
    CSumExt(ColumnOf(k, c), ColumnTerm(k, j), 1, k.half);
  }

  /** Rows `half .. arr-half` of every column are empty. */
  lemma ColumnMiddleRows(k: KernelInputs, c: int)
    requires k.WellSized() && k.half >= 1
    ensures CSum(ColumnOf(k, c), k.half, k.arr - k.half + 1) == Zero()
  {
    forall i | k.half <= i < k.arr - k.half + 1
      ensures ColumnOf(k, c)(i) == Zero()
    {
      assert i != 0 ==> Fold(k, i).None?;
    }
    CSumZero(ColumnOf(k, c), k.half, k.arr - k.half + 1);
  }

  /** Rows `arr-half+1 .. arr-1` of a kernel column repeat rows `half-1 .. 1`. */
  lemma ColumnMirroredRows(k: KernelInputs, c: int)
    requires k.WellSized() && k.half >= 1 && Fold(k, c).Some?
    ensures CSum(ColumnOf(k, c), k.arr - k.half + 1, k.arr)
      == CSum(ColumnTerm(k, Fold(k, c).value), 1, k.half)
  {
    var j := Fold(k, c).value;
    forall i | k.arr - k.half + 1 <= i < k.arr
      ensures ColumnOf(k, c)(i) == ColumnTerm(k, j)(k.arr - i)
    {
      assert Fold(k, i) == Some(k.arr - i);
    }
    CSumReverse(ColumnTerm(k, j), ColumnOf(k, c), k.arr - k.half + 1, k.arr, k.arr);
  }

  /** A kernel column sums to its centre-row value plus twice the values of its offset. */
  lemma ColumnSumParts(k: KernelInputs, c: int)
    requires k.WellSized() && k.half >= 1 && Fold(k, c).Some?
    ensures CSum(ColumnOf(k, c), 0, k.arr)
      == Add(ImageDomainEntry(k, 0, c), Scale(CSum(ColumnTerm(k, Fold(k, c).value), 1, k.half), 2.0))
  {
    var col := ColumnOf(k, c);
    var lo := k.arr - k.half + 1;
    var sum := CSum(ColumnTerm(k, Fold(k, c).value), 1, k.half);
    CSumSplit(col, 0, 1, k.arr);
    CSumSplit(col, 1, k.half, k.arr);
    CSumSplit(col, k.half, lo, k.arr);
    var head, direct, middle, mirrored := CSum(col, 0, 1), CSum(col, 1, k.half), CSum(col, k.half, lo), CSum(col, lo, k.arr);
    assert head == Add(Zero(), col(0));
    ColumnDirectRows(k, c);
    ColumnMiddleRows(k, c);
    ColumnMirroredRows(k, c);
    FourParts(head, direct, middle, mirrored, col(0), sum);
  }

  /** The algebra of `ColumnSumParts`: head, direct rows, empty middle, mirrored rows. */
  lemma FourParts(head: Cx, direct: Cx, middle: Cx, mirrored: Cx, centre: Cx, sum: Cx)
    requires head == Add(Zero(), centre) && direct == sum && middle == Zero() && mirrored == sum
    ensures Add(head, Add(direct, Add(middle, mirrored))) == Add(centre, Scale(sum, 2.0))
  {
  }

  /** The projected kernel is the image-domain kernel summed down each column (what the
      column-sum loop of `generate_convolution_kernel_wproj` computes). */
  lemma ProjectedIsColumnSum(k: KernelInputs, c: int)
    requires k.WellSized() && 0 <= c < k.arr
    ensures ProjectedEntry(k, c) == CSum(ColumnOf(k, c), 0, k.arr)
  {
    var fc := Fold(k, c);
    if fc.None? {
      ProjectedEmptyColumn(k, c);
    } else if k.half == 0 {
      ProjectedCentreOnly(k, c);
    } else {
      var j := fc.value;
      ColumnSumParts(k, c);
      if j == 0 {
        assert c == 0;
        CSumExt(ColumnTerm(k, j), LineTerm(k), 1, k.half);
        AddComm(Centre(k), Scale(CSum(LineTerm(k), 1, k.half), 2.0));
      } else {
        CSumScale(ColumnTerm(k, j), SquareTerm(k, j), 2.0, 1, k.half);
      }
    }
  }

  /** A column that carries no offset is zero and sums to zero. */
  lemma ProjectedEmptyColumn(k: KernelInputs, c: int)
    requires k.WellSized() && 0 <= c < k.arr && Fold(k, c).None?
    ensures ProjectedEntry(k, c) == CSum(ColumnOf(k, c), 0, k.arr)
  {
    var col := ColumnOf(k, c);
    forall i | 0 <= i < k.arr
      ensures col(i) == Zero()
    {
    }
    CSumZero(col, 0, k.arr);
  }

  /** Without a half width only the centre cell of the kernel is written. */
  lemma ProjectedCentreOnly(k: KernelInputs, c: int)
    requires k.WellSized() && 0 <= c < k.arr && Fold(k, c).Some? && k.half == 0
    ensures ProjectedEntry(k, c) == CSum(ColumnOf(k, c), 0, k.arr)
  {
    var col := ColumnOf(k, c);
    CSumSplit(col, 0, 1, k.arr);
    forall i | 1 <= i < k.arr
      ensures col(i) == Zero()
    {
      assert Fold(k, i).None?;
    }
    CSumZero(col, 1, k.arr);
    assert CSum(col, 0, 1) == Add(Zero(), col(0));
    assert CSum(LineTerm(k), 1, 0) == Zero();
  }

  /** `arma::sum` of the vector holding only the line values is the sum of the line values. */
  lemma LineSum(k: KernelInputs, s: seq<Cx>)
    requires k.WellSized() && |s| == k.arr
    requires forall m :: 0 <= m < |s| ==> s[m] == (if 1 <= m < k.half then Combine(k, m, 0) else Zero())
    ensures SeqSum(s) == CSum(LineTerm(k), 1, k.half)
  {
    LinePrefixSum(k, s, |s|);
    assert s[..|s|] == s;
  }

  /** The first `n` entries of that vector sum to the line values below `min(n, half)`. */
  lemma {:induction false} LinePrefixSum(k: KernelInputs, s: seq<Cx>, n: nat)
    requires k.WellSized() && |s| == k.arr && n <= |s|
    requires forall m :: 0 <= m < |s| ==> s[m] == (if 1 <= m < k.half then Combine(k, m, 0) else Zero())
    ensures SeqSum(s[..n]) == CSum(LineTerm(k), 1, if n < k.half then n else k.half)
  {
    var f := LineTerm(k);
    if n == 0 {
      assert CSum(f, 1, 0) == Zero();
    } else if n == 1 {
      assert s[..1][..0] == [];
      assert SeqSum(s[..1]) == Add(Zero(), s[0]);
      assert CSum(f, 1, 1) == Zero() && CSum(f, 1, 0) == Zero();
    } else {
      var m := n - 1;
      LinePrefixSum(k, s, m);
      assert s[..n][..m] == s[..m];
      var prev := SeqSum(s[..m]);
      assert SeqSum(s[..n]) == Add(prev, s[m]);
      if m < k.half {
        assert s[m] == f(m);
        assert CSum(f, 1, n) == Add(CSum(f, 1, m), f(m));
      } else {
        AddZero(prev);
      }
    }
  }

  // ---------------------------------------------------------------- A-projection product

  /** The rows and columns `generate_convolution_kernel_aproj` multiplies by the A-kernel: the
      first `half` and the last `half` indices. */
  predicate InBand(half: nat, arr: nat, idx: int)
  {
    0 <= idx < half || arr - half <= idx < arr
  }

  /** The A-kernel index paired with a band index: the band re-centred by half a kernel. */
  function Unfold(half: nat, arr: nat, idx: int): (u: int)
    ensures arr >= 2 * half && InBand(half, arr, idx) ==> 0 <= u < 2 * half
    ensures arr >= 2 * half && InBand(half, arr, idx) ==> (u < half <==> idx >= arr - half)
  {
    if idx < half then idx + half else idx - (arr - half)
  }

  /** `a_kernel_img.at(ii, jj)`, zero off the matrix. */
  function MatAt(a: seq<seq<real>>, ii: int, jj: int): real
  {
    if 0 <= ii < |a| && 0 <= jj < |a[ii]| then a[ii][jj] else 0.0
  }

  /** The re-centring is the cyclic shift by `half`, and lands inside a `kernel_size` matrix. */
  lemma UnfoldIsShift(half: nat, arr: nat, idx: int)
    requires arr >= 2 * half && arr > 0 && InBand(half, arr, idx)
    ensures Unfold(half, arr, idx) == (idx + half) % arr
    ensures 0 <= Unfold(half, arr, idx) < 2 * half
  {
    if idx < half {
      ModUnique(idx + half, arr, 0, idx + half);
    } else {
      ModUnique(idx + half, arr, 1, idx + half - arr);
    }
  }

  /** Cell `(i, j)` of the A-projection product, given the combined kernel's value `z` there:
      `z * a(ii, jj)` in the band, zero outside. */
  function AprojEntry(half: nat, arr: nat, z: Cx, a: seq<seq<real>>, i: int, j: int): (e: Cx)
    ensures !InBand(half, arr, i) || !InBand(half, arr, j) ==> e == Zero()
    ensures z == Zero() ==> e == Zero()
  {
    if InBand(half, arr, i) && InBand(half, arr, j)
    then Scale(z, MatAt(a, Unfold(half, arr, i), Unfold(half, arr, j)))
    else Zero()
  }

  /** Applied to the image-domain kernel, the A-projection product is the pointwise product
      with the A-kernel shifted cyclically by half a kernel: the band covers every cell
      where the image-domain kernel can be non-zero. */
  lemma AprojIsShiftedProduct(k: KernelInputs, a: seq<seq<real>>, i: int, j: int)
    requires k.WellSized() && k.half >= 1 && 0 <= i < k.arr && 0 <= j < k.arr
    ensures AprojEntry(k.half, k.arr, ImageDomainEntry(k, i, j), a, i, j)
      == Scale(ImageDomainEntry(k, i, j), MatAt(a, (i + k.half) % k.arr, (j + k.half) % k.arr))
  {
    if InBand(k.half, k.arr, i) && InBand(k.half, k.arr, j) {
      UnfoldIsShift(k.half, k.arr, i);
      UnfoldIsShift(k.half, k.arr, j);
    } else {
      assert Fold(k, i).None? || Fold(k, j).None?;
    }
  }

  // ---------------------------------------------------------------- truncation search

  /** `trunc_at`: the truncation percentage as a fraction, or zero when not positive. */
  function TruncAt(kernelTruncPerc: real): (t: real)
    ensures t > 0.0 <==> kernelTruncPerc > 0.0
    ensures t > 0.0 ==> t * 100.0 == kernelTruncPerc
  {
    if kernelTruncPerc > 0.0 then kernelTruncPerc / 100.0 else 0.0
  }

  /** The first index the search looks at: `min(max_wpconv_support * oversampling, array_size/2)`. */
  function TruncationStart(maxWpconvSupport: nat, oversampling: nat, arraySize: nat): (i: nat)
    ensures i <= maxWpconvSupport * oversampling && i <= arraySize / 2
    ensures i == maxWpconvSupport * oversampling || i == arraySize / 2
  {
    if maxWpconvSupport * oversampling <= arraySize / 2 then maxWpconvSupport * oversampling else arraySize / 2
  }

  /** `|z| > |z0| * t` for `t > 0`, in squared magnitudes. */
  predicate Exceeds(z: Cx, z0: Cx, t: real)
  {
    NormSq(z) > NormSq(z0) * t * t
  }

  /** One step of the search as written: `uint` subtraction, which wraps below zero. */
  function StepAsWritten(i: nat, oversampling: nat): (j: nat)
    ensures j < 0x1_0000_0000
    ensures oversampling <= i < 0x1_0000_0000 + oversampling ==> j == i - oversampling
    ensures i < oversampling <= i + 0x1_0000_0000 ==> j == 0x1_0000_0000 + i - oversampling
  {
    (i - oversampling) % 0x1_0000_0000
  }

  /** The index the search as written holds after `n` steps without a break. */
  function VisitAsWritten(start: nat, oversampling: nat, n: nat): (v: nat)
    ensures n > 0 || start < 0x1_0000_0000 ==> v < 0x1_0000_0000
  {
    if n == 0 then start else StepAsWritten(VisitAsWritten(start, oversampling, n - 1), oversampling)
  }

  /** One step of the corrected search: it stops at zero instead of wrapping. */
  function StepCorrected(i: nat, oversampling: nat): (j: nat)
    ensures i > 0 && oversampling > 0 ==> j < i
    ensures j == 0 || j == i - oversampling
  {
    if i >= oversampling then i - oversampling else 0
  }

  /** The index the corrected search holds after `n` steps without a break. */
  function VisitCorrected(start: nat, oversampling: nat, n: nat): nat
  {
    if n == 0 then start else StepCorrected(VisitCorrected(start, oversampling, n - 1), oversampling)
  }

  /** Where the start is a multiple of the oversampling, the corrected search visits the same
      indices as the search as written, down to zero. */
  lemma {:induction false} CorrectedAgreesOnMultiples(start: nat, oversampling: nat, n: nat)
    requires oversampling > 0 && start < 0x1_0000_0000 && start % oversampling == 0
    requires n <= start / oversampling
    ensures VisitCorrected(start, oversampling, n) == VisitAsWritten(start, oversampling, n)
    ensures VisitCorrected(start, oversampling, n) == start - n * oversampling
  {
    if n > 0 {
      CorrectedAgreesOnMultiples(start, oversampling, n - 1);
      MultipleSteps(start, oversampling, n);
      VisitAsWrittenDescends(start, oversampling, n);
    }
  }

  /** Arithmetic for `CorrectedAgreesOnMultiples`: the `n`-th step from a multiple of the
      oversampling still has a whole step to take. */
  lemma MultipleSteps(start: nat, oversampling: nat, n: nat)
    requires oversampling > 0 && start % oversampling == 0 && 0 < n <= start / oversampling
    ensures n * oversampling <= start
    ensures start - (n - 1) * oversampling >= oversampling
    ensures start - (n - 1) * oversampling - oversampling == start - n * oversampling
  {
    var m := start / oversampling;
    var rest := (m - n) * oversampling;
    assert start == m * oversampling;
    assert rest >= 0;
    assert start - n * oversampling == rest;
  }

  /** The corrected search never wraps: every index it visits is at most the start. */
  lemma {:induction false} VisitCorrectedBounded(start: nat, oversampling: nat, n: nat)
    ensures VisitCorrected(start, oversampling, n) <= start
  {
    if n > 0 {
      VisitCorrectedBounded(start, oversampling, n - 1);
    }
  }

  /** Where the corrected search stops on the kernel column `col` (magnitudes compared with
      `col[0]` scaled by `t`), starting from index `i`: the first index it visits whose
      magnitude exceeds the threshold, or zero. */
  function TruncationStop(col: seq<Cx>, t: real, i: nat, oversampling: nat): (r: nat)
    requires i < |col| && oversampling > 0
    ensures r <= i
    ensures r == 0 || Exceeds(col[r], col[0], t)
    decreases i
  {
    if i == 0 then 0
    else if Exceeds(col[i], col[0], t) then i
    else TruncationStop(col, t, StepCorrected(i, oversampling), oversampling)
  }

  /** No index the search passes over exceeds the threshold: every index above the stop that
      is a whole number of oversampling steps below the start falls under it. */
  lemma {:induction false} TruncationStopPassesOnlySmall(col: seq<Cx>, t: real, i: nat, oversampling: nat, c: int)
    requires i < |col| && oversampling > 0
    requires TruncationStop(col, t, i, oversampling) < c <= i && (i - c) % oversampling == 0
    ensures !Exceeds(col[c], col[0], t)
    decreases i
  {
    if c < i {
      var q := (i - c) / oversampling;
      DivExact(i - c, oversampling);
      if q <= 0 {
        MulNonPositive(oversampling, q);
      }
      MulAtLeast(oversampling, q);
      assert StepCorrected(i, oversampling) == i - oversampling;
      MulPred(oversampling, q);
      ModUnique(i - oversampling - c, oversampling, q - 1, 0);
      TruncationStopPassesOnlySmall(col, t, i - oversampling, oversampling, c);
    }
  }

  /** The stop is zero or a whole number of oversampling steps below the start. */
  lemma {:induction false} TruncationStopOnStride(col: seq<Cx>, t: real, i: nat, oversampling: nat)
    requires i < |col| && oversampling > 0
    ensures var r := TruncationStop(col, t, i, oversampling);
      r == 0 || (i - r) % oversampling == 0
    decreases i
  {
    var r := TruncationStop(col, t, i, oversampling);
    if i > 0 && !Exceeds(col[i], col[0], t) && r != 0 {
      var j := StepCorrected(i, oversampling);
      TruncationStopOnStride(col, t, j, oversampling);
      assert j == i - oversampling;
      ModAddMultiple(j - r, oversampling, 1);
    } else if r == i {
      ModUnique(0, oversampling, 0, 0);
    }
  }

  /** Before it reaches the last multiple, the search as written steps down exactly. */
  lemma {:induction false} VisitAsWrittenDescends(start: nat, oversampling: nat, n: nat)
    requires oversampling > 0 && start < 0x1_0000_0000 && n * oversampling <= start
    ensures VisitAsWritten(start, oversampling, n) == start - n * oversampling
  {
    if n > 0 {
      VisitAsWrittenDescends(start, oversampling, n - 1);
      var prev := start - (n - 1) * oversampling;
      assert prev - oversampling == start - n * oversampling;
      ModUnique(start - n * oversampling, 0x1_0000_0000, 0, start - n * oversampling);
    }
  }

  /** When the start is not a multiple of the oversampling, the search as written does not
      stop at zero: it passes the positive remainder and then wraps to an index past the end
      of the kernel column. */
  lemma TruncationWrapsAsWritten(start: nat, oversampling: nat, arraySize: nat)
    requires oversampling > 0 && start < 0x1_0000_0000 && start % oversampling != 0
    requires arraySize + oversampling <= 0x1_0000_0000
    ensures VisitAsWritten(start, oversampling, start / oversampling) == start % oversampling
    ensures 0 < start % oversampling
    ensures VisitAsWritten(start, oversampling, start / oversampling + 1) >= arraySize
  {
    var q, m := start / oversampling, start % oversampling;
    assert q * oversampling == start - m;
    VisitAsWrittenDescends(start, oversampling, q);
    ModUnique(m - oversampling, 0x1_0000_0000, -1, 0x1_0000_0000 + m - oversampling);
  }

  /** The input that shows it: a 7-pixel kernel oversampled twice (array size 14) with a
      maximum support of 5 starts at `min(10, 7) = 7`, visits 7, 5, 3, 1 and then reads
      index 4294967295 of a 14-row kernel. */
  lemma TruncationWrapExample()
    ensures TruncationStart(5, 2, 7 * 2) == 7
    ensures VisitAsWritten(7, 2, 3) == 1
    ensures VisitAsWritten(7, 2, 4) == 4294967295
  {
    assert VisitAsWritten(7, 2, 1) == 5;
    assert VisitAsWritten(7, 2, 2) == 3;
  }

  // ---------------------------------------------------------------- kernel cache indices

  const SizeMax: int := 0x1_0000_0000_0000_0000

  /** `size_t` arithmetic: every result is taken modulo 2^64. */
  function Wrap64(x: int): (r: nat)
    ensures r < SizeMax
    ensures 0 <= x < SizeMax ==> r == x
  {
    if 0 <= x < SizeMax then (ModUnique(x, SizeMax, 0, x); x % SizeMax) else x % SizeMax
  }

  lemma Wrap64Add(x: int, y: int)
    ensures Wrap64(Wrap64(x) + y) == Wrap64(x + y)
  {
    var q := x / SizeMax;
    assert Wrap64(x) + y == (x + y) + SizeMax * (-q);
    ModAddMultiple(x + y, SizeMax, -q);
  }

  /** Row (or column) of `conv_kernel` that tap `t` of cache entry `z` reads in the
      non-Hankel branch: `(ctr - support*oversampling + oversampled_pixel - z + t*oversampling
      + arr/2) mod arr`, with every intermediate in `size_t`. */
  function GatherIndex(arr: nat, oversampling: nat, maxConvSupport: nat, z: int, t: int): (g: nat)
    requires arr > 0
    ensures g < arr
  {
    var ctr := arr / 2;
    Wrap64(ctr - maxConvSupport * oversampling + oversampling / 2 - z + t * oversampling + arr / 2) % arr
  }

  /** Without an unsigned underflow the gather is the periodic one: tap `t` of entry `z` is
      `t - support` whole pixels and `oversampling/2 - z` sub-pixel steps from the centre. */
  lemma GatherIndexIsPeriodic(arr: nat, oversampling: nat, maxConvSupport: nat, z: int, t: int)
    requires arr > 0 && arr % 2 == 0
    requires maxConvSupport * oversampling <= arr / 2 && 0 <= z <= 2 * (oversampling / 2)
    requires 0 <= t && oversampling / 2 <= arr / 2 && t * oversampling + 2 * arr < SizeMax
    ensures GatherIndex(arr, oversampling, maxConvSupport, z, t)
      == ((t - maxConvSupport) * oversampling + oversampling / 2 - z) % arr
  {
    var a, tt, op := maxConvSupport * oversampling, t * oversampling, oversampling / 2;
    var v := arr / 2 - a + op - z + tt + arr / 2;
    var u := (t - maxConvSupport) * oversampling + op - z;
    MulSubDistributes(t, maxConvSupport, oversampling);
    assert v == u + arr;
    assert 0 <= v < SizeMax;
    ModAddMultiple(u, arr, 1);
  }

  lemma MulSubDistributes(t: int, s: int, n: int)
    ensures (t - s) * n == t * n - s * n
  {
  }

  /** The running start of the gather loops, `size_t` arithmetic throughout: tap `t` of
      entry `z` reads `(start + arr/2) mod arr` with `start = oversamp_conv - z + t*oversampling`. */
  function GatherStart(arr: nat, oversampling: nat, maxConvSupport: nat, z: int, t: int): nat
  {
    Wrap64(arr / 2 - maxConvSupport * oversampling + oversampling / 2 - z + t * oversampling)
  }

  /** The first start of entry `z`: `oversamp_conv - z`, with `oversamp_conv` itself wrapped. */
  lemma GatherStartFirst(arr: nat, oversampling: nat, maxConvSupport: nat, z: int)
    ensures Wrap64(Wrap64(arr / 2 - maxConvSupport * oversampling + oversampling / 2) - z)
      == GatherStart(arr, oversampling, maxConvSupport, z, 0)
  {
    var e := arr / 2 - maxConvSupport * oversampling + oversampling / 2;
    Wrap64Add(e, -z);
    assert e - z == e - z + 0 * oversampling;
  }

  /** Adding `oversampling` to the running start moves to the next tap. */
  lemma GatherStartNext(arr: nat, oversampling: nat, maxConvSupport: nat, z: int, t: int)
    ensures Wrap64(GatherStart(arr, oversampling, maxConvSupport, z, t) + oversampling)
      == GatherStart(arr, oversampling, maxConvSupport, z, t + 1)
  {
    var e := arr / 2 - maxConvSupport * oversampling + oversampling / 2 - z + t * oversampling;
    Wrap64Add(e, oversampling);
    assert e + oversampling == arr / 2 - maxConvSupport * oversampling + oversampling / 2 - z + (t + 1) * oversampling;
  }

  /** The index read from the running start is the gather index. */
  lemma GatherFromStart(arr: nat, oversampling: nat, maxConvSupport: nat, z: int, t: int)
    requires arr > 0
    ensures Wrap64(GatherStart(arr, oversampling, maxConvSupport, z, t) + arr / 2) % arr
      == GatherIndex(arr, oversampling, maxConvSupport, z, t)
  {
    var e := arr / 2 - maxConvSupport * oversampling + oversampling / 2 - z + t * oversampling;
    Wrap64Add(e, arr / 2);
  }

  /** The centre tap of the centre entry of the cache reads the kernel centre. */
  lemma CacheCentreTap(arr: nat, oversampling: nat, maxConvSupport: nat)
    requires arr > 0 && arr % 2 == 0
    requires maxConvSupport * oversampling <= arr / 2 && oversampling / 2 <= arr / 2
    requires maxConvSupport * oversampling + 2 * arr < SizeMax
    ensures GatherIndex(arr, oversampling, maxConvSupport, oversampling / 2, maxConvSupport) == 0
  {
    GatherIndexIsPeriodic(arr, oversampling, maxConvSupport, oversampling / 2, maxConvSupport);
    MulSubDistributes(maxConvSupport, maxConvSupport, oversampling);
    assert (maxConvSupport - maxConvSupport) * oversampling + oversampling / 2 - oversampling / 2 == 0;
    ModUnique(0, arr, 0, 0);
  }

  /** Number of sub-pixel offsets in each direction of the kernel cache. */
  function CacheSize(oversampling: nat): (n: nat)
    ensures n % 2 == 1 && n == oversampling + 1 - oversampling % 2
  {
    2 * (oversampling / 2) + 1
  }

  /** `vec_idx` of the Hankel branch: the packed index of the unordered pair of distances in
      an upper triangle of row length `rowLength` (`kernel_offset`). */
  function PackedIndex(dcx: nat, dcy: nat, rowLength: nat): (e: int)
    ensures dcx <= dcy ==> e == RowStart(dcx, rowLength) + dcy
    ensures dcy <= dcx ==> e == RowStart(dcy, rowLength) + dcx
  {
    if dcx > dcy then dcy * rowLength - (dcy * (dcy + 1)) / 2 + dcx
    else dcx * rowLength - (dcx * (dcx + 1)) / 2 + dcy
  }

  /** Swapping the two distances gives the same index. */
  lemma PackedIndexSymmetric(dcx: nat, dcy: nat, rowLength: nat)
    ensures PackedIndex(dcx, dcy, rowLength) == PackedIndex(dcy, dcx, rowLength)
  {
  }

  /** Start of row `m` of the packed triangle. */
  function RowStart(m: nat, rowLength: nat): int
  {
    m * rowLength - (m * (m + 1)) / 2
  }

  lemma RowStartStep(m: nat, rowLength: nat)
    ensures RowStart(m + 1, rowLength) == RowStart(m, rowLength) + rowLength - (m + 1)
  {
    var a := m * (m + 1);
    var b := (m + 1) * (m + 2);
    assert b == a + 2 * (m + 1);
    assert b / 2 == a / 2 + (m + 1) by {
      ModUnique(b, 2, a / 2 + (m + 1), a % 2);
    }
    assert (m + 1) * rowLength == m * rowLength + rowLength;
  }

  /** Every index of a later row lies past the end of an earlier row. */
  lemma {:induction false} RowStartMonotone(m: nat, m': nat, rowLength: nat)
    requires m < m' <= rowLength
    ensures RowStart(m', rowLength) + m' >= RowStart(m, rowLength) + rowLength
    decreases m' - m
  {
    RowStartStep(m, rowLength);
    if m + 1 < m' {
      RowStartMonotone(m + 1, m', rowLength);
    }
  }

  /** Distinct unordered pairs of distances below the row length get distinct indices. */
  lemma PackedIndexInjective(a: nat, b: nat, c: nat, d: nat, rowLength: nat)
    requires a <= b < rowLength && c <= d < rowLength
    requires PackedIndex(a, b, rowLength) == PackedIndex(c, d, rowLength)
    ensures a == c && b == d
  {
    assert PackedIndex(a, b, rowLength) == RowStart(a, rowLength) + b;
    assert PackedIndex(c, d, rowLength) == RowStart(c, rowLength) + d;
    if a < c {
      RowStartMonotone(a, c, rowLength);
    } else if c < a {
      RowStartMonotone(c, a, rowLength);
    }
  }

  // ---------------------------------------------------------------- construction

  /** The constructor's size check: an odd `array_size = kernel_size * oversampling` is
      rejected. */
  function ValidateArraySize(kernelSize: nat, oversampling: nat): (r: Outcome<string>)
    ensures r.Pass? <==> (kernelSize * oversampling) % 2 == 0
  {
    if (kernelSize * oversampling) % 2 != 0 then Fail("array_size must be multiple of 2 for WideFieldImaging generation.")
    else Pass
  }

  /** The array size is odd exactly when both the kernel size and the oversampling are odd. */
  lemma ArraySizeOddIffBothOdd(kernelSize: nat, oversampling: nat)
    ensures ValidateArraySize(kernelSize, oversampling).Fail? <==> (kernelSize % 2 == 1 && oversampling % 2 == 1)
  {
    ProductParity(kernelSize, oversampling);
    if kernelSize % 2 == 0 {
      assert (kernelSize % 2) * (oversampling % 2) == 0;
    } else {
      assert (kernelSize % 2) * (oversampling % 2) == oversampling % 2;
    }
  }

  /** The parity of a product is the product of the parities. */
  lemma {:induction false} ProductParity(a: nat, b: nat)
    ensures (a * b) % 2 == (a % 2) * (b % 2)
    decreases a
  {
    if a >= 2 {
      ProductParity(a - 2, b);
      assert a * b == (a - 2) * b + 2 * b;
      ModAddMultiple((a - 2) * b, 2, b);
      ModAddMultiple(a - 2, 2, 1);
    }
  }
}
