/**
 * The per-pixel convolution of blur.c: `get_sums` accumulates the weighted
 * channel sums and the weight total over the kernel window around (x, y),
 * counting only the kernel cells whose source position lies inside the
 * image, and `blur_pixel` divides by the weight total and writes the one
 * destination pixel. The ghost functions below give the window sum as a
 * specification; the lemmas state what it means (a uniform image keeps
 * its colour, a 1x1 kernel is the identity, only the window matters, a
 * positive kernel never has a zero weight total).
 */
module Convolution {
  import opened BlurTypes

  /** The four accumulators of `get_sums`: red, green, blue and kernel weight. */
  datatype Sums = Sums(r: real, g: real, b: real, k: real)

  const Zero := Sums(0.0, 0.0, 0.0, 0.0)

  function Plus(a: Sums, b: Sums): Sums {
    Sums(a.r + b.r, a.g + b.g, a.b + b.b, a.k + b.k)
  }

  /** `half_kernel`: the offset from a kernel cell index to the source position. */
  function Half(kernel: Kernel): nat {
    kernel.size / 2
  }

  predicate InImage(img: Image, gx: int, gy: int) {
    0 <= gx < img.w && 0 <= gy < img.h
  }

  /**
   * What kernel cell (kx, ky) adds for output (x, y): its weight times each
   * channel of the source pixel it lands on, and its weight, when that
   * source position is inside the image; nothing otherwise.
   */
  ghost function CellSums(img: Image, kernel: Kernel, x: nat, y: nat, kx: nat, ky: nat): Sums
    requires img.Valid() && kernel.Valid() && kx < kernel.size && ky < kernel.size
  {
    var gx := x - Half(kernel) + kx;
    var gy := y - Half(kernel) + ky;
    if InImage(img, gx, gy) then
      var wt := kernel.matrix[ky][kx];
      var p := img.pixels[gy][gx];
      Sums(Weigh(wt, p.r), Weigh(wt, p.g), Weigh(wt, p.b), wt)
    else
      Zero
  }

  /** An in-image kernel cell adds its weight times the source pixel it lands on. */
  lemma InImageCell(img: Image, kernel: Kernel, x: nat, y: nat, kx: nat, ky: nat, gx: nat, gy: nat)
    requires img.Valid() && kernel.Valid() && kx < kernel.size && ky < kernel.size
    requires gx == x - Half(kernel) + kx && gy == y - Half(kernel) + ky && gx < img.w && gy < img.h
    ensures var wt, p := kernel.matrix[ky][kx], img.pixels[gy][gx];
            CellSums(img, kernel, x, y, kx, ky) == Sums(Weigh(wt, p.r), Weigh(wt, p.g), Weigh(wt, p.b), wt)
  {
  }

  /** A kernel weight times one colour channel. */
  function Weigh(wt: real, v: Channel): real {
    wt * (v as real)
  }

  /** The sums over the first `n` cells of kernel row `ky`. */
  ghost function RowSums(img: Image, kernel: Kernel, x: nat, y: nat, ky: nat, n: nat): Sums
    requires img.Valid() && kernel.Valid() && ky < kernel.size && n <= kernel.size
  {
    if n == 0 then Zero
    else Plus(RowSums(img, kernel, x, y, ky, n - 1), CellSums(img, kernel, x, y, n - 1, ky))
  }

  /** The sums over the first `m` whole kernel rows. */
  ghost function RowsSums(img: Image, kernel: Kernel, x: nat, y: nat, m: nat): Sums
    requires img.Valid() && kernel.Valid() && m <= kernel.size
  {
    if m == 0 then Zero
    else Plus(RowsSums(img, kernel, x, y, m - 1), RowSums(img, kernel, x, y, m - 1, kernel.size))
  }

  /** The sums over the whole `size` by `size` window centred on (x, y). */
  ghost function WindowSums(img: Image, kernel: Kernel, x: nat, y: nat): Sums
    requires img.Valid() && kernel.Valid()
  {
    RowsSums(img, kernel, x, y, kernel.size)
  }

  /** Every pixel of the image has a non-zero weight total, so `blur_pixel` never divides by zero. */
  ghost predicate NonDegenerate(img: Image, kernel: Kernel)
    requires img.Valid() && kernel.Valid()
  {
    forall x: nat, y: nat :: x < img.w && y < img.h ==> WindowSums(img, kernel, x, y).k != 0.0
  }

  /** The renormalised weighted average `blur_pixel` stores for (x, y). */
  ghost function Blurred(img: Image, kernel: Kernel, x: nat, y: nat): RealPixel
    requires img.Valid() && kernel.Valid() && WindowSums(img, kernel, x, y).k != 0.0
  {
    var s := WindowSums(img, kernel, x, y);
    RealPixel(s.r / s.k, s.g / s.k, s.b / s.k)
  }

  /**
   * `get_sums`: the four accumulators start at zero and the nested loops
   * visit kernel cell (k_x, k_y) = (grid_x - (x - half), grid_y - (y - half))
   * for every grid position of the window, adding only in-image cells.
   */
  method GetSums(portion: Portion, x: nat, y: nat) returns (rSum: real, gSum: real, bSum: real, kSum: real)
    requires portion.img.Valid() && portion.kernel.Valid()
    ensures Sums(rSum, gSum, bSum, kSum) == WindowSums(portion.img, portion.kernel, x, y)
  {
    var img, kernel := portion.img, portion.kernel;
    var halfKernel := kernel.size / 2;
    var gridX: int, gridY: int := x - halfKernel, y - halfKernel;
    var gridStopY := gridY + kernel.size;
    var gridStopX := gridX + kernel.size;
    var kY: nat := 0;
    rSum, gSum, bSum, kSum := 0.0, 0.0, 0.0, 0.0;
    gridY := y - halfKernel;
    while gridY < gridStopY
      invariant kY == gridY - (y - halfKernel) && kY <= kernel.size
      invariant Sums(rSum, gSum, bSum, kSum) == RowsSums(img, kernel, x, y, kY)
    {
      var kX: nat := 0;
      ghost var rows := Sums(rSum, gSum, bSum, kSum);
      gridX := x - halfKernel;
      while gridX < gridStopX
        invariant kX == gridX - (x - halfKernel) && kX <= kernel.size
        invariant Sums(rSum, gSum, bSum, kSum) == Plus(rows, RowSums(img, kernel, x, y, kY, kX))
      {
        ghost var before := Sums(rSum, gSum, bSum, kSum);
        assert gridX == x - Half(kernel) + kX && gridY == y - Half(kernel) + kY;
        ghost var cell := CellSums(img, kernel, x, y, kX, kY);
        if gridX > -1 && gridY > -1 && gridX < img.w && gridY < img.h {
          var wt := kernel.matrix[kY][kX];
          var p := img.pixels[gridY][gridX];
          InImageCell(img, kernel, x, y, kX, kY, gridX, gridY);
          rSum := rSum + Weigh(wt, p.r);
          gSum := gSum + Weigh(wt, p.g);
          bSum := bSum + Weigh(wt, p.b);
          kSum := kSum + wt;
        } else {
          assert cell == Zero;
        }
        assert Sums(rSum, gSum, bSum, kSum) == Plus(before, cell);
        gridX, kX := gridX + 1, kX + 1;
      }
      gridY, kY := gridY + 1, kY + 1;
    }
  }

  /**
   * `blur_pixel`: divides the three channel sums by the weight total and
   * stores the averages in destination pixel (x, y); no other destination
   * pixel changes (the source and kernel are values and cannot).
   */
  method BlurPixel(portion: Portion, x: nat, y: nat)
    requires portion.Valid()
    requires x < portion.img.w && y < portion.img.h
    requires WindowSums(portion.img, portion.kernel, x, y).k != 0.0
    modifies portion.imgBlur
    ensures portion.imgBlur[y, x] == Blurred(portion.img, portion.kernel, x, y)
    ensures forall j, i :: 0 <= j < portion.imgBlur.Length0 && 0 <= i < portion.imgBlur.Length1 && (j, i) != (y, x)
              ==> portion.imgBlur[j, i] == old(portion.imgBlur[j, i])
  {
    var rAvg, gAvg, bAvg, kSum := GetSums(portion, x, y);
    rAvg, gAvg, bAvg := rAvg / kSum, gAvg / kSum, bAvg / kSum;
    portion.imgBlur[y, x] := RealPixel(rAvg, gAvg, bAvg);
  }

  // ---------------------------------------------------------------------
  // Properties of the window sum
  // ---------------------------------------------------------------------

  /** A uniform source image: every pixel is `c`. */
  ghost predicate Uniform(img: Image, c: Pixel)
    requires img.Valid()
  {
    forall gy, gx :: 0 <= gy < img.h && 0 <= gx < img.w ==> img.pixels[gy][gx] == c
  }

  /** A channel sum that is `v` times its weight total. */
  predicate Proportional(s: Sums, c: Pixel) {
    s.r == (c.r as real) * s.k && s.g == (c.g as real) * s.k && s.b == (c.b as real) * s.k
  }

  lemma PlusProportional(a: Sums, b: Sums, c: Pixel)
    requires Proportional(a, c) && Proportional(b, c)
    ensures Proportional(Plus(a, b), c)
  {
    var vr, vg, vb := c.r as real, c.g as real, c.b as real;
    assert vr * (a.k + b.k) == vr * a.k + vr * b.k;
    assert vg * (a.k + b.k) == vg * a.k + vg * b.k;
    assert vb * (a.k + b.k) == vb * a.k + vb * b.k;
  }

  lemma UniformCellSums(img: Image, kernel: Kernel, c: Pixel, x: nat, y: nat, kx: nat, ky: nat)
    requires img.Valid() && kernel.Valid() && kx < kernel.size && ky < kernel.size
    requires Uniform(img, c)
    ensures Proportional(CellSums(img, kernel, x, y, kx, ky), c)
  {
    var gx := x - Half(kernel) + kx;
    var gy := y - Half(kernel) + ky;
    if InImage(img, gx, gy) {
      assert img.pixels[gy][gx] == c;
    }
  }

  /** Over a uniform image each channel sum is the channel value times the weight total. */
  lemma {:induction false} UniformRowSums(img: Image, kernel: Kernel, c: Pixel, x: nat, y: nat, ky: nat, n: nat)
    requires img.Valid() && kernel.Valid() && ky < kernel.size && n <= kernel.size
    requires Uniform(img, c)
    ensures Proportional(RowSums(img, kernel, x, y, ky, n), c)
  {
    if n > 0 {
      UniformRowSums(img, kernel, c, x, y, ky, n - 1);
      UniformCellSums(img, kernel, c, x, y, n - 1, ky);
      PlusProportional(RowSums(img, kernel, x, y, ky, n - 1), CellSums(img, kernel, x, y, n - 1, ky), c);
    }
  }

  lemma {:induction false} UniformRowsSums(img: Image, kernel: Kernel, c: Pixel, x: nat, y: nat, m: nat)
    requires img.Valid() && kernel.Valid() && m <= kernel.size
    requires Uniform(img, c)
    ensures Proportional(RowsSums(img, kernel, x, y, m), c)
  {
    if m > 0 {
      UniformRowsSums(img, kernel, c, x, y, m - 1);
      UniformRowSums(img, kernel, c, x, y, m - 1, kernel.size);
      PlusProportional(RowsSums(img, kernel, x, y, m - 1), RowSums(img, kernel, x, y, m - 1, kernel.size), c);
    }
  }

  /**
   * Boundary renormalisation: blurring a uniform image gives back its colour
   * at every pixel, edges included, whatever the (non-degenerate) kernel.
   */
  lemma UniformImageKeepsColour(img: Image, kernel: Kernel, c: Pixel, x: nat, y: nat)
    requires img.Valid() && kernel.Valid() && Uniform(img, c)
    requires WindowSums(img, kernel, x, y).k != 0.0
    ensures Blurred(img, kernel, x, y) == RealPixel(c.r as real, c.g as real, c.b as real)
  {
    UniformRowsSums(img, kernel, c, x, y, kernel.size);
  }

  /**
   * A 1x1 kernel: the window is the pixel itself, so with a non-zero weight
   * the output equals the source pixel.
   */
  lemma IdentityKernel(img: Image, kernel: Kernel, x: nat, y: nat)
    requires img.Valid() && kernel.Valid() && kernel.size == 1
    requires x < img.w && y < img.h && kernel.matrix[0][0] != 0.0
    ensures WindowSums(img, kernel, x, y).k == kernel.matrix[0][0]
    ensures var p := img.pixels[y][x];
            Blurred(img, kernel, x, y) == RealPixel(p.r as real, p.g as real, p.b as real)
  {
    var wt := kernel.matrix[0][0];
    var p := img.pixels[y][x];
    var cell := CellSums(img, kernel, x, y, 0, 0);
    assert cell == Sums(wt * (p.r as real), wt * (p.g as real), wt * (p.b as real), wt);
    assert RowSums(img, kernel, x, y, 0, 1) == Plus(Zero, cell);
    assert RowsSums(img, kernel, x, y, 1) == Plus(Zero, RowSums(img, kernel, x, y, 0, 1));
  }

  /** Two images of the same size that agree on the pixels under the window of (x, y). */
  ghost predicate AgreeOnWindow(img1: Image, img2: Image, kernel: Kernel, x: nat, y: nat)
    requires img1.Valid() && img2.Valid()
  {
    img1.w == img2.w && img1.h == img2.h &&
    forall gy, gx :: 0 <= gy < img1.h && 0 <= gx < img1.w &&
                     x - Half(kernel) <= gx < x - Half(kernel) + kernel.size &&
                     y - Half(kernel) <= gy < y - Half(kernel) + kernel.size
                     ==> img1.pixels[gy][gx] == img2.pixels[gy][gx]
  }

  lemma LocalCellSums(img1: Image, img2: Image, kernel: Kernel, x: nat, y: nat, kx: nat, ky: nat)
    requires img1.Valid() && img2.Valid() && kernel.Valid() && kx < kernel.size && ky < kernel.size
    requires AgreeOnWindow(img1, img2, kernel, x, y)
    ensures CellSums(img1, kernel, x, y, kx, ky) == CellSums(img2, kernel, x, y, kx, ky)
  {
    var gx := x - Half(kernel) + kx;
    var gy := y - Half(kernel) + ky;
    if InImage(img1, gx, gy) {
      assert img1.pixels[gy][gx] == img2.pixels[gy][gx];
    }
  }

  lemma {:induction false} LocalRowSums(img1: Image, img2: Image, kernel: Kernel, x: nat, y: nat, ky: nat, n: nat)
    requires img1.Valid() && img2.Valid() && kernel.Valid() && ky < kernel.size && n <= kernel.size
    requires AgreeOnWindow(img1, img2, kernel, x, y)
    ensures RowSums(img1, kernel, x, y, ky, n) == RowSums(img2, kernel, x, y, ky, n)
  {
    if n > 0 {
      LocalRowSums(img1, img2, kernel, x, y, ky, n - 1);
      LocalCellSums(img1, img2, kernel, x, y, n - 1, ky);
    }
  }

  lemma {:induction false} LocalRowsSums(img1: Image, img2: Image, kernel: Kernel, x: nat, y: nat, m: nat)
    requires img1.Valid() && img2.Valid() && kernel.Valid() && m <= kernel.size
    requires AgreeOnWindow(img1, img2, kernel, x, y)
    ensures RowsSums(img1, kernel, x, y, m) == RowsSums(img2, kernel, x, y, m)
  {
    if m > 0 {
      LocalRowsSums(img1, img2, kernel, x, y, m - 1);
      LocalRowSums(img1, img2, kernel, x, y, m - 1, kernel.size);
    }
  }

  /**
   * Locality: the destination pixel at (x, y) depends only on the source
   * pixels in [x - half, x - half + size) x [y - half, y - half + size).
   */
  lemma WindowLocality(img1: Image, img2: Image, kernel: Kernel, x: nat, y: nat)
    requires img1.Valid() && img2.Valid() && kernel.Valid()
    requires AgreeOnWindow(img1, img2, kernel, x, y)
    ensures WindowSums(img1, kernel, x, y) == WindowSums(img2, kernel, x, y)
  {
    LocalRowsSums(img1, img2, kernel, x, y, kernel.size);
  }

  /** All weights of the kernel are strictly positive. */
  ghost predicate PositiveKernel(kernel: Kernel)
    requires kernel.Valid()
  {
    forall ky, kx :: 0 <= ky < kernel.size && 0 <= kx < kernel.size ==> kernel.matrix[ky][kx] > 0.0
  }

  /** With positive weights a row's weight total is at least that of each of its cells. */
  lemma {:induction false} RowWeightBound(img: Image, kernel: Kernel, x: nat, y: nat, ky: nat, n: nat, kx: nat)
    requires img.Valid() && kernel.Valid() && PositiveKernel(kernel)
    requires ky < kernel.size && n <= kernel.size && kx < n
    ensures RowSums(img, kernel, x, y, ky, n).k >= CellSums(img, kernel, x, y, kx, ky).k >= 0.0
  {
    if kx < n - 1 {
      RowWeightBound(img, kernel, x, y, ky, n - 1, kx);
    } else if n > 1 {
      RowWeightBound(img, kernel, x, y, ky, n - 1, 0);
    }
  }

  lemma {:induction false} RowsWeightBound(img: Image, kernel: Kernel, x: nat, y: nat, m: nat, ky: nat)
    requires img.Valid() && kernel.Valid() && PositiveKernel(kernel)
    requires m <= kernel.size && ky < m
    ensures RowsSums(img, kernel, x, y, m).k >= RowSums(img, kernel, x, y, ky, kernel.size).k >= 0.0
  {
    RowWeightBound(img, kernel, x, y, ky, kernel.size, 0);
    RowWeightBound(img, kernel, x, y, m - 1, kernel.size, 0);
    if ky < m - 1 {
      RowsWeightBound(img, kernel, x, y, m - 1, ky);
    } else if m > 1 {
      RowsWeightBound(img, kernel, x, y, m - 1, 0);
    }
  }

  /**
   * A kernel of size at least 1 with positive weights is never degenerate:
   * its centre cell always lands on (x, y) itself, which is in the image.
   */
  lemma PositiveKernelNonDegenerate(img: Image, kernel: Kernel)
    requires img.Valid() && kernel.Valid() && kernel.size >= 1 && PositiveKernel(kernel)
    ensures NonDegenerate(img, kernel)
  {
    forall x: nat, y: nat | x < img.w && y < img.h
      ensures WindowSums(img, kernel, x, y).k > 0.0
    {
      var c := Half(kernel);
      RowsWeightBound(img, kernel, x, y, kernel.size, c);
      RowWeightBound(img, kernel, x, y, c, kernel.size, c);
      assert CellSums(img, kernel, x, y, c, c).k == kernel.matrix[c][c];
    }
  }
}
