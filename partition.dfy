/**
 * `init` of blur.c: one portion per worker. With `w <= N` workers below
 * `w` get one column each and the rest an empty portion; otherwise every
 * worker gets a block of `w / N` columns, and the `w mod N` columns past
 * the blocks are reached later by the walk's shifted column (see Walk).
 * The worker count `NUM_THREADS` is the parameter `n`.
 */
module Partition {
  import opened BlurTypes

  /**
   * The portion worker `i` receives. The else branch of `init` gives a
   * worker `i >= w` of a narrow image the width `w / N`, which is 0 there.
   */
  ghost predicate AssignedTo(p: Portion, img: Image, imgBlur: array2<RealPixel>, kernel: Kernel, n: nat, i: nat)
    requires n >= 1
  {
    p.img == img && p.imgBlur == imgBlur && p.kernel == kernel && p.y == 0 && p.h == img.h &&
    if img.w <= n then
      (if i < img.w then p.x == i && p.w == 1 else p.x == 0 && p.w == 0)
    else
      p.x == i * (img.w / n) && p.w == img.w / n
  }

  /** `ps` is the portion array `init` fills for `n` workers. */
  ghost predicate IsPartition(ps: seq<Portion>, img: Image, imgBlur: array2<RealPixel>, kernel: Kernel, n: nat) {
    |ps| == n && forall i :: 0 <= i < n ==> AssignedTo(ps[i], img, imgBlur, kernel, n, i)
  }

  /** `init`, without its allocation: fills the portions field by field, worker by worker. */
  method Init(img: Image, imgBlur: array2<RealPixel>, kernel: Kernel, n: nat) returns (portion: seq<Portion>)
    ensures IsPartition(portion, img, imgBlur, kernel, n)
  {
    portion := [];
    var i: nat := 0;
    while i < n
      invariant i <= n && |portion| == i
      invariant forall k :: 0 <= k < i ==> AssignedTo(portion[k], img, imgBlur, kernel, n, k)
    {
      var p: Portion;
      if img.w <= n && i < img.w {
        p := Portion(img, imgBlur, i, 0, 1, img.h, kernel);
      } else {
        var offset := img.w / n;
        p := Portion(img, imgBlur, offset * i, 0, offset, img.h, kernel);
        BlockStart(img.w, n, i);
      }
      assert AssignedTo(p, img, imgBlur, kernel, n, i);
      portion := portion + [p];
      i := i + 1;
    }
  }

  /** Column `c` is one of the primary columns `[x, x + w)` of portion `p`. */
  predicate Primary(p: Portion, c: int) {
    p.x <= c < p.x + p.w
  }

  /**
   * Column `c` is the shifted column `i + N*w` of a primary column `i` of
   * `p` and is inside the image, so the walk visits it too.
   */
  predicate Shifted(p: Portion, n: nat, c: int) {
    p.x + n * p.w <= c < p.x + p.w + n * p.w && c < p.img.w
  }

  /**
   * The worker whose walk visits column `c`: column `c` itself for a
   * narrow image; for a wide one the block `c / (w/N)` for a primary
   * column, and the block of `c - N*(w/N)` for a remainder column.
   */
  function Owner(w: nat, n: nat, c: nat): nat
    requires n >= 1
  {
    if w <= n then c
    else
      var off := w / n;
      WideOffset(w, n);
      if c < n * off then c / off else (c - n * off) / off
  }

  /**
   * The else branch of `init` puts worker `i` at column `(w/N) * i`; for a
   * narrow image it is only taken with `i >= w`, where `w / N` is 0.
   */
  lemma BlockStart(w: nat, n: nat, i: nat)
    requires n >= 1 && !(w <= n && i < w) && i < n
    ensures (w / n) * i == i * (w / n)
    ensures w <= n ==> w / n == 0
  {
  }

  /** A wide image has blocks of at least one column. */
  lemma WideOffset(w: nat, n: nat)
    requires 1 <= n < w
    ensures w / n >= 1
  {
    DivBounds(w, n);
  }

  // ---------------------------------------------------------------------
  // Arithmetic used below
  // ---------------------------------------------------------------------

  lemma {:induction false} MulMonotone(a: nat, b: nat, c: nat)
    requires a <= b
    ensures a * c <= b * c
  {
    if a < b {
      MulMonotone(a, b - 1, c);
      assert (b - 1) * c + c == b * c;
    }
  }

  /** Block `i` of width `off` is `[i*off, i*off + off)`, and later blocks start after it ends. */
  lemma BlockEnd(i: nat, j: nat, off: nat)
    requires i < j
    ensures i * off + off == (i + 1) * off <= j * off
  {
    MulMonotone(i + 1, j, off);
  }

  /** `w / n` blocks of size `n` fit in `w`, and what is left is `w mod n < n`. */
  lemma DivBounds(w: nat, n: nat)
    requires n >= 1
    ensures n * (w / n) <= w && w - n * (w / n) == w % n < n
  {
  }

  /** Column `c` lies in block `c / off`. */
  lemma BlockOf(c: nat, off: nat)
    requires off >= 1
    ensures (c / off) * off <= c < (c / off) * off + off
  {
  }

  // ---------------------------------------------------------------------
  // Properties of the partition
  // ---------------------------------------------------------------------

  /** Every portion's rectangle lies inside the image. */
  lemma PortionsInImage(ps: seq<Portion>, img: Image, imgBlur: array2<RealPixel>, kernel: Kernel, n: nat)
    requires n >= 1 && IsPartition(ps, img, imgBlur, kernel, n)
    ensures forall i :: 0 <= i < n ==> ps[i].x + ps[i].w <= img.w && ps[i].y + ps[i].h <= img.h
  {
    forall i | 0 <= i < n
      ensures ps[i].x + ps[i].w <= img.w
    {
      assert AssignedTo(ps[i], img, imgBlur, kernel, n, i);
      if img.w > n {
        var off := img.w / n;
        DivBounds(img.w, n);
        if i + 1 < n { BlockEnd(i + 1, n, off); }
      }
    }
  }

  /** `PortionsInImage` for portion `i` alone, with the rest of what a worker needs of it. */
  lemma PortionInImage(ps: seq<Portion>, img: Image, imgBlur: array2<RealPixel>, kernel: Kernel, n: nat, i: nat)
    requires n >= 1 && IsPartition(ps, img, imgBlur, kernel, n) && i < n
    ensures ps[i].x + ps[i].w <= img.w && ps[i].y + ps[i].h <= img.h
    ensures ps[i].img == img && ps[i].imgBlur == imgBlur && ps[i].kernel == kernel
  {
    assert AssignedTo(ps[i], img, imgBlur, kernel, n, i);
    if img.w > n {
      var off := img.w / n;
      DivBounds(img.w, n);
      if i + 1 < n { BlockEnd(i + 1, n, off); }
    }
  }

  /**
   * A narrow image (`w <= N`): worker `i` owns exactly column `i` when
   * `i < w` and nothing otherwise, and no worker has a shifted column
   * inside the image.
   */
  lemma NarrowImageColumns(ps: seq<Portion>, img: Image, imgBlur: array2<RealPixel>, kernel: Kernel, n: nat)
    requires n >= 1 && img.w <= n && IsPartition(ps, img, imgBlur, kernel, n)
    ensures forall i, c :: 0 <= i < n ==> (Primary(ps[i], c) <==> c == i && i < img.w)
    ensures forall i, c :: 0 <= i < n ==> !Shifted(ps[i], n, c)
  {
    forall i | 0 <= i < n ensures AssignedTo(ps[i], img, imgBlur, kernel, n, i) { }
  }

  /** In a wide image every portion is block `i` of width `w / N`. */
  lemma WideImageBlocks(ps: seq<Portion>, img: Image, imgBlur: array2<RealPixel>, kernel: Kernel, n: nat)
    requires n >= 1 && img.w > n && IsPartition(ps, img, imgBlur, kernel, n)
    ensures img.w / n >= 1
    ensures forall i :: 0 <= i < n ==> ps[i].x == i * (img.w / n) && ps[i].w == img.w / n && ps[i].img == img
  {
    forall i | 0 <= i < n
      ensures ps[i].x == i * (img.w / n) && ps[i].w == img.w / n && ps[i].img == img
    {
      assert AssignedTo(ps[i], img, imgBlur, kernel, n, i);
    }
  }

  /**
   * A wide image (`w > N`): the primary blocks are pairwise disjoint, lie
   * in `[0, N*(w/N))`, and every column there belongs to block `c / (w/N)`.
   */
  lemma WideImagePrimaryColumns(ps: seq<Portion>, img: Image, imgBlur: array2<RealPixel>, kernel: Kernel, n: nat)
    requires n >= 1 && img.w > n && IsPartition(ps, img, imgBlur, kernel, n)
    ensures forall i, c :: 0 <= i < n && Primary(ps[i], c) ==> 0 <= c < n * (img.w / n)
    ensures forall i, j, c :: 0 <= i < n && 0 <= j < n && Primary(ps[i], c) && Primary(ps[j], c) ==> i == j
    ensures forall c: nat :: c < n * (img.w / n) ==> Owner(img.w, n, c) < n && Primary(ps[Owner(img.w, n, c)], c)
  {
    var off := img.w / n;
    WideImageBlocks(ps, img, imgBlur, kernel, n);
    forall i, c | 0 <= i < n && Primary(ps[i], c)
      ensures 0 <= c < n * off
    {
      BlockEnd(i, n, off);
    }
    forall i, j, c | 0 <= i < n && 0 <= j < n && Primary(ps[i], c) && Primary(ps[j], c)
      ensures i == j
    {
      InBlock(c, off, i);
      InBlock(c, off, j);
    }
    forall c: nat | c < n * off
      ensures Owner(img.w, n, c) < n && Primary(ps[Owner(img.w, n, c)], c)
    {
      BlockInRange(c, off, n);
    }
  }

  /** Column `c < n*off` lies in block `c / off`, which is one of the first `n`. */
  lemma BlockInRange(c: nat, off: nat, n: nat)
    requires off >= 1 && c < n * off
    ensures c / off < n && (c / off) * off <= c < (c / off) * off + off
  {
    var q := c / off;
    BlockOf(c, off);
    if q >= n { MulMonotone(n, q, off); }
  }

  /**
   * A wide image: the shifted columns `c + N*(w/N)` of primary columns `c`
   * are exactly `[N*(w/N), w)`, and they come from the primary columns
   * `[0, w mod N)`.
   */
  lemma WideImageShiftedColumns(ps: seq<Portion>, img: Image, imgBlur: array2<RealPixel>, kernel: Kernel, n: nat)
    requires n >= 1 && img.w > n && IsPartition(ps, img, imgBlur, kernel, n)
    ensures forall i, c :: 0 <= i < n && Shifted(ps[i], n, c)
              ==> n * (img.w / n) <= c < img.w && c - n * (img.w / n) < img.w % n
    ensures forall c: nat :: n * (img.w / n) <= c < img.w ==>
              Owner(img.w, n, c) < n && Shifted(ps[Owner(img.w, n, c)], n, c)
  {
    var off := img.w / n;
    DivBounds(img.w, n);
    WideImageBlocks(ps, img, imgBlur, kernel, n);
    forall c: nat | n * off <= c < img.w
      ensures Owner(img.w, n, c) < n && Shifted(ps[Owner(img.w, n, c)], n, c)
    {
      var d: nat := c - n * off;
      assert d < n;
      MulMonotone(1, off, n);
      BlockInRange(d, off, n);
    }
  }

  /**
   * Each column of the image is visited by exactly one worker, as a primary
   * or a shifted column: worker `i` visits column `c` if and only if `c` is
   * inside the image and `Owner(w, N, c) == i`.
   */
  lemma ColumnOwner(ps: seq<Portion>, img: Image, imgBlur: array2<RealPixel>, kernel: Kernel, n: nat)
    requires n >= 1 && IsPartition(ps, img, imgBlur, kernel, n)
    ensures forall i, c: nat :: 0 <= i < n ==>
              (Primary(ps[i], c) || Shifted(ps[i], n, c) <==> c < img.w && Owner(img.w, n, c) == i)
    ensures forall c: nat :: c < img.w ==> Owner(img.w, n, c) < n
  {
    if img.w <= n {
      NarrowImageColumns(ps, img, imgBlur, kernel, n);
    } else {
      var off := img.w / n;
      WideImageBlocks(ps, img, imgBlur, kernel, n);
      WideImagePrimaryColumns(ps, img, imgBlur, kernel, n);
      WideImageShiftedColumns(ps, img, imgBlur, kernel, n);
      DivBounds(img.w, n);
      forall i, c: nat | 0 <= i < n
        ensures Primary(ps[i], c) || Shifted(ps[i], n, c) <==> c < img.w && Owner(img.w, n, c) == i
      {
        if Shifted(ps[i], n, c) {
          var j := Owner(img.w, n, c);
          assert Shifted(ps[j], n, c);
          assert Primary(ps[i], c - n * off) && Primary(ps[j], c - n * off);
        }
      }
    }
  }

  /** `ColumnOwner` for one worker `k` and one column `c`, argued for that pair alone. */
  lemma WorkerColumn(ps: seq<Portion>, img: Image, imgBlur: array2<RealPixel>, kernel: Kernel, n: nat, k: nat, c: nat)
    requires n >= 1 && IsPartition(ps, img, imgBlur, kernel, n) && k < n
    ensures Primary(ps[k], c) || Shifted(ps[k], n, c) <==> c < img.w && Owner(img.w, n, c) == k
  {
    var p := ps[k];
    assert AssignedTo(p, img, imgBlur, kernel, n, k);
    if img.w > n {
      var off := img.w / n;
      DivBounds(img.w, n);
      WideOffset(img.w, n);
      assert p.x == k * off && p.w == off;
      BlockEnd(k, n, off);
      MulMonotone(1, off, n);
      if c < n * off {
        InBlock(c, off, k);
        assert !Shifted(p, n, c);
      } else if c < img.w {
        InBlock(c - n * off, off, k);
        assert !Primary(p, c);
      } else {
        assert !Primary(p, c) && !Shifted(p, n, c);
      }
    }
  }

  /** Column `c` lies in block `k` of width `off` exactly when `c / off == k`. */
  lemma InBlock(c: nat, off: nat, k: nat)
    requires off >= 1
    ensures k * off <= c < k * off + off <==> c / off == k
  {
    var q := c / off;
    BlockOf(c, off);
    if q < k { BlockEnd(q, k, off); }
    if k < q { BlockEnd(k, q, off); }
  }

  /** Every column of the image has one of the `N` workers as its owner. */
  lemma OwnerInRange(w: nat, n: nat, c: nat)
    requires n >= 1 && c < w
    ensures Owner(w, n, c) < n
  {
    if w > n {
      var off := w / n;
      DivBounds(w, n);
      MulMonotone(1, off, n);
      if c < n * off {
        BlockInRange(c, off, n);
      } else {
        BlockInRange(c - n * off, off, n);
      }
    }
  }
}
