/**
 * `blur_img` of blur.c: rejects missing arguments, partitions the image
 * with `init` and runs the walk of every portion. The workers are run one
 * after another instead of on threads; their destination regions are
 * disjoint (see Walk.BlurCoverage), so the order does not matter.
 */
module Blur {
  import opened BlurTypes
  import opened Convolution
  import opened Partition
  import opened Walk

  /** What blur_img needs of its three (non-null) arguments. */
  ghost predicate Ready(imgBlur: array2<RealPixel>, img: Image, kernel: Kernel) {
    img.Valid() && kernel.Valid() && imgBlur.Length0 == img.h && imgBlur.Length1 == img.w &&
    NonDegenerate(img, kernel)
  }

  /**
   * `blur_img` with `NUM_THREADS` as `n`. Returns 1 and changes nothing if
   * any argument is null; otherwise returns 0 with every destination pixel
   * blurred. The ghost result lists every position passed to `blur_pixel`:
   * each pixel of the image exactly once and nothing else.
   */
  method BlurImg(imgBlur: Option<array2<RealPixel>>, img: Option<Image>, kernel: Option<Kernel>, n: nat)
    returns (status: int, ghost writes: Trace)
    requires n >= 1
    requires imgBlur.Some? && img.Some? && kernel.Some? ==> Ready(imgBlur.value, img.value, kernel.value)
    modifies if imgBlur.Some? then {imgBlur.value} else {}
    ensures status == (if imgBlur.None? || img.None? || kernel.None? then 1 else 0)
    ensures status == 1 ==> writes == Start && (imgBlur.Some? ==> unchanged(imgBlur.value))
    ensures status == 0 ==> forall e :: Occurrences(writes, e) == if e.x < img.value.w && e.y < img.value.h then 1 else 0
    ensures status == 0 ==>
              forall b, a :: 0 <= b < img.value.h && 0 <= a < img.value.w ==>
                imgBlur.value[b, a] == Blurred(img.value, kernel.value, a, b)
  {
    if imgBlur.None? || img.None? || kernel.None? {
      return 1, Start;
    }
    var dst, src, k := imgBlur.value, img.value, kernel.value;
    var portion := Init(src, dst, k, n);
    writes := RunWorkers(portion, src, dst, k, n);
    BlurCoverage(portion, src, dst, k, n);
    status := 0;
  }

  /**
   * The thread create and join loops of `blur_img`: worker `i` walks
   * portion `i`. Each worker runs to completion before the next starts.
   * Afterwards the positions passed to `blur_pixel` are the walks of all
   * portions in order, and every destination pixel is blurred.
   */
  method RunWorkers(portion: seq<Portion>, src: Image, dst: array2<RealPixel>, k: Kernel, n: nat)
    returns (ghost writes: Trace)
    requires n >= 1 && IsPartition(portion, src, dst, k, n) && Ready(dst, src, k)
    modifies dst
    ensures writes == BlurTrace(portion, n)
    ensures forall b, a :: 0 <= b < src.h && 0 <= a < src.w ==> dst[b, a] == Blurred(src, k, a, b)
  {
    writes := Start;
    var i := 0;
    while i < n
      invariant i <= n
      invariant writes == BlurTrace(portion[..i], n)
      invariant forall b, a :: 0 <= b < dst.Length0 && 0 <= a < dst.Length1 ==>
                  dst[b, a] == if Owner(src.w, n, a) < i then Blurred(src, k, a, b) else old(dst[b, a])
    {
      ghost var w := RunWorker(portion, src, dst, k, n, i);
      assert portion[..i + 1][..i] == portion[..i];
      writes := Concat(writes, w);
      i := i + 1;
    }
    assert portion[..n] == portion;
    forall b, a | 0 <= b < src.h && 0 <= a < src.w
      ensures dst[b, a] == Blurred(src, k, a, b)
    {
      OwnerInRange(src.w, n, a);
    }
  }

  /**
   * One iteration of the create/join loops: worker `i` walks its portion,
   * which blurs exactly the destination pixels of the columns it owns.
   */
  method RunWorker(portion: seq<Portion>, src: Image, dst: array2<RealPixel>, k: Kernel, n: nat, i: nat)
    returns (ghost w: Trace)
    requires n >= 1 && IsPartition(portion, src, dst, k, n) && Ready(dst, src, k) && i < n
    modifies dst
    ensures w == PortionTrace(portion[i], n)
    ensures forall b, a :: 0 <= b < dst.Length0 && 0 <= a < dst.Length1 ==>
              dst[b, a] == if Owner(src.w, n, a) == i then Blurred(src, k, a, b) else old(dst[b, a])
  {
    PortionInImage(portion, src, dst, k, n, i);
    w := BlurPortionThread(Some(portion[i]), n);
    forall b, a | 0 <= b < dst.Length0 && 0 <= a < dst.Length1
      ensures dst[b, a] == if Owner(src.w, n, a) == i then Blurred(src, k, a, b) else old(dst[b, a])
    {
      PortionTraceOwned(portion, src, dst, k, n, i, Coord(a, b));
    }
  }
}
