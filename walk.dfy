/**
 * `blur_portion_thread` of blur.c: a worker walks the columns `i` of its
 * portion and, for each row `j`, blurs (i, j) and also the shifted pixel
 * (i + N*w, j) when that column is still inside the image. The ghost
 * functions below give the sequence of positions the walk blurs, in
 * order; the lemmas show that the walks of all `N` portions of `init`,
 * one after another, blur every destination pixel exactly once and
 * nothing outside the image.
 */
module Walk {
  import opened BlurTypes
  import opened Convolution
  import opened Partition

  /**
   * A log of the positions passed to `blur_pixel`, most recent last. It is
   * a list of its own rather than a `seq` so that the counting lemmas below
   * unfold only as far as their proofs ask.
   */
  datatype Trace = Start | Then(earlier: Trace, pos: Coord)

  /** `a` followed by `b`. */
  ghost function Concat(a: Trace, b: Trace): Trace {
    match b
    case Start => a
    case Then(b', c) => Then(Concat(a, b'), c)
  }

  /** How often position `e` occurs in `t`. */
  ghost function Occurrences(t: Trace, e: Coord): nat {
    match t
    case Start => 0
    case Then(t', c) => Occurrences(t', e) + (if c == e then 1 else 0)
  }

  /** Blurring (i, j): the pixel itself, then (i + r, j) when that column is inside the image. */
  ghost function CellTrace(i: nat, j: nat, r: nat, imgW: nat): Trace {
    var first := Then(Start, Coord(i, j));
    if i + r < imgW then Then(first, Coord(i + r, j)) else first
  }

  /** The inner loop over the first `rows` rows from `y`, in column `i`. */
  ghost function ColumnTrace(i: nat, y: nat, rows: nat, r: nat, imgW: nat): Trace {
    if rows == 0 then Start
    else Concat(ColumnTrace(i, y, rows - 1, r, imgW), CellTrace(i, y + rows - 1, r, imgW))
  }

  /** The outer loop over the first `cols` columns from `x`, each over rows `[y, y + h)`. */
  ghost function ColumnsTrace(x: nat, cols: nat, y: nat, h: nat, r: nat, imgW: nat): Trace {
    if cols == 0 then Start
    else Concat(ColumnsTrace(x, cols - 1, y, h, r, imgW), ColumnTrace(x + cols - 1, y, h, r, imgW))
  }

  /** The positions the walk of portion `p` blurs, in order, with shift `r = N * p.w`. */
  ghost function PortionTrace(p: Portion, n: nat): Trace {
    ColumnsTrace(p.x, p.w, p.y, p.h, n * p.w, p.img.w)
  }

  /** The positions the walks of `ps` blur when run one after another. */
  ghost function BlurTrace(ps: seq<Portion>, n: nat): Trace {
    if ps == [] then Start else Concat(BlurTrace(ps[..|ps| - 1], n), PortionTrace(ps[|ps| - 1], n))
  }

  /** What the walk of a portion needs: its rectangle inside the image and no zero weight total. */
  ghost predicate WalkReady(p: Portion) {
    p.Valid() && NonDegenerate(p.img, p.kernel) && p.x + p.w <= p.img.w && p.y + p.h <= p.img.h
  }

  // ---------------------------------------------------------------------
  // The walk
  // ---------------------------------------------------------------------

  /**
   * The destination pixels the walk has blurred in column `i` when it is
   * about to blur row `j`: rows `[y, j)` of column `i` and, when it is
   * inside the image, of its shifted column `i + r`.
   */
  ghost predicate ColumnVisited(p: Portion, r: nat, i: nat, j: nat, a: nat, b: nat) {
    p.y <= b < j && (a == i || (a == i + r && a < p.img.w))
  }

  /**
   * The destination pixels the walk of `p` has blurred when it is about to
   * start column `i`: all rows of the primary columns `[x, i)` and of their
   * in-image shifted columns.
   */
  ghost predicate Visited(p: Portion, r: nat, i: nat, a: nat, b: nat) {
    p.y <= b < p.y + p.h && (p.x <= a < i || (p.x + r <= a < i + r && a < p.img.w))
  }

  /**
   * `blur_portion_thread`, with the worker count `NUM_THREADS` as `n`. The
   * ghost result counts how often each position is passed to `blur_pixel`;
   * afterwards each destination pixel holds its blurred value if it was
   * written and its old value otherwise. The C code computes `r` from the
   * portion before its null check; here the check comes first.
   */
  method BlurPortionThread(portion: Option<Portion>, n: nat) returns (ghost writes: Trace)
    requires n >= 1
    requires portion.Some? ==> WalkReady(portion.value)
    modifies if portion.Some? then {portion.value.imgBlur} else {}
    ensures portion.None? ==> writes == Start
    ensures portion.Some? ==> writes == PortionTrace(portion.value, n)
    ensures portion.Some? ==>
              var p := portion.value;
              forall b, a :: 0 <= b < p.imgBlur.Length0 && 0 <= a < p.imgBlur.Length1 ==>
                p.imgBlur[b, a] == if Occurrences(writes, Coord(a, b)) > 0 then Blurred(p.img, p.kernel, a, b) else old(p.imgBlur[b, a])
  {
    writes := Start;
    if portion.None? {
      return;
    }
    var p := portion.value;
    var r := n * p.w;
    MulMonotone(1, n, p.w);
    var i := p.x;
    while i < p.w + p.x
      invariant p.x <= i <= p.x + p.w
      invariant writes == ColumnsTrace(p.x, i - p.x, p.y, p.h, r, p.img.w)
      invariant forall b, a :: 0 <= b < p.imgBlur.Length0 && 0 <= a < p.imgBlur.Length1 ==>
                  p.imgBlur[b, a] == if Visited(p, r, i, a, b) then Blurred(p.img, p.kernel, a, b) else old(p.imgBlur[b, a])
    {
      ghost var column := BlurColumn(p, r, i);
      writes := Concat(writes, column);
      i := i + 1;
    }
    VisitedIsWritten(p, n);
  }

  /** Having finished all columns, the walk has written exactly the positions it visited. */
  lemma VisitedIsWritten(p: Portion, n: nat)
    requires n >= 1
    ensures forall a: nat, b: nat :: Occurrences(PortionTrace(p, n), Coord(a, b)) > 0 <==> Visited(p, n * p.w, p.x + p.w, a, b)
  {
    MulMonotone(1, n, p.w);
    forall a: nat, b: nat
      ensures Occurrences(PortionTrace(p, n), Coord(a, b)) > 0 <==> Visited(p, n * p.w, p.x + p.w, a, b)
    {
      ColumnsTraceCount(p.x, p.w, p.y, p.h, n * p.w, p.img.w, Coord(a, b));
    }
  }

  /**
   * The inner `j` loop of `blur_portion_thread` for column `i`: blurs each
   * row of column `i` and, when it is inside the image, the same row of
   * the shifted column `i + r`.
   */
  method BlurColumn(p: Portion, r: nat, i: nat) returns (ghost writes: Trace)
    requires WalkReady(p) && p.x <= i < p.x + p.w && r >= p.w
    modifies p.imgBlur
    ensures writes == ColumnTrace(i, p.y, p.h, r, p.img.w)
    ensures forall b, a :: 0 <= b < p.imgBlur.Length0 && 0 <= a < p.imgBlur.Length1 ==>
              p.imgBlur[b, a] == if ColumnVisited(p, r, i, p.y + p.h, a, b) then Blurred(p.img, p.kernel, a, b) else old(p.imgBlur[b, a])
  {
    writes := Start;
    var j := p.y;
    while j < p.h + p.y
      invariant p.y <= j <= p.y + p.h
      invariant writes == ColumnTrace(i, p.y, j - p.y, r, p.img.w)
      invariant forall b, a :: 0 <= b < p.imgBlur.Length0 && 0 <= a < p.imgBlur.Length1 ==>
                  p.imgBlur[b, a] == if ColumnVisited(p, r, i, j, a, b) then Blurred(p.img, p.kernel, a, b) else old(p.imgBlur[b, a])
    {
      ghost var before := writes;
      BlurPixel(p, i, j);
      writes := Then(writes, Coord(i, j));
      assert writes == Concat(before, Then(Start, Coord(i, j)));
      if i + r < p.img.w {
        BlurPixel(p, i + r, j);
        writes := Then(writes, Coord(i + r, j));
      }
      assert writes == Concat(before, CellTrace(i, j, r, p.img.w));
      j := j + 1;
    }
  }

  // ---------------------------------------------------------------------
  // What the walks cover
  // ---------------------------------------------------------------------

  /** Occurrences add up over a concatenation. */
  lemma {:induction false} OccurrencesConcat(a: Trace, b: Trace, e: Coord)
    ensures Occurrences(Concat(a, b), e) == Occurrences(a, e) + Occurrences(b, e)
  {
    match b
    case Start =>
    case Then(b', c) => OccurrencesConcat(a, b', e);
  }

  /** Blurring (i, j) passes (i, j) and, when inside the image, (i + r, j) to `blur_pixel`. */
  lemma CellTraceCount(i: nat, j: nat, r: nat, imgW: nat, e: Coord)
    requires r >= 1
    ensures Occurrences(CellTrace(i, j, r, imgW), e) ==
              if e.y == j && (e.x == i || (e.x == i + r && i + r < imgW)) then 1 else 0
  {
    var first := Then(Start, Coord(i, j));
    assert Occurrences(first, e) == if e == Coord(i, j) then 1 else 0;
  }

  /**
   * Column `i` of a walk with a positive shift blurs (i, j') and, when
   * inside the image, (i + r, j') once for each of its rows, and nothing else.
   */
  lemma {:induction false} ColumnTraceCount(i: nat, y: nat, rows: nat, r: nat, imgW: nat, e: Coord)
    requires r >= 1
    ensures Occurrences(ColumnTrace(i, y, rows, r, imgW), e) ==
              if y <= e.y < y + rows && (e.x == i || (e.x == i + r && i + r < imgW)) then 1 else 0
  {
    if rows > 0 {
      ColumnTraceCount(i, y, rows - 1, r, imgW, e);
      CellTraceCount(i, y + rows - 1, r, imgW, e);
      OccurrencesConcat(ColumnTrace(i, y, rows - 1, r, imgW), CellTrace(i, y + rows - 1, r, imgW), e);
    }
  }

  /**
   * As long as the shift `r` is at least `cols`, the walk over `cols`
   * columns blurs each position of the primary columns `[x, x + cols)` and
   * of the in-image shifted columns `[x + r, x + cols + r)`, on rows
   * `[y, y + h)`, exactly once, and nothing else.
   */
  lemma {:induction false} ColumnsTraceCount(x: nat, cols: nat, y: nat, h: nat, r: nat, imgW: nat, e: Coord)
    requires r >= cols
    ensures Occurrences(ColumnsTrace(x, cols, y, h, r, imgW), e) ==
              if y <= e.y < y + h && (x <= e.x < x + cols || (x + r <= e.x < x + cols + r && e.x < imgW)) then 1 else 0
  {
    if cols > 0 {
      var before, last := ColumnsTrace(x, cols - 1, y, h, r, imgW), ColumnTrace(x + cols - 1, y, h, r, imgW);
      ColumnsTraceCount(x, cols - 1, y, h, r, imgW, e);
      ColumnTraceCount(x + cols - 1, y, h, r, imgW, e);
      OccurrencesConcat(before, last, e);
      NextColumnCount(x, cols, y, h, r, imgW, e, Occurrences(before, e), Occurrences(last, e));
    }
  }

  /** Adding column `x + cols - 1` to the first `cols - 1` columns: the counts add to at most one. */
  lemma NextColumnCount(x: nat, cols: nat, y: nat, h: nat, r: nat, imgW: nat, e: Coord, before: nat, last: nat)
    requires r >= cols > 0
    requires before == if y <= e.y < y + h && (x <= e.x < x + cols - 1 || (x + r <= e.x < x + cols - 1 + r && e.x < imgW)) then 1 else 0
    requires last == if y <= e.y < y + h && (e.x == x + cols - 1 || (e.x == x + cols - 1 + r && x + cols - 1 + r < imgW)) then 1 else 0
    ensures before + last == if y <= e.y < y + h && (x <= e.x < x + cols || (x + r <= e.x < x + cols + r && e.x < imgW)) then 1 else 0
  {
  }

  /** The walk of a portion blurs each position of its rows crossed with its primary and shifted columns once. */
  lemma PortionTraceCount(p: Portion, n: nat, e: Coord)
    requires n >= 1
    ensures Occurrences(PortionTrace(p, n), e) == if p.y <= e.y < p.y + p.h && (Primary(p, e.x) || Shifted(p, n, e.x)) then 1 else 0
  {
    MulMonotone(1, n, p.w);
    ColumnsTraceCount(p.x, p.w, p.y, p.h, n * p.w, p.img.w, e);
  }

  /**
   * The walk of portion `k` of `init` blurs exactly the pixels of the
   * image in the columns worker `k` owns, each once.
   */
  lemma PortionTraceOwned(ps: seq<Portion>, img: Image, imgBlur: array2<RealPixel>, kernel: Kernel, n: nat, k: nat, e: Coord)
    requires n >= 1 && IsPartition(ps, img, imgBlur, kernel, n) && k < n
    ensures Occurrences(PortionTrace(ps[k], n), e) == if e.x < img.w && e.y < img.h && Owner(img.w, n, e.x) == k then 1 else 0
  {
    var p := ps[k];
    assert AssignedTo(p, img, imgBlur, kernel, n, k);
    assert p.y == 0 && p.h == img.h;
    PortionTraceCount(p, n, e);
    WorkerColumn(ps, img, imgBlur, kernel, n, k, e.x);
  }

  /**
   * The walks of the first `k` portions of `init` blur exactly the pixels
   * of the image whose column's owner is below `k`, each once.
   */
  lemma {:induction false} BlurTracePrefix(ps: seq<Portion>, img: Image, imgBlur: array2<RealPixel>, kernel: Kernel, n: nat, k: nat, e: Coord)
    requires n >= 1 && IsPartition(ps, img, imgBlur, kernel, n) && k <= n
    ensures Occurrences(BlurTrace(ps[..k], n), e) == if e.x < img.w && e.y < img.h && Owner(img.w, n, e.x) < k then 1 else 0
  {
    if k > 0 {
      BlurTracePrefix(ps, img, imgBlur, kernel, n, k - 1, e);
      assert ps[..k][..k - 1] == ps[..k - 1];
      PortionTraceOwned(ps, img, imgBlur, kernel, n, k - 1, e);
      OccurrencesConcat(BlurTrace(ps[..k - 1], n), PortionTrace(ps[k - 1], n), e);
    }
  }

  /**
   * Coverage: run one after another, the walks of the `N` portions of
   * `init` blur every destination pixel in `[0, w) x [0, h)` exactly once
   * and nothing outside it.
   */
  lemma BlurCoverage(ps: seq<Portion>, img: Image, imgBlur: array2<RealPixel>, kernel: Kernel, n: nat)
    requires n >= 1 && IsPartition(ps, img, imgBlur, kernel, n)
    ensures forall e :: Occurrences(BlurTrace(ps, n), e) == if e.x < img.w && e.y < img.h then 1 else 0
  {
    assert ps[..n] == ps;
    forall e
      ensures Occurrences(BlurTrace(ps, n), e) == if e.x < img.w && e.y < img.h then 1 else 0
    {
      BlurTracePrefix(ps, img, imgBlur, kernel, n, n, e);
      if e.x < img.w {
        OwnerInRange(img.w, n, e.x);
      }
    }
  }
}
