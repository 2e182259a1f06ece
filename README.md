# image_blur: a verified model of the parallel Gaussian blur

`blur.c` blurs an RGB image with a square convolution kernel. It splits the
image into `NUM_THREADS` column portions and has one thread blur each portion.
For each destination pixel, the code:

- sums the kernel weights times the source pixels over the window centred on
  that pixel, skipping the kernel cells that fall outside the image;
- sums the weights it used;
- stores the weighted average.

This project models the whole pipeline in Dafny: the argument check of
`blur_img`, the partition built by `init`, the column walk of each worker
(`blur_portion_thread`), and the per-pixel convolution (`get_sums` and
`blur_pixel`). It proves that the walks of all portions, run one after
another, write every destination pixel of the image exactly once. They write
nothing outside the image, and afterwards every destination pixel holds the
blurred value of its window.

Modules:

- `BlurTypes` (`types.dfy`) holds the records of `blur.h`. The source image
  and the kernel are immutable values. The destination image is an
  `array2<RealPixel>` indexed `[y, x]`, written in place.
- `Convolution` (`convolution.dfy`) holds `get_sums` and `blur_pixel` as loop
  methods. They are proved against the ghost specification `WindowSums`, a
  sum over the `size` by `size` window. Lemmas about that specification cover:
  - a uniform image keeps its colour;
  - a 1x1 kernel is the identity;
  - only the pixels inside the window matter;
  - a positive kernel never gives a zero weight total.
- `Partition` (`partition.dfy`) holds `init` as a loop method. It also holds
  `Owner`, which names the worker that visits each column. Lemmas cover the
  narrow case (`w <= N`) and the wide case (`w > N`).
- `Walk` (`walk.dfy`) holds `blur_portion_thread` as two nested loop methods.
  Each returns a ghost log (`Trace`) of every position it passes to
  `blur_pixel`. Counting lemmas (`Occurrences`) show how often each position
  appears.
- `Blur` (`blur.dfy`) holds `blur_img`: the null check, `init`, and the
  worker loop.

The worker count `NUM_THREADS` is the parameter `n >= 1` throughout.

## Model

| member | source | states |
|---|---|---|
| Convolution.GetSums | blur.c:14-40 | The four accumulators end as the window sums: each of the `size` by `size` kernel cells adds its weight times the source pixel it lands on when that pixel is inside the image, and adds nothing otherwise. |
| Convolution.BlurPixel | blur.c:49-59 | Destination pixel (y, x) becomes the three channel sums divided by the weight total. Every other destination pixel is unchanged. |
| Convolution.UniformImageKeepsColour | blur.c:21-36 | On an image whose pixels are all colour c, every blurred pixel is exactly c, whatever the kernel and however many of its cells fall outside the image. |
| Convolution.IdentityKernel | blur.c:21-36 | With a 1x1 kernel the weight total is the single weight, and each blurred pixel equals its source pixel. |
| Convolution.WindowLocality | blur.c:21-36 | Two images that agree on the in-image pixels of the window around (x, y) give the same sums at (x, y). |
| Convolution.RowsWeightBound | blur.c:25-36 | With positive weights, the weight total of the first rows is at least the weight of each whole row among them. |
| Convolution.PositiveKernelNonDegenerate | blur.c:25-36 | A kernel of size at least 1 with all weights positive gives every pixel of the image a positive weight total, so the division in `blur_pixel` (blur.c line 55) is never by zero. |
| Partition.Init | blur.c:119-135 | The portion list has N entries with the source, destination and kernel set. They are: column i (width 1) for worker i < w of a narrow image; an empty portion at column 0 for the other workers of a narrow image; block i of width w / N, starting at `(w/N)*i`, for a wide image. All portions have y = 0 and the full height. |
| Partition.PortionsInImage | blur.c:119-135 | Every portion's rectangle lies inside the image. |
| Partition.NarrowImageColumns | blur.c:122-127 | For a narrow image, worker i's primary columns are exactly {i} when i < w and empty otherwise, and no shifted column is inside the image. |
| Partition.WideImagePrimaryColumns | blur.c:128-134 | For a wide image, the primary blocks are pairwise disjoint and lie in [0, N*(w/N)). Each column there is in block `Owner(c)`, one of the N workers. |
| Partition.WideImageShiftedColumns | blur.c:72-81 | For a wide image, the in-image shifted columns `i + N*(w/N)` all lie in [N*(w/N), w), and each of those columns is the shifted column of worker `Owner(c)`. |
| Partition.ColumnOwner | blur.c:119-135 | Worker i visits column c, as a primary or shifted column, exactly when c is in the image and `Owner(c) == i`. Every image column has an owner below N. |
| Partition.WorkerColumn | blur.c:119-135 | The same equivalence for one worker and one column. |
| Partition.OwnerInRange | blur.c:119-135 | Every column of the image is owned by one of the N workers. |
| Walk.BlurColumn | blur.c:78-82 | The inner loop over rows blurs, in order, (i, j) and then (i + r, j) when that column is inside the image. Every `blur_pixel` call is in bounds. Exactly those pixels get their blurred values, and all others keep their old values. |
| Walk.BlurPortionThread | blur.c:69-83 | A null portion writes nothing. Otherwise the log is the walk of the portion, and a destination pixel is blurred if it is in the log and unchanged if not. |
| Walk.VisitedIsWritten | blur.c:77-82 | A position is in a portion's log exactly when it is in a row of the portion and in a primary column or an in-image shifted column. |
| Walk.ColumnsTraceCount | blur.c:77-82 | The walk over columns `[x, x+cols)` logs each position at most once. It logs exactly the rows `[y, y+h)` of those columns and of their shifted columns inside the image. |
| Walk.PortionTraceCount | blur.c:69-83 | A portion's walk logs each of its primary and in-image shifted positions exactly once, and nothing else. |
| Walk.PortionTraceOwned | blur.c:69-83 | The walk of portion k from `init` logs position (x, y) once if it is in the image and its column is owned by worker k, and zero times otherwise. |
| Walk.BlurTracePrefix | blur.c:157-169 | The walks of the first k portions together log a position once if it is in the image and owned by a worker below k, and zero times otherwise. |
| Walk.BlurCoverage | blur.c:69-83 | The walks of all N portions together log every position of the image exactly once and no position outside it. |
| Blur.RunWorkers | blur.c:157-169 | Running the N workers one after another produces the logs of all portions in order, and blurs every destination pixel of the image. |
| Blur.RunWorker | blur.c:159-161 | Worker i blurs exactly the destination pixels of the columns it owns and leaves the rest unchanged. |
| Blur.BlurImg | blur.c:147-172 | Returns 1 and changes nothing when any of the three arguments is null. Otherwise it returns 0, every in-image position has been passed to `blur_pixel` exactly once and nothing else has, and every destination pixel holds its blurred value. |

## Left out

- Threads: the workers run one after another, not on `pthread`s. Their
  destination pixels are disjoint, which `Walk.BlurCoverage` proves, so the
  order does not change the result. Failures of `pthread_create` (return 1)
  and of `pthread_join` (return 0 without freeing) are not modelled.
- Floating point: weights and sums are `real`, not `float`, and a destination
  pixel keeps the exact average (`RealPixel`). The narrowing of the average
  to an 8-bit channel on store is not modelled.
- Convolution.BlurPixel: requires a non-zero weight total, where the C code
  divides by zero and stores an undefined result. `Blur.BlurImg` requires this
  for every pixel (`NonDegenerate`). `Convolution.PositiveKernelNonDegenerate`
  shows that every kernel with positive weights meets the requirement.
- Memory: the allocations of `init` and their failure path (return 1) are not
  modelled, and neither are the frees of `blur_img`.
- `get_nprocs` is not modelled. The worker count is the parameter `n`.
- `main.c` (reading the image and kernel files, writing the output) is not
  part of this model.
- Even kernel sizes are not treated specially. The model follows the code
  (`half_kernel = size / 2`) for any size, but the lemmas that need a
  centred window (`IdentityKernel`) use size 1.
- Walk.BlurPortionThread: the C code computes `r` from `portion->w` before
  its null check. The model checks first, since the only caller never passes
  a null portion.
- The C code converts `x - half_kernel` (a `size_t` difference) to `ssize_t`.
  The model takes it as a mathematical integer, which is what the cast makes
  of it for any image under `SSIZE_MAX` columns.
- The source pixels that `blur_pixel` reads come from the portion's `img`.
  `blur_img` sets the thread's `pixels` to `img->pixels`, so they are the same.
