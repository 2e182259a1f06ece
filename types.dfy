/**
 * The shapes of blur.h: pixels, images, kernels and the work portion a
 * worker is handed. The source image and the kernel are only ever read
 * during a blur, so they are values here; the destination image is written
 * pixel by pixel and is a two-dimensional array indexed [row, column],
 * like the C `pixels[y][x]`.
 */
module BlurTypes {

  datatype Option<+T> = None | Some(value: T)

  /** One 8-bit colour channel (`uint8_t`). */
  type Channel = c: int | 0 <= c < 256

  /** `pixel_t`: three independent 8-bit channels. */
  datatype Pixel = Pixel(r: Channel, g: Channel, b: Channel)

  /**
   * A destination pixel as the blur computes it: the three channel averages
   * before they are narrowed back to 8 bits.
   */
  datatype RealPixel = RealPixel(r: real, g: real, b: real)

  /** `img_t`: width, height and a row-major grid `pixels[y][x]`. */
  datatype Image = Image(w: nat, h: nat, pixels: seq<seq<Pixel>>) {
    ghost predicate Valid() {
      |pixels| == h && forall y :: 0 <= y < |pixels| ==> |pixels[y]| == w
    }
  }

  /** `kernel_t`: a square `size` by `size` matrix of weights, `matrix[k_y][k_x]`. */
  datatype Kernel = Kernel(size: nat, matrix: seq<seq<real>>) {
    ghost predicate Valid() {
      |matrix| == size && forall ky :: 0 <= ky < |matrix| ==> |matrix[ky]| == size
    }
  }

  /**
   * `blur_portion_t`: the source image, the destination image, the
   * rectangle (x, y, w, h) of destination pixels this portion produces,
   * and the kernel.
   */
  datatype Portion = Portion(img: Image, imgBlur: array2<RealPixel>,
                             x: nat, y: nat, w: nat, h: nat, kernel: Kernel)
  {
    /** The source and kernel are well formed and the destination has the source's dimensions. */
    ghost predicate Valid() {
      img.Valid() && kernel.Valid() && imgBlur.Length0 == img.h && imgBlur.Length1 == img.w
    }
  }

  /** A destination position: column `x`, row `y`. */
  datatype Coord = Coord(x: nat, y: nat)
}
