/**
 * Go's floating-point and complex element types, carried as opaque values:
 * nothing in the model computes with a float, it only moves them around.
 */
module Numbers {
  /** A float64, never inspected. */
  type Float64(0)

  /** A float32, never inspected. */
  type Float32(0)

  /** complex(re, im). */
  datatype Complex<F> = Complex(re: F, im: F)

  type Complex128 = Complex<Float64>

  type Complex64 = Complex<Float32>
}
