/** The values of `constants.rs`, and the `f32::MAX` sentinel of the best-two fold. */
module Constants {
  /** The horizontal field of view, in radians. */
  const Fov: real := 0.8

  /** The ratio of height to width of a terminal character cell. */
  const HeightWidthRatio: real := 2.0

  const Height: int := 100
  const Width: int := 360

  /** `MAX_ITERATIONS`; no code reads it, so the march is left without a cap. */
  const MaxIterations: nat := 275

  /** `f32::MAX`, `(2 - 2^-23) * 2^127`, written out exactly. */
  const MaxF32: real := 340282346638528859811704183484516925440.0
}
