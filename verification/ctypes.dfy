/**
  The fixed-width C integer types the driver uses, as ranges of Dafny's
  unbounded `int`. Nothing in the modelled code can overflow them (the
  validators' loop counter stays at most `size`), so a range is all the model
  needs: no wrap-around is ever taken.
 */
module CTypes {

  /** `int16_t`: the status code type of the component calls and of `EcoMain`. */
  type Int16 = x: int | -0x8000 <= x < 0x8000

  /** `int32_t`, and the C `int` the validators take their `size` in. */
  type Int32 = x: int | -0x8000_0000 <= x < 0x8000_0000

  /** `int64_t`. */
  type Int64 = x: int | -0x8000_0000_0000_0000 <= x < 0x8000_0000_0000_0000
}
