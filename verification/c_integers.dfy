/** Limits of the C integer types on the 64-bit platforms prongC is built for. */
module CIntegers {

  const UINT_MAX: nat := 0xffff_ffff

  const SIZE_MAX: nat := 0xffff_ffff_ffff_ffff
}
