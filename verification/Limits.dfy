/**
  The machine's 64-bit integers and the limits that several functions share (kql_replacements.go and
  kql_strings.go).
 */
module Limits {

  const MIN_INT64: int := -0x8000_0000_0000_0000
  const MAX_INT64: int := 0x7FFF_FFFF_FFFF_FFFF

  /** maxReplacementParts, maxReplacementWork and maxReplacementBytes */
  const MAX_PARTS: int := 65536
  const MAX_WORK: int := 67108864
  const MAX_BYTES: int := 4194304
}
