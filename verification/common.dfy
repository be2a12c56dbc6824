/**
 * Small definitions shared by every engine.
 */
module Common {

  function Min(a: nat, b: nat): nat {
    if a <= b then a else b
  }

  function Max(a: nat, b: nat): nat {
    if a <= b then b else a
  }

  /** The outcome of the working-array allocations of one engine call:
      whether malloc of the label array and calloc of the counting bitmap
      return memory.  A failed allocation makes the engine return -1. */
  datatype Malloc = Malloc(labelArray: bool, bitmap: bool)

  /** A pointer that may be NULL. */
  datatype Option<T> = None | Some(value: T)

  /** 2^31 and 2^32, the int and uint32_t ranges. */
  const IntLimit: nat := 0x8000_0000
  const UintLimit: nat := 0x1_0000_0000

  /** The conversion of a uint32_t count to the int an engine returns:
      values from 2^31 on wrap to negative numbers, as they do on the
      two's-complement targets the code is built for. */
  function ToInt(count: nat): (r: int)
    requires count < UintLimit
    ensures -(IntLimit as int) <= r < IntLimit
    ensures r % UintLimit == count
    ensures count < IntLimit ==> r == count
  {
    if count < IntLimit then count else count - UintLimit
  }
}
