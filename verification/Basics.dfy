/** Types and constants that several components share. */
module Basics {

  /** The number of values of a 64-bit word. */
  const WORD := 0x1_0000_0000_0000_0000

  datatype Option<T> = None | Some(value: T)

  /** The character at an index of a nul-terminated string. */
  function At(s: string, i: nat): char { if i < |s| then s[i] else '\0' }
}
