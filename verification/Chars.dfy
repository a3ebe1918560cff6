/** Null terminated strings. */
module Chars {

  const NUL: char := '\0'

  /** The i-th character of a null terminated string. */
  function At(s: string, i: nat): char { if i < |s| then s[i] else NUL }
}
