/** code_traits<utf32_t> (include/utf_impl.h:270-297): one unit per character,
    the unit being the codepoint itself. */
module Utf32 {
  import opened Unicode

  /** read_length: every unit is a whole character. */
  function ReadLength(u: u32): (n: nat)
    ensures n == 1
  {
    1
  }

  /** write_length: one unit for a scalar value, 0 otherwise. */
  function WriteLength(c: CodePoint): (n: nat)
    ensures n <= 1
    ensures n == 0 <==> !IsScalar(c)
  {
    if c < 0xD800 then 1
    else if c < 0xE000 then 0
    else if c < 0x110000 then 1
    else 0
  }

  /** validate: a range of exactly one unit; its value is checked separately. */
  predicate Validate(s: seq<u32>)
    ensures Validate(s) ==> 1 <= |s| && ReadLength(s[0]) == |s|
  {
    |s| == 1
  }

  /** encode writes the value verbatim, whatever it is. */
  function Encode(c: CodePoint): (r: seq<u32>)
    ensures |r| == 1 && r[0] == c
  {
    [c]
  }

  /** decode reads the unit verbatim. */
  function Decode(s: seq<u32>): (c: CodePoint)
    requires |s| == 1
    ensures Encode(c) == s
  {
    s[0]
  }
}
