/** Scalar values and the closed set of encodings (include/utf_impl.h). */
module Unicode {

  /** A 32-bit unsigned integer: the width of `char32_t`, which carries every
      decoded codepoint and every UTF-32 code unit. */
  type u32 = x: int | 0 <= x < 0x1_0000_0000

  /** The value a decoder produces; it is a scalar value only when IsScalar says so. */
  type CodePoint = u32

  /** The three encodings a buffer can carry. They stand for the tag types
      utf8_t, utf16_t and utf32_t that select a code_traits specialisation. */
  datatype Encoding = UTF8 | UTF16 | UTF32

  /** validate_codepoint: a Unicode scalar value, that is neither a surrogate
      nor beyond the last plane. */
  function IsScalar(c: CodePoint): (ok: bool)
    ensures ok <==> c < 0xD800 || 0xE000 <= c < 0x110000
  {
    if c < 0xD800 then true
    else if c < 0xE000 then false
    else if c < 0x110000 then true
    else false
  }
}
