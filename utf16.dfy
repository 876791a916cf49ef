/** code_traits<utf16_t> (include/utf_impl.h:190-268), surrogate pairs as in
    sections 2.1 and 2.2 of RFC 2781. Units are native-endian 16-bit values. */
module Utf16 {
  import opened Unicode

  /** A UTF-16 code unit. */
  type Word = x: u32 | x < 0x10000

  /** read_length: a high surrogate starts a two-unit character, every other unit is one.
      (The source's last test, `c < 0x010000`, returns 1 on both sides.) */
  function ReadLength(w: u32): (n: nat)
    ensures n == 1 || n == 2
  {
    if w < 0xD800 then 1
    else if w < 0xDC00 then 2
    else 1
  }

  /** write_length: one unit in the basic plane, two beyond it, 0 when `c` is no scalar value. */
  function WriteLength(c: CodePoint): (n: nat)
    ensures n <= 2
    ensures n == 0 <==> !IsScalar(c)
    ensures n == 2 <==> 0x10000 <= c < 0x110000
  {
    if c < 0xD800 then 1
    else if c < 0xE000 then 0
    else if c < 0x010000 then 1
    else if c < 0x110000 then 2
    else 0
  }

  /** validate: a single unit outside the surrogate block, or a high surrogate
      followed by a low surrogate; nothing else. */
  predicate Validate(s: seq<u32>)
    ensures Validate(s) ==> 1 <= |s| && ReadLength(s[0]) == |s|
  {
    if |s| == 1 then !(0xD800 <= s[0] < 0xE000)
    else if |s| == 2 then 0xD800 <= s[0] < 0xDC00 && 0xDC00 <= s[1] < 0xE000
    else false
  }

  /** The units encode writes: `c` itself, or for a supplementary character the
      high ten bits of c - 0x10000 over 0xD800 and the low ten over 0xDC00. */
  function Encode(c: CodePoint): (r: seq<Word>)
    requires WriteLength(c) != 0
    ensures |r| == WriteLength(c) && ReadLength(r[0]) == |r|
    ensures |r| == 1 ==> r[0] == c
    ensures |r| == 2 ==> r[0] == (c - 0x10000) / 0x400 + 0xD800 && r[1] == (c - 0x10000) % 0x400 + 0xDC00
  {
    if WriteLength(c) == 1 then [c]
    else
      var t := c - 0x10000;
      [t / 0x400 + 0xD800, t % 0x400 + 0xDC00]
  }

  /** The value decode computes: a one-unit character is its unit; a pair
      combines ((lead - 0xD800) << 10) + (trail - 0xDC00) + 0x10000, with the
      trail narrowed to 16 bits as its char16_t local is. The source's 32-bit
      sum wraps in between when trail < 0xDC00, but its final value is this
      exact integer, which always lies in 0x2400..0x111FFF. */
  function Decode(s: seq<u32>): (c: CodePoint)
    requires 1 <= |s| && |s| == ReadLength(s[0])
    ensures |s| == 1 ==> c == s[0]
    ensures |s| == 2 ==> 0x2400 <= c < 0x11_2000
    ensures |s| == 2 && 0xDC00 <= s[1] < 0xE000 ==> 0x10000 <= c < 0x110000
  {
    if |s| == 1 then s[0]
    else
      var lead: int, trail: int := s[0], s[1] % 0x1_0000;
      (lead - 0xD800) * 0x400 + (trail - 0xDC00) + 0x10000
  }

  /** decode inverts encode on every scalar value. */
  lemma DecodeEncode(c: CodePoint)
    requires IsScalar(c)
    ensures Decode(Encode(c)) == c
  {
    if WriteLength(c) == 2 {
      var t := c - 0x10000;
      assert t == (t / 0x400) * 0x400 + t % 0x400;
    }
  }

  /** validate accepts the encoding of every scalar value. */
  lemma EncodeValidates(c: CodePoint)
    requires IsScalar(c)
    ensures Validate(Encode(c))
  {
    if WriteLength(c) == 2 {
      var t := c - 0x10000;
      assert t / 0x400 < 0x400;
    }
  }

  /** Whatever validate accepts decodes to a scalar value whose encoding it is. */
  lemma ValidIsCanonical(s: seq<Word>)
    requires 1 <= |s| && |s| == ReadLength(s[0]) && Validate(s)
    ensures IsScalar(Decode(s)) && WriteLength(Decode(s)) == |s| && Encode(Decode(s)) == s
  {
    if |s| == 2 {
      var lead: int, trail: int := s[0], s[1];
      var hi, lo := lead - 0xD800, trail - 0xDC00;
      var t := hi * 0x400 + lo;
      assert Decode(s) == t + 0x10000;
      assert t / 0x400 == hi && t % 0x400 == lo;
    }
  }

  /** A unit starts a two-unit character exactly when it is a high surrogate. */
  lemma ReadLengthPair(w: Word)
    ensures ReadLength(w) == 2 <==> 0xD800 <= w < 0xDC00
  {
  }
}
