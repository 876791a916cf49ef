/** The code_traits operations selected by a buffer's encoding. The source picks
    a specialisation from the code-unit type at compile time; here the choice is
    a match on the closed Encoding datatype. Units of every encoding are
    carried as 32-bit values; the buffers only ever hold values below Bound(e)
    (Fits), which every encoder's output respects, and the read-side
    functions are defined on any value so that their callers need not carry
    that bound around. */
module Codec {
  import opened Unicode
  import Utf8
  import Utf16
  import Utf32

  /** A code unit of any of the three encodings. */
  type Unit = u32

  /** One more than the largest unit of an encoding. */
  function Bound(e: Encoding): nat {
    match e
    case UTF8 => 0x100
    case UTF16 => 0x1_0000
    case UTF32 => 0x1_0000_0000
  }

  /** sizeof(codeunit_type): the bytes in one unit. */
  function Width(e: Encoding): (w: nat)
    ensures Bound(e) == Pow256(w)
  {
    match e
    case UTF8 => 1
    case UTF16 => 2
    case UTF32 => 4
  }

  /** 256 to the power k. */
  function Pow256(k: nat): nat {
    if k == 0 then 1 else 0x100 * Pow256(k - 1)
  }

  /** Every unit of `s` is a unit of encoding `e`. */
  predicate Fits(e: Encoding, s: seq<Unit>) {
    forall i :: 0 <= i < |s| ==> s[i] < Bound(e)
  }

  /** read_length of the encoding. */
  function ReadLength(e: Encoding, u: Unit): (n: nat)
    ensures 1 <= n <= 4
  {
    match e
    case UTF8 => Utf8.ReadLength(u)
    case UTF16 => Utf16.ReadLength(u)
    case UTF32 => Utf32.ReadLength(u)
  }

  /** write_length of the encoding. */
  function WriteLength(e: Encoding, c: CodePoint): (n: nat)
    ensures n <= 4
    ensures n == 0 <==> !IsScalar(c)
  {
    match e
    case UTF8 => Utf8.WriteLength(c)
    case UTF16 => Utf16.WriteLength(c)
    case UTF32 => Utf32.WriteLength(c)
  }

  /** validate of the encoding, on the units of one character. */
  predicate Validate(e: Encoding, s: seq<Unit>)
    ensures Validate(e, s) ==> 1 <= |s| && ReadLength(e, s[0]) == |s|
  {
    match e
    case UTF8 => Utf8.WellShaped(s)
    case UTF16 => Utf16.Validate(s)
    case UTF32 => Utf32.Validate(s)
  }

  /** decode of the encoding, on exactly the units read_length announces. */
  function Decode(e: Encoding, s: seq<Unit>): (c: CodePoint)
    requires 1 <= |s| && |s| == ReadLength(e, s[0])
  {
    match e
    case UTF8 => Utf8.Decode(s)
    case UTF16 => Utf16.Decode(s)
    case UTF32 => Utf32.Decode(s)
  }

  /** In every encoding a one-unit character decodes to its unit. */
  lemma DecodeUnit(e: Encoding, u: Unit)
    requires ReadLength(e, u) == 1
    ensures Decode(e, [u]) == u
  {
  }

  /** When encode is defined: the UTF-8 and UTF-16 encoders have undefined
      behaviour for a value write_length rejects; the UTF-32 one copies any value. */
  predicate Encodable(e: Encoding, c: CodePoint) {
    e == UTF32 || WriteLength(e, c) != 0
  }

  /** The units encode writes. */
  function Encode(e: Encoding, c: CodePoint): (r: seq<Unit>)
    requires Encodable(e, c)
    ensures Fits(e, r) && 1 <= |r| && ReadLength(e, r[0]) == |r|
    ensures IsScalar(c) ==> |r| == WriteLength(e, c)
  {
    match e
    case UTF8 => Utf8.Encode(c)
    case UTF16 => Utf16.Encode(c)
    case UTF32 => Utf32.Encode(c)
  }

  /** encode through an output cursor: the units of `c` are appended to `dest`. */
  method EncodeTo(e: Encoding, c: CodePoint, dest: seq<Unit>) returns (out: seq<Unit>)
    requires Encodable(e, c)
    ensures out == dest + Encode(e, c)
  {
    match e
    case UTF8 =>
      var bytes := Utf8.EncodeInto(c);
      out := dest + bytes;
    case UTF16 =>
      out := dest + Utf16.Encode(c);
    case UTF32 =>
      out := dest + [c];
  }

  /** decode of the units at the front of a buffer: the loop of the UTF-8 decoder,
      the expressions of the other two. */
  method DecodeUnits(e: Encoding, s: seq<Unit>) returns (c: CodePoint)
    requires 1 <= |s| && |s| == ReadLength(e, s[0])
    ensures c == Decode(e, s)
  {
    match e
    case UTF8 =>
      c := Utf8.DecodeUnits(s);
    case UTF16 =>
      c := Utf16.Decode(s);
    case UTF32 =>
      c := s[0];
  }

  /** validate on the units of one character: the loop of the UTF-8 check, the
      expressions of the other two. */
  method ValidateUnits(e: Encoding, s: seq<Unit>) returns (ok: bool)
    ensures ok == Validate(e, s)
  {
    match e
    case UTF8 =>
      ok := Utf8.Validate(s);
    case UTF16 =>
      ok := Utf16.Validate(s);
    case UTF32 =>
      ok := |s| == 1;
  }

  /** Every scalar value can be encoded, and decode inverts encode, in every encoding. */
  lemma DecodeEncode(e: Encoding, c: CodePoint)
    requires IsScalar(c)
    ensures Encodable(e, c) && Decode(e, Encode(e, c)) == c
  {
    match e
    case UTF8 => Utf8.DecodeEncode(c);
    case UTF16 => Utf16.DecodeEncode(c);
    case UTF32 =>
  }

  /** validate accepts the encoding of a scalar value unless the encoding is
      UTF-8 and the value lies in U+0800..U+0FFF. */
  lemma EncodeValidates(e: Encoding, c: CodePoint)
    requires IsScalar(c)
    ensures Validate(e, Encode(e, c)) <==> !(e == UTF8 && 0x800 <= c < 0x1000)
  {
    match e
    case UTF8 => Utf8.EncodeWellShaped(c);
    case UTF16 => Utf16.EncodeValidates(c);
    case UTF32 =>
  }

  /** A character that passes validate and decodes to a scalar value is
      exactly the encoding of that value. */
  lemma ValidIsCanonical(e: Encoding, s: seq<Unit>)
    requires Fits(e, s) && 1 <= |s| && |s| == ReadLength(e, s[0])
    requires Validate(e, s) && IsScalar(Decode(e, s))
    ensures Encode(e, Decode(e, s)) == s
  {
    match e
    case UTF8 => Utf8.WellShapedIsCanonical(s);
    case UTF16 => Utf16.ValidIsCanonical(s);
    case UTF32 =>
  }
}
