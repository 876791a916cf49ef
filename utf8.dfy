/** code_traits<utf8_t> (include/utf_impl.h:66-188), bit layout of section 3 of RFC 3629.

    The source works with bit masks on bytes; here they are written as the
    equivalent arithmetic on 0..255 (MaskTests proves the tests equivalent):
      (b & 0x80) == 0x00  is  b < 0x80
      (b & 0xE0) == 0xC0  is  0xC0 <= b < 0xE0
      (b & 0xF0) == 0xE0  is  0xE0 <= b < 0xF0
      (b & 0xF8) == 0xF0  is  0xF0 <= b < 0xF8
      (b & 0xC0) == 0x80  is  0x80 <= b < 0xC0
      b & 0x3F is b % 0x40, b & 0x1F is b % 0x20, c >> 6 is c / 0x40,
    and `|` of a marker and bits that do not overlap it is `+`.
    The read-side functions take any 32-bit value; the source only ever
    passes them bytes. */
module Utf8 {
  import opened Unicode

  /** A UTF-8 code unit, read as an unsigned byte. */
  type Byte = x: u32 | x < 0x100

  /** read_length: the number of bytes of the character whose lead byte is `b`;
      a byte that is no lead byte counts as a one-byte character. */
  function ReadLength(b: u32): (n: nat)
    ensures 1 <= n <= 4
  {
    if b < 0x80 then 1
    else if 0xC0 <= b < 0xE0 then 2
    else if 0xE0 <= b < 0xF0 then 3
    else if 0xF0 <= b < 0xF8 then 4
    else 1
  }

  /** write_length: the number of bytes that encode `c`, or 0 when `c` is no scalar value. */
  function WriteLength(c: CodePoint): (n: nat)
    ensures n <= 4
    ensures n == 0 <==> !IsScalar(c)
    ensures n == 1 <==> c < 0x80
    ensures n == 2 <==> 0x80 <= c < 0x800
    ensures n == 3 <==> 0x800 <= c < 0xD800 || 0xE000 <= c < 0x10000
    ensures n == 4 <==> 0x10000 <= c < 0x110000
  {
    if c <= 0x7F then 1
    else if c < 0x0800 then 2
    else if c < 0xD800 then 3
    else if c < 0xE000 then 0
    else if c < 0x010000 then 3
    else if c < 0x110000 then 4
    else 0
  }

  /** A byte of the form 10xxxxxx. */
  predicate IsContinuation(b: u32) {
    0x80 <= b < 0xC0
  }

  /** The lead-byte pattern validate demands for a sequence of `len` bytes (its first switch). */
  predicate LeadFits(lead: u32, len: nat) {
    match len
    case 1 => lead < 0x80
    case 2 => 0xC0 <= lead < 0xE0
    case 3 => 0xE0 <= lead < 0xF0
    case 4 => 0xF0 <= lead < 0xF8
    case _ => false
  }

  /** The forms validate refuses as overlong (its second switch). The three-byte
      case refuses every lead 0xE0, not only the overlong E0 80..9F xx. */
  predicate Overlong(s: seq<u32>)
    requires |s| >= 1
  {
    || (|s| == 2 && s[0] <= 0xC1)
    || (|s| == 3 && s[0] == 0xE0)
    || (|s| == 4 && s[0] == 0xF0 && s[1] < 0x90)
  }

  /** The byte sequences validate accepts. */
  predicate WellShaped(s: seq<u32>)
    ensures WellShaped(s) ==> 1 <= |s| && ReadLength(s[0]) == |s|
  {
    && 1 <= |s| <= 4
    && LeadFits(s[0], |s|)
    && (forall i :: 1 <= i < |s| ==> IsContinuation(s[i]))
    && !Overlong(s)
  }

  /** validate: the shape check of one character's bytes, continuation bytes checked in a loop. */
  method Validate(s: seq<u32>) returns (ok: bool)
    ensures ok == WellShaped(s)
  {
    var len := |s|;
    if len < 1 || len > 4 || !LeadFits(s[0], len) {
      return false;
    }
    var i := 1;
    while i < len
      invariant 1 <= i <= len
      invariant forall k :: 1 <= k < i ==> IsContinuation(s[k])
    {
      if !IsContinuation(s[i]) {
        return false;
      }
      i := i + 1;
    }
    ok := !Overlong(s);
  }

  /** The bytes encode writes for `c`: continuation bytes carry six bits each,
      the lead byte the remaining bits under the marker 0xC0, 0xE0 or 0xF0. */
  function Encode(c: CodePoint): (r: seq<Byte>)
    requires WriteLength(c) != 0
    ensures |r| == WriteLength(c)
  {
    var n := WriteLength(c);
    if n == 1 then [c]
    else if n == 2 then [0xC0 + c / 0x40, 0x80 + c % 0x40]
    else if n == 3 then [0xE0 + c / 0x40 / 0x40, 0x80 + c / 0x40 % 0x40, 0x80 + c % 0x40]
    else [0xF0 + c / 0x40 / 0x40 / 0x40, 0x80 + c / 0x40 / 0x40 % 0x40,
          0x80 + c / 0x40 % 0x40, 0x80 + c % 0x40]
  }

  /** encode's output has the shape of section 3 of RFC 3629: a lead byte
      whose marker announces the length, then continuation bytes `10xxxxxx`. */
  lemma EncodeShape(c: CodePoint)
    requires WriteLength(c) != 0
    ensures var r := Encode(c);
      && ReadLength(r[0]) == |r| && LeadFits(r[0], |r|)
      && forall i :: 1 <= i < |r| ==> IsContinuation(r[i])
  {
  }

  /** `c` shifted right by 6 * k bits. */
  function Shifted(c: nat, k: nat): nat {
    if k == 0 then c else Shifted(c, k - 1) / 0x40
  }

  /** The marker encode ORs into a lead byte of a character of `len` bytes. */
  function Marker(len: nat): nat {
    if len == 2 then 0xC0 else if len == 3 then 0xE0 else if len == 4 then 0xF0 else 0
  }

  /** Encode byte by byte, in the terms encode computes them: byte k carries
      the bits of `c` shifted right by 6 * (len - 1 - k). */
  lemma EncodeBytes(c: CodePoint)
    requires WriteLength(c) != 0
    ensures var r := Encode(c);
      && r[0] == Marker(|r|) + Shifted(c, |r| - 1)
      && forall k :: 1 <= k < |r| ==> r[k] == 0x80 + Shifted(c, |r| - 1 - k) % 0x40
  {
    assert Shifted(c, 1) == c / 0x40;
    assert Shifted(c, 2) == c / 0x40 / 0x40;
    assert Shifted(c, 3) == c / 0x40 / 0x40 / 0x40;
  }

  /** encode: fills a four-byte scratch array from the last byte down, shifting
      `c` six bits per step, then places the lead byte and copies the bytes out
      through the output cursor. */
  method EncodeInto(c: CodePoint) returns (r: seq<Byte>)
    requires WriteLength(c) != 0
    ensures r == Encode(c)
  {
    var len := WriteLength(c);
    var res := new Byte[4](_ => 0);
    var v: nat := c;
    var i := len;
    while i != 1
      invariant 1 <= i <= len
      invariant v == Shifted(c, len - i)
      invariant forall k :: i <= k < len ==> res[k] == 0x80 + Shifted(c, len - 1 - k) % 0x40
    {
      res[i - 1] := v % 0x40 + 0x80;
      v := v / 0x40;
      i := i - 1;
    }
    EncodeBytes(c);
    // The bits left in `v` fit under the marker, so `v | marker` is `v + marker`.
    if len == 1 {
      res[0] := v;
    } else if len == 2 {
      res[0] := v + 0xC0;
    } else if len == 3 {
      res[0] := v + 0xE0;
    } else {
      res[0] := v + 0xF0;
    }
    r := [];
    var j := 0;
    while j < len
      invariant 0 <= j <= len
      invariant r == res[..j]
    {
      r := r + [res[j]];
      j := j + 1;
    }
    assert forall k :: 0 <= k < len ==> r[k] == Encode(c)[k];
  }

  /** The bits the lead byte contributes, masked by the character's length. */
  function LeadBits(lead: u32, len: nat): (b: nat)
    ensures b <= lead
  {
    if len == 1 then lead
    else if len == 2 then lead % 0x20
    else if len == 3 then lead % 0x10
    else lead % 0x08
  }

  /** The value decode holds after folding in bytes 1..i-1: `res = (res << 6) | (b & 0x3F)`. */
  function Gathered(s: seq<u32>, i: nat): (v: nat)
    requires 1 <= i <= |s|
    ensures |s| == 1 || v < 4 * Pow64(i)
  {
    if i == 1 then LeadBits(s[0], |s|)
    else Gathered(s, i - 1) * 0x40 + s[i - 1] % 0x40
  }

  /** 64 to the power k. */
  function Pow64(k: nat): (p: nat)
    ensures p >= 1
  {
    if k == 0 then 1 else 0x40 * Pow64(k - 1)
  }

  /** The value decode computes from the bytes of one character. */
  function Decode(s: seq<u32>): (c: CodePoint)
    requires 1 <= |s| && |s| == ReadLength(s[0])
  {
    assert Pow64(4) == 0x100_0000;
    assert |s| <= 4 && Pow64(|s|) <= 0x100_0000 by {
      assert Pow64(1) == 0x40 && Pow64(2) == 0x1000 && Pow64(3) == 0x4_0000;
    }
    Gathered(s, |s|)
  }

  /** decode keeps a one-byte character as it is, and never yields more
      bits than the length carries: 11 for two bytes, 16 for three, 21 for four. */
  lemma DecodeBound(s: seq<u32>)
    requires 1 <= |s| && |s| == ReadLength(s[0])
    ensures |s| == 1 ==> Decode(s) == s[0]
    ensures |s| == 2 ==> Decode(s) < 0x800
    ensures |s| == 3 ==> Decode(s) < 0x1_0000
    ensures |s| == 4 ==> Decode(s) < 0x20_0000
  {
    if 1 < |s| {
      GatheredBound(s, |s|);
      assert Pow64(1) == 0x40 && Pow64(2) == 0x1000 && Pow64(3) == 0x4_0000;
    }
  }

  /** The number of values the lead byte of a `len`-byte character contributes. */
  function LeadRange(len: nat): nat {
    if len == 2 then 0x20 else if len == 3 then 0x10 else 0x08
  }

  /** Folding in bytes 1..i-1 keeps the value below the lead's range times 64^(i-1). */
  lemma {:induction false} GatheredBound(s: seq<u32>, i: nat)
    requires 1 <= i <= |s| && 1 < |s|
    ensures Gathered(s, i) < LeadRange(|s|) * Pow64(i - 1)
  {
    if 1 < i {
      GatheredBound(s, i - 1);
      var g, r := Gathered(s, i - 1), s[i - 1] % 0x40;
      assert g + 1 <= LeadRange(|s|) * Pow64(i - 2);
      assert g * 0x40 + r < (g + 1) * 0x40;
      assert (g + 1) * 0x40 <= LeadRange(|s|) * Pow64(i - 2) * 0x40;
    }
  }

  /** decode: the lead byte's bits, then six bits from each continuation byte in a loop. */
  method DecodeUnits(s: seq<u32>) returns (c: CodePoint)
    requires 1 <= |s| && |s| == ReadLength(s[0])
    ensures c == Decode(s)
  {
    var len := ReadLength(s[0]);
    var res: nat;
    if len == 1 {
      res := s[0];
    } else if len == 2 {
      res := s[0] % 0x20;
    } else if len == 3 {
      res := s[0] % 0x10;
    } else {
      res := s[0] % 0x08;
    }
    var i := 1;
    while i < len
      invariant 1 <= i <= len
      invariant res == Gathered(s, i)
    {
      res := res * 0x40 + s[i] % 0x40;
      i := i + 1;
    }
    c := Decode(s);
    assert c == res;
  }

  /** decode inverts encode on every scalar value. */
  lemma DecodeEncode(c: CodePoint)
    requires IsScalar(c)
    ensures Decode(Encode(c)) == c
  {
    var n := WriteLength(c);
    if n == 1 {
      assert Gathered(Encode(c), 1) == c;
    } else if n == 2 {
      DecodeTwo(c);
    } else if n == 3 {
      DecodeThree(c);
    } else {
      DecodeFour(c);
    }
  }

  lemma DecodeTwo(c: CodePoint)
    requires WriteLength(c) == 2
    ensures Decode(Encode(c)) == c
  {
    var s := Encode(c);
    var q1: int, r0: int := c / 0x40, c % 0x40;
    assert s[0] == 0xC0 + q1 && s[1] == 0x80 + r0;
    assert Gathered(s, 1) == q1;
    assert Gathered(s, 2) == q1 * 0x40 + r0;
  }

  lemma DecodeThree(c: CodePoint)
    requires WriteLength(c) == 3
    ensures Decode(Encode(c)) == c
  {
    var s := Encode(c);
    var q1: int, r0: int := c / 0x40, c % 0x40;
    var q2: int, r1: int := q1 / 0x40, q1 % 0x40;
    assert s[0] == 0xE0 + q2 && s[1] == 0x80 + r1 && s[2] == 0x80 + r0;
    assert Gathered(s, 1) == q2;
    assert Gathered(s, 2) == q1;
    assert Gathered(s, 3) == q1 * 0x40 + r0;
  }

  lemma DecodeFour(c: CodePoint)
    requires WriteLength(c) == 4
    ensures Decode(Encode(c)) == c
  {
    var s := Encode(c);
    var q1: int, r0: int := c / 0x40, c % 0x40;
    var q2: int, r1: int := q1 / 0x40, q1 % 0x40;
    var q3: int, r2: int := q2 / 0x40, q2 % 0x40;
    assert s[0] == 0xF0 + q3 && s[1] == 0x80 + r2 && s[2] == 0x80 + r1 && s[3] == 0x80 + r0;
    assert Gathered(s, 1) == q3;
    assert Gathered(s, 2) == q2;
    assert Gathered(s, 3) == q1;
    assert Gathered(s, 4) == q1 * 0x40 + r0;
  }

  /** validate accepts the encoding of a scalar value exactly when the value is
      not in U+0800..U+0FFF: those use the lead byte 0xE0, which validate always refuses. */
  lemma EncodeWellShaped(c: CodePoint)
    requires IsScalar(c)
    ensures WellShaped(Encode(c)) <==> !(0x800 <= c < 0x1000)
  {
    var s := Encode(c);
    if |s| == 3 {
      assert s[0] == 0xE0 <==> c < 0x1000;
    } else if |s| == 4 {
      assert s[0] == 0xF0 ==> s[1] >= 0x90;
    }
  }

  /** Whatever validate accepts and decodes to a scalar value is the encoding of that value:
      validate lets no overlong or otherwise non-minimal form through. */
  lemma WellShapedIsCanonical(s: seq<u32>)
    requires WellShaped(s)
    requires IsScalar(Decode(s))
    ensures WriteLength(Decode(s)) == |s| && Encode(Decode(s)) == s
  {
    assert Gathered(s, 1) == LeadBits(s[0], |s|);
    if |s| == 2 {
      CanonicalTwo(s);
    } else if |s| == 3 {
      CanonicalThree(s);
    } else if |s| == 4 {
      CanonicalFour(s);
    }
  }

  lemma CanonicalTwo(s: seq<u32>)
    requires WellShaped(s) && |s| == 2
    ensures WriteLength(Decode(s)) == 2 && Encode(Decode(s)) == s
  {
    var a: int, b: int := s[0] % 0x20, s[1] % 0x40;
    assert Gathered(s, 1) == a;
    assert Decode(s) == a * 0x40 + b;
    SplitSix(a, b);
  }

  lemma CanonicalThree(s: seq<u32>)
    requires WellShaped(s) && |s| == 3 && IsScalar(Decode(s))
    ensures WriteLength(Decode(s)) == 3 && Encode(Decode(s)) == s
  {
    DecodedThree(s);
    EncodeThree(s[0] - 0xE0, s[1] - 0x80, s[2] - 0x80);
    assert s == [s[0], s[1], s[2]];
  }

  lemma DecodedThree(s: seq<u32>)
    requires WellShaped(s) && |s| == 3
    ensures Decode(s) == ((s[0] - 0xE0) * 0x40 + (s[1] - 0x80)) * 0x40 + (s[2] - 0x80)
  {
    var a: int, b: int, d: int := s[0] - 0xE0, s[1] - 0x80, s[2] - 0x80;
    assert s[0] % 0x10 == a && s[1] % 0x40 == b && s[2] % 0x40 == d;
    assert Gathered(s, 1) == a;
    assert Gathered(s, 2) == a * 0x40 + b;
  }

  /** The three bytes encode writes for the value with bit groups a, b, d. */
  lemma EncodeThree(a: int, b: int, d: int)
    requires 0 <= a < 0x10 && 0 <= b < 0x40 && 0 <= d < 0x40
    requires var c := (a * 0x40 + b) * 0x40 + d; 0x800 <= c && !(0xD800 <= c < 0xE000)
    ensures var c := (a * 0x40 + b) * 0x40 + d;
      WriteLength(c) == 3 && Encode(c) == [0xE0 + a, 0x80 + b, 0x80 + d]
  {
    SplitSix(a * 0x40 + b, d);
    SplitSix(a, b);
  }

  lemma CanonicalFour(s: seq<u32>)
    requires WellShaped(s) && |s| == 4 && IsScalar(Decode(s))
    ensures WriteLength(Decode(s)) == 4 && Encode(Decode(s)) == s
  {
    DecodedFour(s);
    EncodeFour(s[0] - 0xF0, s[1] - 0x80, s[2] - 0x80, s[3] - 0x80);
    assert s == [s[0], s[1], s[2], s[3]];
  }

  lemma DecodedFour(s: seq<u32>)
    requires WellShaped(s) && |s| == 4
    ensures Decode(s) ==
      (((s[0] - 0xF0) * 0x40 + (s[1] - 0x80)) * 0x40 + (s[2] - 0x80)) * 0x40 + (s[3] - 0x80)
  {
    var a: int, b: int, d: int, e: int := s[0] - 0xF0, s[1] - 0x80, s[2] - 0x80, s[3] - 0x80;
    assert s[0] % 0x08 == a && s[1] % 0x40 == b && s[2] % 0x40 == d && s[3] % 0x40 == e;
    assert Gathered(s, 1) == a;
    assert Gathered(s, 2) == a * 0x40 + b;
    assert Gathered(s, 3) == (a * 0x40 + b) * 0x40 + d;
  }

  /** The four bytes encode writes for the value with bit groups a, b, d, e. */
  lemma EncodeFour(a: int, b: int, d: int, e: int)
    requires 0 <= a < 0x08 && 0 <= b < 0x40 && 0 <= d < 0x40 && 0 <= e < 0x40
    requires var c := ((a * 0x40 + b) * 0x40 + d) * 0x40 + e; 0x10000 <= c < 0x110000
    ensures var c := ((a * 0x40 + b) * 0x40 + d) * 0x40 + e;
      WriteLength(c) == 4 && Encode(c) == [0xF0 + a, 0x80 + b, 0x80 + d, 0x80 + e]
  {
    SplitSix((a * 0x40 + b) * 0x40 + d, e);
    SplitSix(a * 0x40 + b, d);
    SplitSix(a, b);
  }

  /** Shifting right by six bits and masking six bits undo `(hi << 6) | lo`. */
  lemma SplitSix(hi: int, lo: int)
    requires 0 <= hi && 0 <= lo < 0x40
    ensures (hi * 0x40 + lo) / 0x40 == hi && (hi * 0x40 + lo) % 0x40 == lo
  {
  }

  /** The source's mask tests on a byte are the interval tests used here. */
  lemma MaskTests(b: Byte)
    ensures var x := b as bv8;
      && ((x & 0x80 == 0x00) <==> b < 0x80)
      && ((x & 0xE0 == 0xC0) <==> 0xC0 <= b < 0xE0)
      && ((x & 0xF0 == 0xE0) <==> 0xE0 <= b < 0xF0)
      && ((x & 0xF8 == 0xF0) <==> 0xF0 <= b < 0xF8)
      && ((x & 0xC0 == 0x80) <==> 0x80 <= b < 0xC0)
  {
  }

  /** read_length as the source writes it, with its mask tests on the byte:
      0xxxxxxx, 110xxxxx, 1110xxxx and 11110xxx announce 1, 2, 3 and 4 bytes,
      and everything else counts as one. */
  lemma ReadLengthMasks(b: Byte)
    ensures var x := b as bv8;
      ReadLength(b) ==
        if x & 0x80 == 0x00 then 1
        else if x & 0xE0 == 0xC0 then 2
        else if x & 0xF0 == 0xE0 then 3
        else if x & 0xF8 == 0xF0 then 4
        else 1
  {
    MaskTests(b);
  }
}
