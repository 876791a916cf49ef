/** utf::string (include/utfstring.h): a buffer of units in the encoding its
    character type selects, and a stringview over it. Apart from assign and
    operator=, which replace the buffer, every operation builds a new string:
    it cuts views out of the buffer at codeidx offsets, writes them through
    to<chartype> into a fresh buffer whose size was computed beforehand, and
    views the new buffer.

    The spec functions below describe a string whose view is [0, q) of the
    units `s`: what each operation demands (beyond it lies undefined
    behaviour: a walk or a decode outside the buffer, a write past an
    allocation) and the units it writes. The class's methods are proved
    against them, and the lemmas say what those units are. */
module Strings {
  import opened Unicode
  import opened Codec
  import opened Wrappers
  import opened Text
  import Resolver
  import View

  // ---------------------------------------------------------------------------
  // Ordinals

  /** codeidx(idx) is defined on the view [0, q). */
  predicate Resolves(e: Encoding, s: seq<Unit>, q: nat, idx: int)
    requires q <= |s|
  {
    Resolver.Resolves(e, s, 0, q, idx)
  }

  /** codeidx(idx) on the view [0, q). */
  function At(e: Encoding, s: seq<Unit>, q: nat, idx: int): nat
    requires q <= |s| && Resolves(e, s, q, idx)
  {
    Resolver.CodeIdx(e, s, 0, q, idx)
  }

  /** Where a piece that ends at ordinal `x` ends: codeidx(x), one unit
      further when x is positive (the `+ (idx_e > 0)` of substr, splice and cut). */
  function EndAt(e: Encoding, s: seq<Unit>, q: nat, x: int): nat
    requires q <= |s| && Resolves(e, s, q, x)
  {
    At(e, s, q, x) + if x > 0 then 1 else 0
  }

  /** is_valid_range(b, x): codeidx(b) < codeidx(x). */
  predicate ValidRange(e: Encoding, s: seq<Unit>, q: nat, b: int, x: int)
    requires q <= |s| && Resolves(e, s, q, b) && Resolves(e, s, q, x)
  {
    At(e, s, q, b) < At(e, s, q, x)
  }

  /** The message substr and splice throw when the range is not valid. */
  const RangeError: string := "Error: invalid index range"

  // ---------------------------------------------------------------------------
  // substr

  /** What substr(b, x) demands: both ordinals resolve, and when the range is
      valid, codeidx(-1) resolves, the piece [codeidx(b), EndAt(x)) and the tail
      [codeidx(-1), codeidx(0)) lie in the buffer and can be written, and what
      is written fits the allocation of sub.codeunits() + end.codeunits() units. */
  predicate SubstrDefined(e: Encoding, s: seq<Unit>, q: nat, b: int, x: int) {
    && q <= |s| && Resolves(e, s, q, b) && Resolves(e, s, q, x)
    && (ValidRange(e, s, q, b, x) ==>
         && Resolves(e, s, q, -1)
         && (var p, k, m := At(e, s, q, b), EndAt(e, s, q, x), At(e, s, q, -1);
             && Transcodable(e, e, s, p, k) && Transcodable(e, e, s, m, q)
             && |Transcode(e, e, s, p, k)| + |Transcode(e, e, s, m, q)| <= (k - p) + (q - m)))
  }

  /** The units substr writes: the piece, then the tail. */
  function SubstrUnits(e: Encoding, s: seq<Unit>, q: nat, b: int, x: int): seq<Unit>
    requires SubstrDefined(e, s, q, b, x) && ValidRange(e, s, q, b, x)
  {
    Transcode(e, e, s, At(e, s, q, b), EndAt(e, s, q, x)) + Transcode(e, e, s, At(e, s, q, -1), q)
  }

  /** The units the new string's view covers: codeunits<chartype>() of both views. */
  function SubstrSize(e: Encoding, s: seq<Unit>, q: nat, b: int, x: int): nat
    requires SubstrDefined(e, s, q, b, x) && ValidRange(e, s, q, b, x)
  {
    UnitsIn(e, Chars(e, s, At(e, s, q, b), EndAt(e, s, q, x))) + UnitsIn(e, Chars(e, s, At(e, s, q, -1), q))
  }

  // ---------------------------------------------------------------------------
  // splice

  /** What rawSplice(piece, sp) demands, the piece being [o, k) of `t` read in
      `d`: codeidx(sp) resolves, the three views can be written, and they
      write exactly the piece1.codeunits() + piece2.codeunits<chartype>() +
      piece3.codeunits() units that are allocated and viewed. */
  predicate SpliceDefined(e: Encoding, s: seq<Unit>, q: nat, d: Encoding, t: seq<Unit>, o: nat, k: nat, sp: int) {
    && q <= |s| && Resolves(e, s, q, sp)
    && (var c := At(e, s, q, sp);
        && Transcodable(e, e, s, 0, c) && Transcodable(d, e, t, o, k) && Transcodable(e, e, s, c, q)
        && |Transcode(e, e, s, 0, c)| + |Transcode(d, e, t, o, k)| + |Transcode(e, e, s, c, q)|
           == c + UnitsIn(e, Chars(d, t, o, k)) + (q - c))
  }

  /** The units rawSplice writes: the units before codeidx(sp), the piece, the rest. */
  function SpliceUnits(e: Encoding, s: seq<Unit>, q: nat, d: Encoding, t: seq<Unit>, o: nat, k: nat, sp: int): seq<Unit>
    requires SpliceDefined(e, s, q, d, t, o, k, sp)
  {
    var c := At(e, s, q, sp);
    Transcode(e, e, s, 0, c) + Transcode(d, e, t, o, k) + Transcode(e, e, s, c, q)
  }

  /** What splice(src, n, sp, b, x) demands once its range check passed: the
      view [0, n) of `src` resolves b and x, and rawSplice is defined on the
      piece [codeidx(b), EndAt(x)) of it. */
  predicate PieceSpliceDefined(e: Encoding, s: seq<Unit>, q: nat, d: Encoding, t: seq<Unit>, n: nat, sp: int, b: int, x: int) {
    && n <= |t| && Resolves(d, t, n, b) && Resolves(d, t, n, x)
    && SpliceDefined(e, s, q, d, t, At(d, t, n, b), EndAt(d, t, n, x), sp)
  }

  // ---------------------------------------------------------------------------
  // cut

  /** What cut(b, x) demands: both ordinals resolve, [0, codeidx(b)) and
      [EndAt(x), codeidx(0)) can be written, and they write exactly the
      piece1.codeunits() + piece2.codeunits() units allocated and viewed.
      cut checks no range. */
  predicate CutDefined(e: Encoding, s: seq<Unit>, q: nat, b: int, x: int) {
    && q <= |s| && Resolves(e, s, q, b) && Resolves(e, s, q, x)
    && (var p, k := At(e, s, q, b), EndAt(e, s, q, x);
        && Transcodable(e, e, s, 0, p) && Transcodable(e, e, s, k, q)
        && |Transcode(e, e, s, 0, p)| + |Transcode(e, e, s, k, q)| == p + (q - k))
  }

  /** The units cut writes: those before codeidx(b), then those from EndAt(x). */
  function CutUnits(e: Encoding, s: seq<Unit>, q: nat, b: int, x: int): seq<Unit>
    requires CutDefined(e, s, q, b, x)
  {
    Transcode(e, e, s, 0, At(e, s, q, b)) + Transcode(e, e, s, EndAt(e, s, q, x), q)
  }

  // ---------------------------------------------------------------------------
  // operator==

  /** The size strsize<ch>() computes for the view [0, q) of `s`, read in `d`. */
  function SizeIn(t: Encoding, d: Encoding, s: seq<Unit>, q: nat): nat
    requires q <= |s| && Tiled(d, s, 0, q)
  {
    UnitsIn(t, Chars(d, s, 0, q))
  }

  /** What this == other demands, `this` being [0, q) of `s` in `e` and the
      other [0, k) of `t` in `d`: both views can be walked, and when the sizes
      agree, text_as<ch> on the other writes no more units than it allocates
      and the comparison loop reads no unit past this buffer. */
  predicate EqualsDefined(e: Encoding, s: seq<Unit>, q: nat, d: Encoding, t: seq<Unit>, k: nat) {
    && q <= |s| && k <= |t| && Tiled(e, s, 0, q) && Tiled(d, t, 0, k)
    && (SizeIn(e, d, t, k) == SizeIn(e, e, s, q) ==>
          Transcodable(d, e, t, 0, k) && AllScalar(Chars(d, t, 0, k)) && SizeIn(e, e, s, q) <= |s|)
  }

  /** What operator== answers: the sizes agree and the other string, written
      in this encoding, has this buffer's first units. */
  predicate Matches(e: Encoding, s: seq<Unit>, q: nat, d: Encoding, t: seq<Unit>, k: nat)
    requires EqualsDefined(e, s, q, d, t, k)
  {
    SizeIn(e, d, t, k) == SizeIn(e, e, s, q) && Transcode(d, e, t, 0, k) == s[..SizeIn(e, e, s, q)]
  }

  // ---------------------------------------------------------------------------
  // The class

  class UString {
    /** The encoding the character type selects. */
    const enc: Encoding
    /** The units the buffer holds: those its constructor or assign wrote. */
    var text: seq<Unit>
    /** The string's view of the buffer. */
    const view: View.StringView

    /** The view reads this buffer in this encoding, from its first unit. */
    predicate Valid()
      reads this, view
    {
      view.enc == enc && view.buf == text && view.first == 0 && view.last <= |text| && Fits(enc, text)
    }

    /** string(const dchar* text, size_t N) and string(const dchar(&text)[N]),
        a literal being its N units with the terminator: the first n units of
        `src`, read in `d`, transcoded by rawAssign. */
    constructor FromUnits(e: Encoding, d: Encoding, src: seq<Unit>, n: nat)
      requires n <= |src| && Fits(d, src) && Transcodable(d, e, src, 0, n) && AllScalar(Chars(d, src, 0, n))
      ensures Valid() && fresh(view) && enc == e
      ensures text == Transcode(d, e, src, 0, n) && view.last == |text|
    {
      enc := e;
      text := [];
      view := new View.StringView(e, [], 0, 0);
      new;
      var temp := new View.StringView(d, src, 0, n);
      RawAssign(temp);
    }

    /** string(string<dchar>& str): rawAssign of the other string's view. */
    constructor Convert(e: Encoding, other: UString)
      requires other.Valid()
      requires Transcodable(other.enc, e, other.text, 0, other.view.last)
      requires AllScalar(Chars(other.enc, other.text, 0, other.view.last))
      ensures Valid() && fresh(view) && enc == e
      ensures text == Transcode(other.enc, e, other.text, 0, other.view.last) && view.last == |text|
    {
      enc := e;
      text := [];
      view := new View.StringView(e, [], 0, 0);
      new;
      RawAssign(other.view);
    }

    /** string(ch* start, ch* end): adopts `s` as the buffer and views its first n units. */
    constructor Wrap(e: Encoding, s: seq<Unit>, n: nat)
      requires n <= |s| && Fits(e, s)
      ensures Valid() && fresh(view) && enc == e && text == s && view.last == n
    {
      enc := e;
      text := s;
      view := new View.StringView(e, s, 0, n);
    }

    /** rawAssign(temp): a buffer of temp.codeunits<chartype>() units, filled
        by temp.to<chartype>, with the view refocused on all of it. Every
        codepoint being a scalar value, the units written are exactly those
        allocated (Text.SizeLaw); otherwise to<chartype> writes past them. */
    method RawAssign(temp: View.StringView)
      requires view.enc == enc && temp != view && temp.Valid()
      requires Transcodable(temp.enc, enc, temp.buf, temp.first, temp.last)
      requires AllScalar(Chars(temp.enc, temp.buf, temp.first, temp.last))
      modifies this, view
      ensures Valid() && text == Transcode(temp.enc, enc, temp.buf, temp.first, temp.last)
      ensures view.last == |text|
    {
      var n := temp.CodeUnitsIn(enc);
      var out := temp.To(enc, []);
      LengthLaw(enc, Chars(temp.enc, temp.buf, temp.first, temp.last));
      assert out == Transcode(temp.enc, enc, temp.buf, temp.first, temp.last);
      text := out;
      view.Refocus(text, 0, n);
    }

    /** assign(const dchar* text, size_t N) and assign(const dchar(&text)[N]),
        with operator= of a literal: the buffer is replaced by the transcoded units. */
    method Assign(d: Encoding, src: seq<Unit>, n: nat)
      requires Valid() && n <= |src| && Fits(d, src)
      requires Transcodable(d, enc, src, 0, n) && AllScalar(Chars(d, src, 0, n))
      modifies this, view
      ensures Valid() && text == Transcode(d, enc, src, 0, n) && view.last == |text|
    {
      var temp := new View.StringView(d, src, 0, n);
      RawAssign(temp);
    }

    /** assign(string<dchar>& str) and operator= of a string. The buffer is
        released before the other view is read, so the other string must be
        another one. */
    method AssignString(other: UString)
      requires Valid() && other.Valid() && other != this && other.view != view
      requires Transcodable(other.enc, enc, other.text, 0, other.view.last)
      requires AllScalar(Chars(other.enc, other.text, 0, other.view.last))
      modifies this, view
      ensures Valid() && text == Transcode(other.enc, enc, other.text, 0, other.view.last)
      ensures view.last == |text|
    {
      RawAssign(other.view);
    }

    /** length(): the characters in the view. */
    method Length() returns (n: nat)
      requires Valid() && Tiled(enc, text, 0, view.last)
      ensures n == |Chars(enc, text, 0, view.last)|
    {
      n := view.Codepoints();
    }

    /** strsize<dchar>(): the units the view takes in `t`. */
    method StrSize(t: Encoding) returns (n: nat)
      requires Valid() && Tiled(enc, text, 0, view.last)
      ensures n == SizeIn(t, enc, text, view.last)
    {
      n := view.CodeUnitsIn(t);
    }

    /** text_as<dchar>(): a buffer of codeunits<t>() units filled by to<t>;
        every codepoint being a scalar value, it is filled exactly. */
    method TextAs(t: Encoding) returns (r: seq<Unit>)
      requires Valid() && Transcodable(enc, t, text, 0, view.last) && AllScalar(Chars(enc, text, 0, view.last))
      ensures r == Transcode(enc, t, text, 0, view.last) && |r| == SizeIn(t, enc, text, view.last)
    {
      var n := view.CodeUnitsIn(t);
      r := view.To(t, []);
      LengthLaw(t, Chars(enc, text, 0, view.last));
      assert r == Transcode(enc, t, text, 0, view.last);
    }

    /** text_as<dchar>(size_t& N): the same units, with their number. */
    method TextAsSized(t: Encoding) returns (r: seq<Unit>, n: nat)
      requires Valid() && Transcodable(enc, t, text, 0, view.last) && AllScalar(Chars(enc, text, 0, view.last))
      ensures r == Transcode(enc, t, text, 0, view.last) && n == |r|
    {
      n := StrSize(t);
      r := TextAs(t);
    }

    /** is_valid_range(b, x). */
    method IsValidRange(b: int, x: int) returns (ok: bool)
      requires Valid() && Resolves(enc, text, view.last, b) && Resolves(enc, text, view.last, x)
      ensures ok == ValidRange(enc, text, view.last, b, x)
    {
      var cb := view.CodeIdx(b);
      var cx := view.CodeIdx(x);
      ok := cb < cx;
    }

    /** substr(b, x): throws RangeError unless is_valid_range(b, x); else a
        new string of the piece [codeidx(b), EndAt(x)) and the tail
        [codeidx(-1), codeidx(0)), viewing the units codeunits<chartype>()
        counts for both. */
    method Substr(b: int, x: int) returns (r: Result<UString>)
      requires Valid() && SubstrDefined(enc, text, view.last, b, x)
      ensures !ValidRange(enc, text, view.last, b, x) ==> r == Failure(RangeError)
      ensures ValidRange(enc, text, view.last, b, x) ==>
        && r.Success? && fresh(r.value) && fresh(r.value.view) && r.value.Valid() && r.value.enc == enc
        && r.value.text == SubstrUnits(enc, text, view.last, b, x)
        && r.value.view.last == SubstrSize(enc, text, view.last, b, x)
    {
      var ok := IsValidRange(b, x);
      if !ok {
        return Failure(RangeError);
      }
      var p := view.CodeIdx(b);
      var k := view.CodeIdx(x);
      k := k + if x > 0 then 1 else 0;
      var m := view.CodeIdx(-1);
      var q := view.CodeIdx(0);
      ghost var e, s := enc, text;
      assert p == At(e, s, q, b) && k == EndAt(e, s, q, x) && m == At(e, s, q, -1);
      assert Transcodable(e, e, s, p, k) && Transcodable(e, e, s, m, q);
      var sub := new View.StringView(enc, text, p, k);
      var end := new View.StringView(enc, text, m, q);
      var out := sub.To(enc, []);
      NothingBefore(Transcode(e, e, s, p, k));
      out := end.To(enc, out);
      var n1 := sub.CodeUnitsIn(enc);
      var n2 := end.CodeUnitsIn(enc);
      SizeLaw(e, Chars(e, s, p, k));
      SizeLaw(e, Chars(e, s, m, q));
      FitsJoin(e, Transcode(e, e, s, p, k), Transcode(e, e, s, m, q));
      var str := new UString.Wrap(enc, out, n1 + n2);
      return Success(str);
    }

    /** copy(): substr(1, -1). */
    method Copy() returns (r: Result<UString>)
      requires Valid() && SubstrDefined(enc, text, view.last, 1, -1)
      ensures !ValidRange(enc, text, view.last, 1, -1) ==> r == Failure(RangeError)
      ensures ValidRange(enc, text, view.last, 1, -1) ==>
        && r.Success? && fresh(r.value) && r.value.Valid() && r.value.enc == enc
        && r.value.text == SubstrUnits(enc, text, view.last, 1, -1)
        && r.value.view.last == SubstrSize(enc, text, view.last, 1, -1)
    {
      r := Substr(1, -1);
    }

    /** rawSplice(piece, sp): the units before codeidx(sp), the piece and the
        rest, written into one new buffer and viewed whole. */
    method RawSplice(piece: View.StringView, sp: int) returns (r: UString)
      requires Valid() && piece.Valid()
      requires SpliceDefined(enc, text, view.last, piece.enc, piece.buf, piece.first, piece.last, sp)
      ensures fresh(r) && fresh(r.view) && r.Valid() && r.enc == enc
      ensures r.text == SpliceUnits(enc, text, view.last, piece.enc, piece.buf, piece.first, piece.last, sp)
      ensures r.view.last == |r.text|
    {
      var c := view.CodeIdx(sp);
      var q := view.CodeIdx(0);
      ghost var e, s := enc, text;
      ghost var d, t, o, k := piece.enc, piece.buf, piece.first, piece.last;
      assert c == At(e, s, q, sp);
      assert Transcodable(e, e, s, 0, c) && Transcodable(d, e, t, o, k) && Transcodable(e, e, s, c, q);
      var piece1 := new View.StringView(enc, text, 0, c);
      var piece3 := new View.StringView(enc, text, c, q);
      var n2 := piece.CodeUnitsIn(enc);
      var out := piece1.To(enc, []);
      NothingBefore(Transcode(e, e, s, 0, c));
      out := piece.To(enc, out);
      out := piece3.To(enc, out);
      FitsJoin(e, Transcode(e, e, s, 0, c), Transcode(d, e, t, o, k));
      FitsJoin(e, Transcode(e, e, s, 0, c) + Transcode(d, e, t, o, k), Transcode(e, e, s, c, q));
      r := new UString.Wrap(enc, out, piece1.CodeUnits() + n2 + piece3.CodeUnits());
    }

    /** splice(const dchar* text, size_t N, sp, b, x) and splice(dchar(&text)[N],
        sp, b, x): the range check is made on THIS string's view; b and x are
        then resolved on the view [0, n) of `src`. */
    method Splice(d: Encoding, src: seq<Unit>, n: nat, sp: int, b: int, x: int) returns (r: Result<UString>)
      requires Valid() && Fits(d, src) && Resolves(enc, text, view.last, b) && Resolves(enc, text, view.last, x)
      requires ValidRange(enc, text, view.last, b, x) ==> PieceSpliceDefined(enc, text, view.last, d, src, n, sp, b, x)
      ensures !ValidRange(enc, text, view.last, b, x) ==> r == Failure(RangeError)
      ensures ValidRange(enc, text, view.last, b, x) ==>
        && r.Success? && fresh(r.value) && r.value.Valid() && r.value.enc == enc
        && r.value.text == SpliceUnits(enc, text, view.last, d, src, At(d, src, n, b), EndAt(d, src, n, x), sp)
        && r.value.view.last == |r.value.text|
    {
      var ok := IsValidRange(b, x);
      if !ok {
        return Failure(RangeError);
      }
      var temp := new View.StringView(d, src, 0, n);
      var o := temp.CodeIdx(b);
      var k := temp.CodeIdx(x);
      k := k + if x > 0 then 1 else 0;
      var piece := new View.StringView(d, src, o, k);
      var str := RawSplice(piece, sp);
      return Success(str);
    }

    /** splice(string<dchar>& str, sp, b, x): as Splice, on the other string's view. */
    method SpliceString(other: UString, sp: int, b: int, x: int) returns (r: Result<UString>)
      requires Valid() && other.Valid()
      requires Resolves(enc, text, view.last, b) && Resolves(enc, text, view.last, x)
      requires ValidRange(enc, text, view.last, b, x) ==>
        PieceSpliceDefined(enc, text, view.last, other.enc, other.text, other.view.last, sp, b, x)
      ensures !ValidRange(enc, text, view.last, b, x) ==> r == Failure(RangeError)
      ensures ValidRange(enc, text, view.last, b, x) ==>
        && r.Success? && fresh(r.value) && r.value.Valid() && r.value.enc == enc
        && r.value.text == SpliceUnits(enc, text, view.last, other.enc, other.text,
             At(other.enc, other.text, other.view.last, b), EndAt(other.enc, other.text, other.view.last, x), sp)
        && r.value.view.last == |r.value.text|
    {
      var ok := IsValidRange(b, x);
      if !ok {
        return Failure(RangeError);
      }
      var o := other.view.CodeIdx(b);
      var k := other.view.CodeIdx(x);
      k := k + if x > 0 then 1 else 0;
      var piece := new View.StringView(other.enc, other.text, o, k);
      var str := RawSplice(piece, sp);
      return Success(str);
    }

    /** operator+(string<dchar>& str): splice(str), at -1 with the range 1..-1. */
    method Plus(other: UString) returns (r: Result<UString>)
      requires Valid() && other.Valid()
      requires Resolves(enc, text, view.last, 1) && Resolves(enc, text, view.last, -1)
      requires ValidRange(enc, text, view.last, 1, -1) ==>
        PieceSpliceDefined(enc, text, view.last, other.enc, other.text, other.view.last, -1, 1, -1)
      ensures !ValidRange(enc, text, view.last, 1, -1) ==> r == Failure(RangeError)
      ensures ValidRange(enc, text, view.last, 1, -1) ==>
        && r.Success? && fresh(r.value) && r.value.Valid() && r.value.enc == enc
        && r.value.text == SpliceUnits(enc, text, view.last, other.enc, other.text,
             At(other.enc, other.text, other.view.last, 1), EndAt(other.enc, other.text, other.view.last, -1), -1)
        && r.value.view.last == |r.value.text|
    {
      r := SpliceString(other, -1, 1, -1);
    }

    /** operator+(const dchar(&str)[N]): splice(str, N), the literal's N units
        with the terminator. */
    method PlusUnits(d: Encoding, src: seq<Unit>) returns (r: Result<UString>)
      requires Valid() && Fits(d, src) && Resolves(enc, text, view.last, 1) && Resolves(enc, text, view.last, -1)
      requires ValidRange(enc, text, view.last, 1, -1) ==>
        PieceSpliceDefined(enc, text, view.last, d, src, |src|, -1, 1, -1)
      ensures !ValidRange(enc, text, view.last, 1, -1) ==> r == Failure(RangeError)
      ensures ValidRange(enc, text, view.last, 1, -1) ==>
        && r.Success? && fresh(r.value) && r.value.Valid() && r.value.enc == enc
        && r.value.text == SpliceUnits(enc, text, view.last, d, src, At(d, src, |src|, 1), EndAt(d, src, |src|, -1), -1)
        && r.value.view.last == |r.value.text|
    {
      r := Splice(d, src, |src|, -1, 1, -1);
    }

    /** cut(b, x): the units before codeidx(b) and those from EndAt(x), in
        one new buffer viewed whole. */
    method Cut(b: int, x: int) returns (r: UString)
      requires Valid() && CutDefined(enc, text, view.last, b, x)
      ensures fresh(r) && fresh(r.view) && r.Valid() && r.enc == enc
      ensures r.text == CutUnits(enc, text, view.last, b, x) && r.view.last == |r.text|
    {
      var p := view.CodeIdx(b);
      var k := view.CodeIdx(x);
      k := k + if x > 0 then 1 else 0;
      var q := view.CodeIdx(0);
      ghost var e, s := enc, text;
      assert p == At(e, s, q, b) && k == EndAt(e, s, q, x);
      assert Transcodable(e, e, s, 0, p) && Transcodable(e, e, s, k, q);
      var piece1 := new View.StringView(enc, text, 0, p);
      var piece2 := new View.StringView(enc, text, k, q);
      var out := piece1.To(enc, []);
      NothingBefore(Transcode(e, e, s, 0, p));
      out := piece2.To(enc, out);
      FitsJoin(e, Transcode(e, e, s, 0, p), Transcode(e, e, s, k, q));
      r := new UString.Wrap(enc, out, piece1.CodeUnits() + piece2.CodeUnits());
    }

    /** operator==(string<dchar>& str): false when the sizes in this encoding
        differ; else the other string's text_as<ch> compared unit by unit
        with the first units of this buffer. */
    method Equals(other: UString) returns (eq: bool)
      requires Valid() && other.Valid()
      requires EqualsDefined(enc, text, view.last, other.enc, other.text, other.view.last)
      ensures eq == Matches(enc, text, view.last, other.enc, other.text, other.view.last)
    {
      var m := other.StrSize(enc);
      var n := StrSize(enc);
      if m != n {
        return false;
      }
      var comp := other.TextAs(enc);
      var i := 0;
      while i != n
        invariant 0 <= i <= n && |comp| == n <= |text|
        invariant forall j :: 0 <= j < i ==> comp[j] == text[j]
        decreases n - i
      {
        if comp[i] != text[i] {
          assert comp[i] != text[..n][i];
          return false;
        }
        i := i + 1;
      }
      assert comp == text[..n];
      return true;
    }

    /** operator!=: the negation of operator==. */
    method NotEquals(other: UString) returns (ne: bool)
      requires Valid() && other.Valid()
      requires EqualsDefined(enc, text, view.last, other.enc, other.text, other.view.last)
      ensures ne == !Matches(enc, text, view.last, other.enc, other.text, other.view.last)
    {
      var eq := Equals(other);
      ne := !eq;
    }
  }

  // ---------------------------------------------------------------------------
  // What the operations write, on any text

  /** The codepoints of two sequences of scalar values, encoded one after the
      other, decode back to both in order. */
  lemma TranscodedJoin(e: Encoding, x: seq<CodePoint>, y: seq<CodePoint>)
    requires AllScalar(x) && AllScalar(y)
    ensures AllEncodable(e, x + y) && EncodeAll(e, x + y) == EncodeAll(e, x) + EncodeAll(e, y)
    ensures var r := EncodeAll(e, x + y);
      Tiled(e, r, 0, |r|) && Chars(e, r, 0, |r|) == x + y && |r| == UnitsIn(e, x) + UnitsIn(e, y)
  {
    LengthLaw(e, x);
    LengthLaw(e, y);
    ScalarJoin(x, y);
    EncodeAllAppend(e, x, y);
    RoundTrip(e, x + y);
    LengthLaw(e, x + y);
  }

  lemma ScalarJoin(x: seq<CodePoint>, y: seq<CodePoint>)
    requires AllScalar(x) && AllScalar(y)
    ensures AllScalar(x + y)
  {
    forall i | 0 <= i < |x + y| ensures IsScalar((x + y)[i]) {
      if i >= |x| { assert (x + y)[i] == y[i - |x|]; }
    }
  }

  /** Outside UTF-32 only scalar values can be encoded, so the codepoints of
      every window substr, splice and cut write are scalar values. */
  lemma EncodableIsScalar(e: Encoding, cps: seq<CodePoint>)
    requires e != UTF32 && AllEncodable(e, cps)
    ensures AllScalar(cps)
  {
  }

  /** substr writes the codepoints of the piece followed by those of the
      tail, and its view covers all it wrote. */
  lemma SubstrChars(e: Encoding, s: seq<Unit>, q: nat, b: int, x: int)
    requires SubstrDefined(e, s, q, b, x) && ValidRange(e, s, q, b, x)
    requires AllScalar(Chars(e, s, At(e, s, q, b), EndAt(e, s, q, x)))
    requires AllScalar(Chars(e, s, At(e, s, q, -1), q))
    ensures var r := SubstrUnits(e, s, q, b, x);
      && Tiled(e, r, 0, |r|) && SubstrSize(e, s, q, b, x) == |r|
      && Chars(e, r, 0, |r|) == Chars(e, s, At(e, s, q, b), EndAt(e, s, q, x)) + Chars(e, s, At(e, s, q, -1), q)
  {
    TranscodedJoin(e, Chars(e, s, At(e, s, q, b), EndAt(e, s, q, x)), Chars(e, s, At(e, s, q, -1), q));
  }

  /** rawSplice writes the codepoints before codeidx(sp), those of the piece,
      and the rest. */
  lemma SpliceChars(e: Encoding, s: seq<Unit>, q: nat, d: Encoding, t: seq<Unit>, o: nat, k: nat, sp: int)
    requires SpliceDefined(e, s, q, d, t, o, k, sp)
    requires AllScalar(Chars(e, s, 0, At(e, s, q, sp))) && AllScalar(Chars(d, t, o, k))
    requires AllScalar(Chars(e, s, At(e, s, q, sp), q))
    ensures var r := SpliceUnits(e, s, q, d, t, o, k, sp);
      && Tiled(e, r, 0, |r|)
      && Chars(e, r, 0, |r|) == Chars(e, s, 0, At(e, s, q, sp)) + Chars(d, t, o, k) + Chars(e, s, At(e, s, q, sp), q)
  {
    var c := At(e, s, q, sp);
    var x, y, z := Chars(e, s, 0, c), Chars(d, t, o, k), Chars(e, s, c, q);
    TranscodedJoin(e, x, y);
    ScalarJoin(x, y);
    TranscodedJoin(e, x + y, z);
  }

  /** cut writes the codepoints before codeidx(b) and those from EndAt(x). */
  lemma CutChars(e: Encoding, s: seq<Unit>, q: nat, b: int, x: int)
    requires CutDefined(e, s, q, b, x)
    requires AllScalar(Chars(e, s, 0, At(e, s, q, b))) && AllScalar(Chars(e, s, EndAt(e, s, q, x), q))
    ensures var r := CutUnits(e, s, q, b, x);
      && Tiled(e, r, 0, |r|)
      && Chars(e, r, 0, |r|) == Chars(e, s, 0, At(e, s, q, b)) + Chars(e, s, EndAt(e, s, q, x), q)
  {
    TranscodedJoin(e, Chars(e, s, 0, At(e, s, q, b)), Chars(e, s, EndAt(e, s, q, x), q));
  }

  /** Strings built by the constructors, assign and the operations hold the
      encodings of scalar values. For two such strings operator== answers
      true exactly when they hold the same codepoints, whatever their encodings. */
  lemma MatchesIffSameChars(e: Encoding, d: Encoding, cs: seq<CodePoint>, ct: seq<CodePoint>)
    requires AllScalar(cs) && AllScalar(ct)
    ensures AllEncodable(e, cs) && AllEncodable(d, ct)
    ensures var s, t := EncodeAll(e, cs), EncodeAll(d, ct);
      && EqualsDefined(e, s, |s|, d, t, |t|)
      && (Matches(e, s, |s|, d, t, |t|) <==> cs == ct)
  {
    RoundTrip(d, ct);
    var s, t := EncodeAll(e, cs), EncodeAll(d, ct);
    EncodedSizes(e, cs, d, ct);
    assert Transcode(d, e, t, 0, |t|) == EncodeAll(e, ct);
    assert s[0..|s|] == s;
    RoundTrip(e, ct);
  }

  /** Both encodings can be walked, and the sizes operator== compares are the
      lengths of the units `e` writes for each. */
  lemma EncodedSizes(e: Encoding, cs: seq<CodePoint>, d: Encoding, ct: seq<CodePoint>)
    requires AllScalar(cs) && AllScalar(ct)
    ensures AllEncodable(e, cs) && AllEncodable(d, ct) && AllEncodable(e, ct)
    ensures var s, t := EncodeAll(e, cs), EncodeAll(d, ct);
      && Tiled(e, s, 0, |s|) && Chars(e, s, 0, |s|) == cs && SizeIn(e, e, s, |s|) == |s|
      && Tiled(d, t, 0, |t|) && Chars(d, t, 0, |t|) == ct && SizeIn(e, d, t, |t|) == |EncodeAll(e, ct)|
      && EqualsDefined(e, s, |s|, d, t, |t|)
  {
    RoundTrip(e, cs);
    RoundTrip(d, ct);
    LengthLaw(e, cs);
    LengthLaw(e, ct);
  }

  // ---------------------------------------------------------------------------
  // What the operations write, on text that validate accepts

  /** On text validate accepts, substr copies the units of the piece and of
      the tail, and its view covers them all. */
  lemma SubstrOfValid(e: Encoding, s: seq<Unit>, q: nat, b: int, x: int)
    requires q <= |s| && Fits(e, s) && Resolves(e, s, q, b) && Resolves(e, s, q, x)
    requires ValidRange(e, s, q, b, x) && Resolves(e, s, q, -1)
    requires EndAt(e, s, q, x) <= |s| && At(e, s, q, -1) <= q
    requires ValidText(e, s, At(e, s, q, b), EndAt(e, s, q, x)) && ValidText(e, s, At(e, s, q, -1), q)
    ensures SubstrDefined(e, s, q, b, x)
    ensures SubstrUnits(e, s, q, b, x) == s[At(e, s, q, b)..EndAt(e, s, q, x)] + s[At(e, s, q, -1)..q]
    ensures SubstrSize(e, s, q, b, x) == |SubstrUnits(e, s, q, b, x)|
  {
    var p, k, m := At(e, s, q, b), EndAt(e, s, q, x), At(e, s, q, -1);
    ValidReencodes(e, s, p, k);
    ValidReencodes(e, s, m, q);
    ValidIsScalar(e, s, p, k);
    ValidIsScalar(e, s, m, q);
    LengthLaw(e, Chars(e, s, p, k));
    LengthLaw(e, Chars(e, s, m, q));
  }

  /** On text validate accepts, rawSplice copies the units around codeidx(sp)
      and writes the transcoded piece between them. */
  lemma SpliceOfValid(e: Encoding, s: seq<Unit>, q: nat, d: Encoding, t: seq<Unit>, o: nat, k: nat, sp: int)
    requires q <= |s| && Fits(e, s) && Resolves(e, s, q, sp) && At(e, s, q, sp) <= q
    requires ValidText(e, s, 0, At(e, s, q, sp)) && ValidText(e, s, At(e, s, q, sp), q)
    requires o <= k <= |t| && Tiled(d, t, o, k) && AllScalar(Chars(d, t, o, k))
    ensures Transcodable(d, e, t, o, k) && SpliceDefined(e, s, q, d, t, o, k, sp)
    ensures SpliceUnits(e, s, q, d, t, o, k, sp)
      == s[..At(e, s, q, sp)] + Transcode(d, e, t, o, k) + s[At(e, s, q, sp)..q]
  {
    var c := At(e, s, q, sp);
    ValidReencodes(e, s, 0, c);
    ValidReencodes(e, s, c, q);
    LengthLaw(e, Chars(d, t, o, k));
    assert s[0..c] == s[..c];
  }

  /** On text validate accepts, cut copies the units before codeidx(b) and
      those from EndAt(x). */
  lemma CutOfValid(e: Encoding, s: seq<Unit>, q: nat, b: int, x: int)
    requires q <= |s| && Fits(e, s) && Resolves(e, s, q, b) && Resolves(e, s, q, x)
    requires At(e, s, q, b) <= q && EndAt(e, s, q, x) <= q
    requires ValidText(e, s, 0, At(e, s, q, b)) && ValidText(e, s, EndAt(e, s, q, x), q)
    ensures CutDefined(e, s, q, b, x)
    ensures CutUnits(e, s, q, b, x) == s[..At(e, s, q, b)] + s[EndAt(e, s, q, x)..q]
  {
    var p, k := At(e, s, q, b), EndAt(e, s, q, x);
    ValidReencodes(e, s, 0, p);
    ValidReencodes(e, s, k, q);
    assert s[0..p] == s[..p];
  }

  // ---------------------------------------------------------------------------
  // ASCII text, where codeidx is exact

  /** codeidx on text whose units are all below 0x80: ordinal k in 1..q is at
      unit k - 1, ordinal -k at q - k, and every other ordinal answers q. */
  function Ordinal(q: nat, idx: int): nat {
    if Resolver.OutOfRange(q, idx) then q else if idx > 0 then idx - 1 else q + idx
  }

  /** On narrow text every ordinal resolves to its Ordinal. */
  lemma NarrowAt(e: Encoding, s: seq<Unit>, q: nat, idx: int)
    requires q <= |s| && Resolver.Narrow(e, s, 0, q)
    ensures Resolves(e, s, q, idx) && At(e, s, q, idx) == Ordinal(q, idx)
  {
    if !Resolver.OutOfRange(q, idx) {
      Resolver.ResolveNarrow(e, s, 0, q, idx);
    }
  }

  lemma AsciiAt(e: Encoding, s: seq<Unit>, q: nat, idx: int)
    requires q <= |s| && Resolver.Ascii(s, 0, q)
    ensures Resolves(e, s, q, idx) && At(e, s, q, idx) == Ordinal(q, idx)
  {
    Resolver.AsciiIsNarrow(e, s, 0, q);
    NarrowAt(e, s, q, idx);
  }

  /** In UTF-32 codeidx is exact on every text. */
  lemma Utf32At(s: seq<Unit>, q: nat, idx: int)
    requires q <= |s|
    ensures Resolves(UTF32, s, q, idx) && At(UTF32, s, q, idx) == Ordinal(q, idx)
  {
    Resolver.Utf32Narrow(s, 0, q);
    NarrowAt(UTF32, s, q, idx);
  }

  /** In UTF-16 codeidx is exact on text without surrogate pairs. */
  lemma Utf16At(s: seq<Unit>, q: nat, idx: int)
    requires q <= |s| && Fits(UTF16, s) && forall i :: 0 <= i < q ==> !(0xD800 <= s[i] < 0xDC00)
    ensures Resolves(UTF16, s, q, idx) && At(UTF16, s, q, idx) == Ordinal(q, idx)
  {
    Resolver.Utf16Narrow(s, 0, q);
    NarrowAt(UTF16, s, q, idx);
  }

  /** Every unit below 0x80 is a character that decodes to itself. */
  lemma {:induction false} AsciiChars(d: Encoding, s: seq<Unit>, p: nat, q: nat)
    requires p <= q <= |s| && Resolver.Ascii(s, p, q)
    ensures Tiled(d, s, p, q) && Chars(d, s, p, q) == s[p..q]
    decreases q - p
  {
    if p < q {
      Resolver.AsciiDecode(d, s[p]);
      assert CharUnits(d, s, p) == [s[p]];
      AsciiChars(d, s, p + 1, q);
      assert s[p..q] == [s[p]] + s[p + 1..q];
    }
  }

  /** Each codepoint below 0x80 is encoded as itself, in one unit. */
  lemma {:induction false} AsciiEncode(t: Encoding, cps: seq<CodePoint>)
    requires forall i :: 0 <= i < |cps| ==> cps[i] < 0x80
    ensures AllScalar(cps) && AllEncodable(t, cps) && EncodeAll(t, cps) == cps && UnitsIn(t, cps) == |cps|
    decreases |cps|
  {
    if |cps| > 0 {
      AsciiEncode(t, cps[1..]);
      assert Encode(t, cps[0]) == [cps[0]];
      Reassemble(cps);
    }
  }

  /** ASCII units transcode to themselves, between any two encodings. */
  lemma AsciiTranscode(d: Encoding, t: Encoding, s: seq<Unit>, p: nat, q: nat)
    requires p <= q <= |s| && Resolver.Ascii(s, p, q)
    ensures Transcodable(d, t, s, p, q) && AllScalar(Chars(d, s, p, q))
    ensures Transcode(d, t, s, p, q) == s[p..q] && UnitsIn(t, Chars(d, s, p, q)) == q - p
  {
    AsciiChars(d, s, p, q);
    var w := s[p..q];
    forall i | 0 <= i < |w| ensures w[i] < 0x80 {
      assert w[i] == s[p + i];
    }
    AsciiEncode(t, w);
  }

  /** A window of ASCII text transcodes to its own units. */
  lemma AsciiWindow(d: Encoding, t: Encoding, s: seq<Unit>, q: nat, p: nat, k: nat)
    requires p <= k <= q <= |s| && Resolver.Ascii(s, 0, q)
    ensures Transcodable(d, t, s, p, k) && AllScalar(Chars(d, s, p, k))
    ensures Transcode(d, t, s, p, k) == s[p..k] && UnitsIn(t, Chars(d, s, p, k)) == k - p
  {
    AsciiTranscode(d, t, s, p, k);
  }

  /** A string built from ASCII units holds those units, in any encoding. */
  lemma AsciiString(d: Encoding, t: Encoding, s: seq<Unit>)
    requires Resolver.Ascii(s, 0, |s|)
    ensures Transcodable(d, t, s, 0, |s|) && Transcode(d, t, s, 0, |s|) == s
  {
    AsciiTranscode(d, t, s, 0, |s|);
    assert s[0..|s|] == s;
  }

  /** On ASCII text substr(b, x) with x <= codeunits() is valid exactly when
      the resolved offsets are ordered, and then holds the units from the b-th
      character through the x-th (through the character before the last when x < 0),
      then the last unit. */
  lemma SubstrAscii(e: Encoding, s: seq<Unit>, q: nat, b: int, x: int)
    requires q <= |s| && Resolver.Ascii(s, 0, q) && x <= q
    ensures SubstrDefined(e, s, q, b, x)
    ensures At(e, s, q, b) == Ordinal(q, b) && EndAt(e, s, q, x) == Ordinal(q, x) + if x > 0 then 1 else 0
    ensures ValidRange(e, s, q, b, x) <==> Ordinal(q, b) < Ordinal(q, x)
    ensures ValidRange(e, s, q, b, x) ==>
      && At(e, s, q, -1) == q - 1
      && SubstrUnits(e, s, q, b, x) == s[At(e, s, q, b)..EndAt(e, s, q, x)] + s[At(e, s, q, -1)..q]
      && SubstrSize(e, s, q, b, x) == |SubstrUnits(e, s, q, b, x)|
  {
    AsciiAt(e, s, q, b);
    AsciiAt(e, s, q, x);
    AsciiAt(e, s, q, -1);
    if Ordinal(q, b) < Ordinal(q, x) {
      var p, k, m := At(e, s, q, b), EndAt(e, s, q, x), At(e, s, q, -1);
      assert m == q - 1;
      AsciiWindow(e, e, s, q, p, k);
      AsciiWindow(e, e, s, q, m, q);
    }
  }

  /** copy() of an ASCII string holds the same units; copy() of a string of
      one unit, such as the bare terminator of "", throws. */
  lemma CopyAscii(e: Encoding, s: seq<Unit>, q: nat)
    requires q <= |s| && Resolver.Ascii(s, 0, q)
    ensures SubstrDefined(e, s, q, 1, -1)
    ensures ValidRange(e, s, q, 1, -1) <==> 2 <= q
    ensures 2 <= q ==> SubstrUnits(e, s, q, 1, -1) == s[..q] && SubstrSize(e, s, q, 1, -1) == q
  {
    SubstrAscii(e, s, q, 1, -1);
    if 2 <= q {
      assert s[0..q - 1] + s[q - 1..q] == s[..q];
    }
  }

  /** On narrow text that validate accepts, substr(b, x) with x <= codeunits()
      is valid exactly when the resolved offsets are ordered, and then holds
      the units of the piece and the last unit. */
  lemma SubstrNarrow(e: Encoding, s: seq<Unit>, q: nat, b: int, x: int)
    requires q <= |s| && Fits(e, s) && Resolver.Narrow(e, s, 0, q) && ValidText(e, s, 0, q) && x <= q
    ensures SubstrDefined(e, s, q, b, x)
    ensures At(e, s, q, b) == Ordinal(q, b) && EndAt(e, s, q, x) == Ordinal(q, x) + if x > 0 then 1 else 0
    ensures ValidRange(e, s, q, b, x) <==> Ordinal(q, b) < Ordinal(q, x)
    ensures ValidRange(e, s, q, b, x) ==>
      && At(e, s, q, -1) == q - 1
      && SubstrUnits(e, s, q, b, x) == s[At(e, s, q, b)..EndAt(e, s, q, x)] + s[At(e, s, q, -1)..q]
      && SubstrSize(e, s, q, b, x) == |SubstrUnits(e, s, q, b, x)|
  {
    NarrowAt(e, s, q, b);
    NarrowAt(e, s, q, x);
    NarrowAt(e, s, q, -1);
    if Ordinal(q, b) < Ordinal(q, x) {
      var p, k, m := At(e, s, q, b), EndAt(e, s, q, x), At(e, s, q, -1);
      assert m == q - 1;
      NarrowValid(e, s, q, p, k);
      NarrowValid(e, s, q, m, q);
      SubstrOfValid(e, s, q, b, x);
    }
  }

  /** A window of narrow text that validate accepts is accepted too. */
  lemma NarrowValid(e: Encoding, s: seq<Unit>, q: nat, p: nat, k: nat)
    requires p <= k <= q <= |s| && Resolver.Narrow(e, s, 0, q) && ValidText(e, s, 0, q)
    ensures ValidText(e, s, p, k)
  {
    Resolver.NarrowChars(e, s, 0, p);
    JoinValid(e, s, 0, p, q);
    Resolver.NarrowChars(e, s, p, k);
    JoinValid(e, s, p, k, q);
  }

  /** copy() of a narrow string validate accepts holds the same units; copy()
      of a string of one unit throws. */
  lemma CopyNarrow(e: Encoding, s: seq<Unit>, q: nat)
    requires q <= |s| && Fits(e, s) && Resolver.Narrow(e, s, 0, q) && ValidText(e, s, 0, q)
    ensures SubstrDefined(e, s, q, 1, -1)
    ensures ValidRange(e, s, q, 1, -1) <==> 2 <= q
    ensures 2 <= q ==> SubstrUnits(e, s, q, 1, -1) == s[..q] && SubstrSize(e, s, q, 1, -1) == q
  {
    SubstrNarrow(e, s, q, 1, -1);
    if 2 <= q {
      assert s[0..q - 1] + s[q - 1..q] == s[..q];
    }
  }

  /** substr(b, x) with x past the last character ends one unit past the
      view; on a view of the whole buffer that is outside the buffer. */
  lemma SubstrPastEnd(e: Encoding, s: seq<Unit>, b: int, x: int)
    requires Resolves(e, s, |s|, b) && At(e, s, |s|, b) < |s| && x > |s|
    ensures Resolves(e, s, |s|, x) && ValidRange(e, s, |s|, b, x)
    ensures EndAt(e, s, |s|, x) == |s| + 1 && !SubstrDefined(e, s, |s|, b, x)
  {
  }

  /** The `+ 1` of a positive end ordinal is one unit, not one character:
      substr(1, 2) of "a", U+00E9 and the terminator in UTF-8 passes the range
      check but its piece [0, 2) ends inside the two units of U+00E9. */
  lemma SubstrSplitsChar(s: seq<Unit>)
    requires s == [0x61, 0xC3, 0xA9, 0x00]
    ensures Resolves(UTF8, s, 4, 1) && Resolves(UTF8, s, 4, 2)
    ensures ValidRange(UTF8, s, 4, 1, 2) && EndAt(UTF8, s, 4, 2) == 2
    ensures !Tiled(UTF8, s, 0, 2) && !SubstrDefined(UTF8, s, 4, 1, 2)
  {
    assert ReadLength(UTF8, s[0]) == 1 && ReadLength(UTF8, s[1]) == 2;
    assert Text.CharUnits(UTF8, s, 0) == [0x61];
    assert Decode(UTF8, [0x61]) == 0x61;
    assert Resolver.Hint(UTF8, 0x61) == 1;
    assert Resolver.Advance(UTF8, s, 1, 4, 0) == Some(1);
    assert Resolver.Advance(UTF8, s, 0, 4, 1) == Some(1);
    assert Resolver.Walk(UTF8, s, 1, 4, 0) == Some(0);
    assert Resolver.Walk(UTF8, s, 0, 4, 1) == Some(1);
    assert !Tiled(UTF8, s, 1, 2);
  }

  /** On ASCII text splice(src, n, sp, b, x) checks the range on this string
      and then inserts the units [Ordinal(n, b), EndAt) of the source at
      Ordinal(q, sp). */
  lemma SpliceAscii(e: Encoding, s: seq<Unit>, q: nat, d: Encoding, t: seq<Unit>, n: nat, sp: int, b: int, x: int)
    requires q <= |s| && n <= |t| && Resolver.Ascii(s, 0, q) && Resolver.Ascii(t, 0, n) && x <= n
    requires Ordinal(n, b) <= Ordinal(n, x) + if x > 0 then 1 else 0
    ensures Resolves(e, s, q, b) && Resolves(e, s, q, x)
    ensures ValidRange(e, s, q, b, x) <==> Ordinal(q, b) < Ordinal(q, x)
    ensures PieceSpliceDefined(e, s, q, d, t, n, sp, b, x)
    ensures At(e, s, q, sp) == Ordinal(q, sp) && At(d, t, n, b) == Ordinal(n, b)
    ensures EndAt(d, t, n, x) == Ordinal(n, x) + if x > 0 then 1 else 0
    ensures SpliceUnits(e, s, q, d, t, At(d, t, n, b), EndAt(d, t, n, x), sp)
      == s[0..At(e, s, q, sp)] + t[At(d, t, n, b)..EndAt(d, t, n, x)] + s[At(e, s, q, sp)..q]
  {
    AsciiAt(e, s, q, b);
    AsciiAt(e, s, q, x);
    AsciiAt(e, s, q, sp);
    AsciiAt(d, t, n, b);
    AsciiAt(d, t, n, x);
    var c, o, k := At(e, s, q, sp), At(d, t, n, b), EndAt(d, t, n, x);
    AsciiWindow(e, e, s, q, 0, c);
    AsciiWindow(d, e, t, n, o, k);
    AsciiWindow(e, e, s, q, c, q);
    SpliceCopies(e, s, q, d, t, o, k, sp);
  }

  /** rawSplice of windows that transcode to their own units copies them. */
  lemma SpliceCopies(e: Encoding, s: seq<Unit>, q: nat, d: Encoding, t: seq<Unit>, o: nat, k: nat, sp: int)
    requires q <= |s| && Resolves(e, s, q, sp) && At(e, s, q, sp) <= q && o <= k <= |t|
    requires Transcodable(e, e, s, 0, At(e, s, q, sp)) && Transcodable(d, e, t, o, k)
    requires Transcodable(e, e, s, At(e, s, q, sp), q)
    requires Transcode(e, e, s, 0, At(e, s, q, sp)) == s[0..At(e, s, q, sp)]
    requires Transcode(d, e, t, o, k) == t[o..k] && UnitsIn(e, Chars(d, t, o, k)) == k - o
    requires Transcode(e, e, s, At(e, s, q, sp), q) == s[At(e, s, q, sp)..q]
    ensures SpliceDefined(e, s, q, d, t, o, k, sp)
    ensures SpliceUnits(e, s, q, d, t, o, k, sp) == s[0..At(e, s, q, sp)] + t[o..k] + s[At(e, s, q, sp)..q]
  {
  }

  /** operator+ on ASCII strings: the units of this string but its last, those
      of the other but its last, then this string's last unit; a string of
      one unit, such as "", throws instead. */
  lemma PlusAscii(e: Encoding, s: seq<Unit>, q: nat, d: Encoding, t: seq<Unit>, n: nat)
    requires q <= |s| && 1 <= n <= |t| && Resolver.Ascii(s, 0, q) && Resolver.Ascii(t, 0, n)
    ensures Resolves(e, s, q, 1) && Resolves(e, s, q, -1)
    ensures ValidRange(e, s, q, 1, -1) <==> 2 <= q
    ensures 2 <= q ==>
      && PieceSpliceDefined(e, s, q, d, t, n, -1, 1, -1)
      && SpliceUnits(e, s, q, d, t, At(d, t, n, 1), EndAt(d, t, n, -1), -1) == s[0..q - 1] + t[0..n - 1] + s[q - 1..q]
  {
    SpliceAscii(e, s, q, d, t, n, -1, 1, -1);
  }

  /** splice checks its range on this string, not on the one it takes the
      piece from: "A".splice("Hello", -1, 2, -1) throws though 2..-1 is a valid
      range of "Hello". */
  lemma SpliceChecksThisView(a: seq<Unit>, hello: seq<Unit>)
    requires a == Units("A") + Nul && hello == Units("Hello") + Nul
    ensures Resolves(UTF8, a, 2, 2) && Resolves(UTF8, a, 2, -1) && !ValidRange(UTF8, a, 2, 2, -1)
    ensures Resolves(UTF8, hello, 6, 2) && Resolves(UTF8, hello, 6, -1) && ValidRange(UTF8, hello, 6, 2, -1)
  {
    SampleAscii();
    AsciiJoin(Units("A"), Nul);
    AsciiJoin(Units("Hello"), Nul);
    AsciiAt(UTF8, a, 2, 2);
    AsciiAt(UTF8, a, 2, -1);
    AsciiAt(UTF8, hello, 6, 2);
    AsciiAt(UTF8, hello, 6, -1);
  }

  lemma SampleAscii()
    ensures |Units("A")| == 1 && |Units("Hello")| == 5
    ensures Resolver.Ascii(Units("A"), 0, 1) && Resolver.Ascii(Units("Hello"), 0, 5) && Resolver.Ascii(Nul, 0, 1)
  {
  }

  /** On ASCII text cut(b, x) keeps the units before Ordinal(q, b) and those
      from the end of the x-th character. */
  lemma CutAscii(e: Encoding, s: seq<Unit>, q: nat, b: int, x: int)
    requires q <= |s| && Resolver.Ascii(s, 0, q) && x <= q
    ensures CutDefined(e, s, q, b, x)
    ensures CutUnits(e, s, q, b, x) == s[0..Ordinal(q, b)] + s[Ordinal(q, x) + (if x > 0 then 1 else 0)..q]
  {
    AsciiAt(e, s, q, b);
    AsciiAt(e, s, q, x);
    AsciiWindow(e, e, s, q, 0, At(e, s, q, b));
    AsciiWindow(e, e, s, q, EndAt(e, s, q, x), q);
  }

  /** "abc" and its terminator. */
  function AbcSample(): seq<Unit> {
    [0x61, 0x62, 0x63, 0x00]
  }

  /** cut checks no range: cut(3, 1) of "abc" keeps "ab" and then everything
      from "b" on, giving "abbc". */
  lemma CutUnchecked()
    ensures CutDefined(UTF8, AbcSample(), 4, 3, 1)
    ensures CutUnits(UTF8, AbcSample(), 4, 3, 1) == [0x61, 0x62, 0x62, 0x63, 0x00]
  {
    CutAscii(UTF8, AbcSample(), 4, 3, 1);
    assert Ordinal(4, 3) == 2 && Ordinal(4, 1) == 0;
    AbcParts();
  }

  lemma AbcParts()
    ensures AbcSample()[..2] + AbcSample()[1..4] == [0x61, 0x62, 0x62, 0x63, 0x00]
  {
  }

  /** An overlong NUL, 0xC0 0x80: a tiled character that validate refuses. */
  function OverlongSample(): seq<Unit> {
    [0xC0, 0x80]
  }

  /** Text that is tiled but not canonical re-encodes to fewer units than it
      occupies: rawSplice of a string holding the overlong NUL allocates two
      units for it and writes one, which SpliceDefined excludes. */
  lemma SpliceOverlong()
    ensures Resolves(UTF8, OverlongSample(), 2, 0) && At(UTF8, OverlongSample(), 2, 0) == 2
    ensures Tiled(UTF8, OverlongSample(), 0, 2) && !ValidText(UTF8, OverlongSample(), 0, 2)
    ensures Transcodable(UTF8, UTF8, OverlongSample(), 0, 2) && Transcode(UTF8, UTF8, OverlongSample(), 0, 2) == [0x00]
    ensures !SpliceDefined(UTF8, OverlongSample(), 2, UTF8, [], 0, 0, 0)
  {
  }

  // ---------------------------------------------------------------------------
  // The example program (docs/example.cpp)

  /** The units of a string literal, terminator included when written. */
  function Units(str: string): (u: seq<Unit>)
    ensures |u| == |str|
  {
    seq(|str|, i requires 0 <= i < |str| => str[i] as int)
  }

  /** The units of the example's literals, without their terminators. */
  function Hello(): seq<Unit> { Units("Hello,") }
  function World(): seq<Unit> { Units(" World!") }
  function Cruel(): seq<Unit> { Units(" Cruel") }

  /** The terminator a string literal ends with. */
  const Nul: seq<Unit> := [0]

  /** The literals are ASCII. */
  lemma ExampleAscii()
    ensures |Hello()| == 6 && |World()| == 7 && |Cruel()| == 6
    ensures Resolver.Ascii(Hello(), 0, 6) && Resolver.Ascii(World(), 0, 7)
    ensures Resolver.Ascii(Cruel(), 0, 6) && Resolver.Ascii(Nul, 0, 1)
  {
  }

  /** Joining ASCII units gives ASCII units. */
  lemma AsciiJoin(a: seq<Unit>, b: seq<Unit>)
    requires Resolver.Ascii(a, 0, |a|) && Resolver.Ascii(b, 0, |b|)
    ensures Resolver.Ascii(a + b, 0, |a + b|)
  {
    forall i | 0 <= i < |a + b| ensures (a + b)[i] < 0x80 {
      if i >= |a| { assert (a + b)[i] == b[i - |a|]; }
    }
  }

  /** The pieces of a joined sequence are its slices at the joins. */
  lemma Pieces2<T>(a: seq<T>, b: seq<T>)
    ensures (a + b)[0..|a|] == a && (a + b)[|a|..|a| + |b|] == b
  {
  }

  lemma Pieces3<T>(a: seq<T>, b: seq<T>, c: seq<T>)
    ensures (a + b + c)[0..|a|] == a && (a + b + c)[|a|..|a| + |b| + |c|] == b + c
  {
    assert a + b + c == a + (b + c);
  }

  lemma Inserted<T>(a: seq<T>, b: seq<T>, c: seq<T>, z: seq<T>)
    ensures a + b + (c + z) == a + b + c + z
  {
  }

  /** The units from the second of `b`'s through the last of `c`'s, then `z`. */
  lemma Tail4<T>(a: seq<T>, b: seq<T>, c: seq<T>, z: seq<T>)
    requires 1 <= |b|
    ensures (a + b + c + z)[|a| + 1..|a| + |b| + |c|] + (a + b + c + z)[|a| + |b| + |c|..|a| + |b| + |c| + |z|]
      == b[1..] + c + z
  {
    var u := a + b + c + z;
    assert u[|a| + 1..|a| + |b| + |c|] == b[1..] + c;
    assert u[|a| + |b| + |c|..|a| + |b| + |c| + |z|] == z;
  }

  /** utf8 hello("Hello,"), utf16 world(" World!") and utf32 cruel(" Cruel")
      hold their literals' units. */
  lemma ExampleLiterals(hello: seq<Unit>, world: seq<Unit>, cruel: seq<Unit>)
    requires hello == Hello() + Nul && world == World() + Nul && cruel == Cruel() + Nul
    ensures Transcodable(UTF8, UTF8, hello, 0, 7) && Transcode(UTF8, UTF8, hello, 0, 7) == hello
    ensures Transcodable(UTF8, UTF16, world, 0, 8) && Transcode(UTF8, UTF16, world, 0, 8) == world
    ensures Transcodable(UTF8, UTF32, cruel, 0, 7) && Transcode(UTF8, UTF32, cruel, 0, 7) == cruel
  {
    ExampleAscii();
    AsciiJoin(Hello(), Nul);
    AsciiJoin(World(), Nul);
    AsciiJoin(Cruel(), Nul);
    AsciiString(UTF8, UTF8, hello);
    AsciiString(UTF8, UTF16, world);
    AsciiString(UTF8, UTF32, cruel);
  }

  /** hello + world holds "Hello," then " World!" then the terminator. */
  lemma ExampleHelloWorld(hello: seq<Unit>, world: seq<Unit>)
    requires hello == Hello() + Nul && world == World() + Nul
    ensures Resolves(UTF8, hello, 7, 1) && Resolves(UTF8, hello, 7, -1) && ValidRange(UTF8, hello, 7, 1, -1)
    ensures PieceSpliceDefined(UTF8, hello, 7, UTF16, world, 8, -1, 1, -1)
    ensures SpliceUnits(UTF8, hello, 7, UTF16, world, At(UTF16, world, 8, 1), EndAt(UTF16, world, 8, -1), -1)
      == Hello() + World() + Nul
  {
    ExampleAscii();
    AsciiJoin(Hello(), Nul);
    AsciiJoin(World(), Nul);
    PlusAscii(UTF8, hello, 7, UTF16, world, 8);
    Pieces2(Hello(), Nul);
    Pieces2(World(), Nul);
  }

  /** length() of hello_world counts the terminator: 14. */
  lemma ExampleLength(hw: seq<Unit>)
    requires hw == Hello() + World() + Nul
    ensures Tiled(UTF8, hw, 0, 14) && |Chars(UTF8, hw, 0, 14)| == 14
  {
    ExampleAscii();
    AsciiJoin(Hello(), World());
    AsciiJoin(Hello() + World(), Nul);
    AsciiChars(UTF8, hw, 0, 14);
  }

  /** hello_world.splice(cruel, 7) inserts " Cruel" before the 7th character. */
  lemma ExampleSplice(hw: seq<Unit>, cruel: seq<Unit>)
    requires hw == Hello() + World() + Nul && cruel == Cruel() + Nul
    ensures Resolves(UTF8, hw, 14, 1) && Resolves(UTF8, hw, 14, -1) && ValidRange(UTF8, hw, 14, 1, -1)
    ensures PieceSpliceDefined(UTF8, hw, 14, UTF32, cruel, 7, 7, 1, -1)
    ensures SpliceUnits(UTF8, hw, 14, UTF32, cruel, At(UTF32, cruel, 7, 1), EndAt(UTF32, cruel, 7, -1), 7)
      == Hello() + Cruel() + World() + Nul
  {
    ExampleAscii();
    AsciiJoin(Hello(), World());
    AsciiJoin(Hello() + World(), Nul);
    AsciiJoin(Cruel(), Nul);
    SpliceAscii(UTF8, hw, 14, UTF32, cruel, 7, 7, 1, -1);
    Pieces3(Hello(), World(), Nul);
    Pieces2(Cruel(), Nul);
    Inserted(Hello(), Cruel(), World(), Nul);
  }

  /** sad, the splice converted into UTF-16, holds the same units, and
      sad.substr(8) holds "Cruel", " World!" and the terminator, which truth
      (UTF-8) keeps. */
  lemma ExampleTruth(sad: seq<Unit>)
    requires sad == Hello() + Cruel() + World() + Nul
    ensures Transcodable(UTF8, UTF16, sad, 0, 20) && Transcode(UTF8, UTF16, sad, 0, 20) == sad
    ensures SubstrDefined(UTF16, sad, 20, 8, -1) && ValidRange(UTF16, sad, 20, 8, -1)
    ensures SubstrUnits(UTF16, sad, 20, 8, -1) == Cruel()[1..] + World() + Nul
    ensures SubstrSize(UTF16, sad, 20, 8, -1) == 13
  {
    ExampleAscii();
    AsciiJoin(Hello(), Cruel());
    AsciiJoin(Hello() + Cruel(), World());
    AsciiJoin(Hello() + Cruel() + World(), Nul);
    AsciiString(UTF8, UTF16, sad);
    SubstrAscii(UTF16, sad, 20, 8, -1);
    Tail4(Hello(), Cruel(), World(), Nul);
  }

  /** What is written through a cursor on an empty buffer is all it holds. */
  lemma NothingBefore<T>(x: seq<T>)
    ensures [] + x == x
  {
  }

  /** Units that fit an encoding still fit it when joined. */
  lemma FitsJoin(e: Encoding, a: seq<Unit>, b: seq<Unit>)
    requires Fits(e, a) && Fits(e, b)
    ensures Fits(e, a + b)
  {
    forall i | 0 <= i < |a + b| ensures (a + b)[i] < Bound(e) {
      if i >= |a| { assert (a + b)[i] == b[i - |a|]; }
    }
  }
}
