/** utf_iterator and stringview (include/utf.h:24-160): a decoding iterator
    over a unit buffer and a window [first, last) of one. The methods are the
    source's loops, proved against the functions of Text and Resolver. The
    buffer is the sequence the iterators point into; it is never written
    through a view. */
module View {
  import opened Unicode
  import opened Codec
  import opened Text
  import Resolver
  import opened Wrappers

  /** utf_iterator: a position in a buffer and the codepoint last decoded there. */
  class Iterator {
    const enc: Encoding
    const buf: seq<Unit>
    var pos: nat
    var val: CodePoint

    /** utf_iterator(It pos): `val` value-initialised. */
    constructor (e: Encoding, s: seq<Unit>, p: nat)
      ensures enc == e && buf == s && pos == p && val == 0
    {
      enc, buf, pos, val := e, s, p, 0;
    }

    /** operator*: decodes the character at `pos` into `val` without moving,
        so dereferencing again yields the same codepoint. */
    method Deref() returns (c: CodePoint)
      requires pos < |buf| && pos + ReadLength(enc, buf[pos]) <= |buf|
      modifies this
      ensures pos == old(pos) && c == val
      ensures c == Decode(enc, CharUnits(enc, buf, pos))
    {
      val := DecodeUnits(enc, buf[pos..pos + ReadLength(enc, buf[pos])]);
      c := val;
    }

    /** operator++: moves `pos` past the character whose lead unit it reads. */
    method Advance()
      requires pos < |buf|
      modifies this
      ensures pos == old(pos) + ReadLength(enc, buf[old(pos)]) && val == old(val)
    {
      pos := pos + ReadLength(enc, buf[pos]);
    }

    /** operator!=: iterators differ when their positions do. */
    predicate Differs(other: Iterator)
      reads this, other
      ensures Differs(other) <==> pos != other.pos
    {
      pos != other.pos
    }

    /** operator==: the negation of operator!=, so iterators at one position
        are equal whatever their values and buffers. */
    predicate Equals(other: Iterator)
      reads this, other
      ensures Equals(other) <==> pos == other.pos
    {
      !Differs(other)
    }
  }

  /** stringview: the window [first, last) of `buf`, read in encoding `enc`. */
  class StringView {
    const enc: Encoding
    var buf: seq<Unit>
    var first: nat
    var last: nat

    /** The window lies inside the buffer. */
    predicate Valid()
      reads this
    {
      first <= last <= |buf|
    }

    /** stringview(first, last). */
    constructor (e: Encoding, s: seq<Unit>, p: nat, q: nat)
      requires p <= q <= |s|
      ensures Valid() && enc == e && buf == s && first == p && last == q
    {
      enc, buf, first, last := e, s, p, q;
    }

    /** begin(): an iterator at `first`. */
    method Begin() returns (it: Iterator)
      ensures fresh(it) && it.enc == enc && it.buf == buf && it.pos == first
    {
      it := new Iterator(enc, buf, first);
    }

    /** end(): an iterator at `last`. */
    method End() returns (it: Iterator)
      ensures fresh(it) && it.enc == enc && it.buf == buf && it.pos == last
    {
      it := new Iterator(enc, buf, last);
    }

    /** refocus(start, end): the view now covers [p, q) of `s`. */
    method Refocus(s: seq<Unit>, p: nat, q: nat)
      requires p <= q <= |s|
      modifies this
      ensures Valid() && buf == s && first == p && last == q
    {
      buf, first, last := s, p, q;
    }

    /** refocus(view): the view now covers what `v` covers. */
    method RefocusOn(v: StringView)
      requires v.Valid() && v.enc == enc
      modifies this
      ensures Valid() && buf == old(v.buf) && first == old(v.first) && last == old(v.last)
    {
      Refocus(v.buf, v.first, v.last);
    }

    /** codeunits(): the units in the view. */
    function CodeUnits(): (n: nat)
      requires Valid()
      reads this
      ensures n == last - first
    {
      last - first
    }

    /** bytes(): the units times the width of one unit. */
    function Bytes(): (b: nat)
      requires Valid()
      reads this
      ensures b == CodeUnits() * Width(enc)
    {
      CodeUnits() * Width(enc)
    }

    /** validate(): walks the characters by read_length and answers false at
        the first one that overruns `last`, fails the encoding's shape check or
        decodes to no scalar value. */
    method Validate() returns (ok: bool)
      requires Valid()
      ensures ok == ValidText(enc, buf, first, last)
    {
      var it := first;
      while it < last
        invariant first <= it <= last
        invariant ValidText(enc, buf, first, last) == ValidText(enc, buf, it, last)
        decreases last - it
      {
        var len := ReadLength(enc, buf[it]);
        if last - it < len {
          return false;
        }
        var shape := ValidateUnits(enc, buf[it..it + len]);
        if !shape {
          return false;
        }
        var cp := DecodeUnits(enc, buf[it..it + len]);
        if !IsScalar(cp) {
          return false;
        }
        it := it + len;
      }
      return true;
    }

    /** codepoints(): std::distance from begin() to end(), the number of
        increments that take the first iterator onto the second. The source
        has undefined behaviour unless they meet. */
    method Codepoints() returns (n: nat)
      requires Valid() && Tiled(enc, buf, first, last)
      ensures n == |Chars(enc, buf, first, last)|
    {
      var e, s, q := enc, buf, last;
      var it := Begin();
      var stop := End();
      n := 0;
      while it.Differs(stop)
        invariant it.enc == e && it.buf == s && stop.pos == q
        invariant it.pos <= q && Tiled(e, s, it.pos, q)
        invariant n + |Chars(e, s, it.pos, q)| == |Chars(e, s, first, q)|
        decreases q - it.pos
      {
        ghost var p := it.pos;
        it.Advance();
        CharsStep(e, s, p, it.pos, q);
        n := n + 1;
      }
    }

    /** codeunits<EDest>(): write_length in `t` summed over the decoded codepoints. */
    method CodeUnitsIn(t: Encoding) returns (cus: nat)
      requires Valid() && Tiled(enc, buf, first, last)
      ensures cus == UnitsIn(t, Chars(enc, buf, first, last))
    {
      var e, s, q := enc, buf, last;
      var it := Begin();
      var stop := End();
      cus := 0;
      while it.Differs(stop)
        invariant it.enc == e && it.buf == s && stop.pos == q
        invariant it.pos <= q && Tiled(e, s, it.pos, q)
        invariant cus + UnitsIn(t, Chars(e, s, it.pos, q)) == UnitsIn(t, Chars(e, s, first, q))
        decreases q - it.pos
      {
        ghost var p := it.pos;
        CharsStep(e, s, p, p + ReadLength(e, s[p]), q);
        var c := it.Deref();
        cus := cus + WriteLength(t, c);
        it.Advance();
        UnitsInStep(t, e, s, p, it.pos, q);
      }
    }

    /** bytes<EDest>(): the units in `t` times the width of one unit of `t`. */
    method BytesIn(t: Encoding) returns (b: nat)
      requires Valid() && Tiled(enc, buf, first, last)
      ensures b == UnitsIn(t, Chars(enc, buf, first, last)) * Width(t)
    {
      var cus := CodeUnitsIn(t);
      b := cus * Width(t);
    }

    /** to<EDest>(dest): encodes every decoded codepoint in `t` through the
        output cursor; the units land after what `dest` already holds. */
    method To(t: Encoding, dest: seq<Unit>) returns (out: seq<Unit>)
      requires Valid() && Transcodable(enc, t, buf, first, last)
      ensures out == dest + Transcode(enc, t, buf, first, last)
    {
      var e, s, q := enc, buf, last;
      ghost var all := Transcode(e, t, s, first, q);
      var it := Begin();
      var stop := End();
      out := dest;
      while it.Differs(stop)
        invariant it.enc == e && it.buf == s && stop.pos == q
        invariant it.pos <= q && Tiled(e, s, it.pos, q)
        invariant AllEncodable(t, Chars(e, s, it.pos, q))
        invariant out + EncodeAll(t, Chars(e, s, it.pos, q)) == dest + all
        decreases q - it.pos
      {
        ghost var p, before := it.pos, out;
        EncodeAllStep(t, e, s, p, p + ReadLength(e, s[p]), q);
        var c := it.Deref();
        out := EncodeTo(t, c, out);
        it.Advance();
        WriteStep(t, e, s, p, it.pos, q, c, before, out);
      }
    }

    /** The inner loop of codeidx: `k` increments of `it`, which land on
        `target` without reading outside [.., q) and leave its value alone. */
    static method Skip(it: Iterator, k: nat, ghost q: nat, ghost target: nat)
      requires q <= |it.buf| && Resolver.Advance(it.enc, it.buf, it.pos, q, k) == Some(target)
      modifies it
      ensures it.pos == target && it.val == old(it.val)
    {
      var e, s := it.enc, it.buf;
      var n := k;
      while n > 0
        invariant Resolver.Advance(e, s, it.pos, q, n) == Some(target)
        invariant it.val == old(it.val)
        decreases n
      {
        ghost var p := it.pos;
        Resolver.AdvanceStep(e, s, p, p + ReadLength(e, s[p]), q, n, target);
        it.Advance();
        Resolver.AdvanceStep(e, s, p, it.pos, q, n, target);
        n := n - 1;
      }
    }

    /** codeidx(idx): the sentinel codeunits() for ordinals out of range, else
        the walk Resolver.Walk describes, with `pointer` a utf_iterator. The
        source has undefined behaviour where Resolves fails. */
    method CodeIdx(idx: int) returns (r: int)
      requires Valid() && Resolver.Resolves(enc, buf, first, last, idx)
      ensures r == Resolver.CodeIdx(enc, buf, first, last, idx)
    {
      var cu: int := last - first;
      if idx == 0 || idx > cu || idx < 0 - cu {
        return cu;
      }
      var e, s, q := enc, buf, last;
      ghost var goal := Resolver.CodeIdx(e, s, first, q, idx);
      var marker := 0;
      var pointer := Begin();
      var steps := if idx < 0 then cu + idx else idx - 1;
      while steps > 0
        invariant pointer.enc == e && pointer.buf == s && 0 <= steps
        invariant Resolver.Walk(e, s, pointer.pos, q, steps).Some?
        invariant marker + Resolver.Walk(e, s, pointer.pos, q, steps).value == goal
        decreases steps
      {
        ghost var here, before := pointer.pos, marker;
        Resolver.WalkStep(e, s, here, q, steps, 0);
        var c := pointer.Deref();
        var plus := Resolver.Hint(e, c);
        Resolver.WalkStep(e, s, here, q, steps, plus);
        marker := marker + plus;
        ghost var target := Resolver.Advance(e, s, here, q, plus).value;
        Skip(pointer, plus, q, target);
        steps := steps - 1;
      }
      return marker;
    }
  }
}
