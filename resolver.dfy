/** What stringview::codeidx (include/utf.h:143-155) computes: the unit offset
    of a signed, 1-based character ordinal.

    The walk is modelled as written. Each step dereferences the iterator, which
    decodes the character under it; read_length is then applied to that
    decoded value, narrowed to the unit type, and the result is both added to
    the offset and used as the number of characters the iterator skips. On
    Narrow text, where every unit is a character whose decoded value
    read_length also takes for one unit, this is the offset of the
    character: any UTF-32 text (Utf32Narrow), UTF-16 text without high
    surrogates (Utf16Narrow), and UTF-8 text below 0x80 (AsciiIsNarrow). On
    other text it is not (Utf8Example, Utf16Example). A negative ordinal k
    takes codeunits() + k steps, a unit count used as a character count. A
    walk that dereferences or steps the iterator outside the view has
    undefined behaviour; Resolve says None. */
module Resolver {
  import opened Unicode
  import opened Codec
  import opened Wrappers
  import Text

  /** read_length applied to a decoded codepoint, as codeidx applies it: the
      argument is converted to the encoding's unit type first. */
  function Hint(e: Encoding, c: CodePoint): (n: nat)
    ensures 1 <= n <= 4
  {
    ReadLength(e, c % Bound(e))
  }

  /** Where the iterator at `pos` lands after `k` increments, or None when an
      increment would read the unit under an iterator outside the window. */
  function Advance(e: Encoding, s: seq<Unit>, pos: nat, q: nat, k: nat): (r: Option<nat>)
    requires q <= |s|
    ensures r.Some? ==> pos <= r.value
    decreases k
  {
    if k == 0 then Some(pos)
    else if pos < q then Advance(e, s, pos + ReadLength(e, s[pos]), q, k - 1)
    else None
  }

  /** k increments that stay defined move the iterator k units or more, and
      each starts before the end of the window. */
  lemma {:induction false} AdvanceBound(e: Encoding, s: seq<Unit>, pos: nat, q: nat, k: nat)
    requires q <= |s| && Advance(e, s, pos, q, k).Some?
    ensures pos + k <= Advance(e, s, pos, q, k).value
    ensures 0 < k ==> pos + k <= q
    decreases k
  {
    if 0 < k {
      AdvanceBound(e, s, pos + ReadLength(e, s[pos]), q, k - 1);
    }
  }

  /** The marker codeidx accumulates in `steps` passes of its loop from `pos`,
      or None when a pass dereferences the iterator where no whole character
      of the window lies. */
  function Walk(e: Encoding, s: seq<Unit>, pos: nat, q: nat, steps: nat): (r: Option<nat>)
    requires q <= |s|
    decreases steps
  {
    if steps == 0 then Some(0)
    else if pos < q && pos + ReadLength(e, s[pos]) <= q then
      var plus := Hint(e, Decode(e, Text.CharUnits(e, s, pos)));
      match Advance(e, s, pos, q, plus)
      case None => None
      case Some(next) =>
        match Walk(e, s, next, q, steps - 1)
        case None => None
        case Some(m) => Some(plus + m)
    else None
  }

  /** The marker of a defined walk is at least its number of passes, and
      after one pass or more it does not reach past the window. */
  lemma {:induction false} WalkBound(e: Encoding, s: seq<Unit>, pos: nat, q: nat, steps: nat)
    requires q <= |s| && Walk(e, s, pos, q, steps).Some?
    ensures steps <= Walk(e, s, pos, q, steps).value
    ensures 0 < steps ==> pos + Walk(e, s, pos, q, steps).value <= q
    decreases steps
  {
    if 0 < steps {
      var plus := Hint(e, Decode(e, Text.CharUnits(e, s, pos)));
      var next := Advance(e, s, pos, q, plus).value;
      AdvanceBound(e, s, pos, q, plus);
      WalkBound(e, s, next, q, steps - 1);
    }
  }

  /** The ordinals codeidx answers with codeunits() without walking. */
  predicate OutOfRange(cu: nat, idx: int) {
    idx == 0 || idx > cu || idx < -(cu as int)
  }

  /** The number of passes codeidx makes for an ordinal in range. */
  function StepCount(cu: nat, idx: int): (k: nat)
    requires !OutOfRange(cu, idx)
    ensures k < cu
  {
    if idx < 0 then cu + idx else idx - 1
  }

  /** codeidx of the view [p, q) of `s`, or None when its walk has undefined behaviour. */
  function Resolve(e: Encoding, s: seq<Unit>, p: nat, q: nat, idx: int): (r: Option<nat>)
    requires p <= q <= |s|
    ensures OutOfRange(q - p, idx) ==> r == Some(q - p)
    ensures !OutOfRange(q - p, idx) && r.Some? ==> StepCount(q - p, idx) <= r.value <= q - p
  {
    if OutOfRange(q - p, idx) then Some(q - p)
    else
      var r := Walk(e, s, p, q, StepCount(q - p, idx));
      if r.Some? then WalkBound(e, s, p, q, StepCount(q - p, idx)); r else r
  }

  /** codeidx is defined for `idx` on the view. */
  predicate Resolves(e: Encoding, s: seq<Unit>, p: nat, q: nat, idx: int)
    requires p <= q <= |s|
  {
    Resolve(e, s, p, q, idx).Some?
  }

  /** The offset codeidx returns: never past codeunits(), and for an ordinal
      in range at least the number of passes it makes. */
  function CodeIdx(e: Encoding, s: seq<Unit>, p: nat, q: nat, idx: int): (k: nat)
    requires p <= q <= |s| && Resolves(e, s, p, q, idx)
    ensures k <= q - p
    ensures !OutOfRange(q - p, idx) ==> StepCount(q - p, idx) <= k
  {
    Resolve(e, s, p, q, idx).value
  }

  /** A walk with a pass left starts on a whole character of the window, and
      the pass adds `plus`, the hint of that character, to what the walk from
      where its skips land adds. */
  lemma WalkStep(e: Encoding, s: seq<Unit>, pos: nat, q: nat, steps: nat, plus: nat)
    requires q <= |s| && 0 < steps && Walk(e, s, pos, q, steps).Some?
    ensures pos < q && pos + ReadLength(e, s[pos]) <= q
    ensures plus == Hint(e, Decode(e, Text.CharUnits(e, s, pos))) ==>
      && Advance(e, s, pos, q, plus).Some?
      && Walk(e, s, Advance(e, s, pos, q, plus).value, q, steps - 1).Some?
      && Walk(e, s, pos, q, steps).value
         == plus + Walk(e, s, Advance(e, s, pos, q, plus).value, q, steps - 1).value
  {
  }

  /** One increment of a skip that still has `k` increments to go: the
      iterator is inside the window, and from `pos'` the remaining k - 1
      increments land on the same place. */
  lemma AdvanceStep(e: Encoding, s: seq<Unit>, pos: nat, pos': nat, q: nat, k: nat, target: nat)
    requires q <= |s| && 0 < k && Advance(e, s, pos, q, k) == Some(target)
    requires pos < q ==> pos' == pos + ReadLength(e, s[pos])
    ensures pos < q && Advance(e, s, pos', q, k - 1) == Some(target)
  {
  }

  // ---------------------------------------------------------------------------
  // Properties

  /** The first character is at offset 0, on every view. */
  lemma FirstAtZero(e: Encoding, s: seq<Unit>, p: nat, q: nat)
    requires p <= q <= |s|
    ensures Resolves(e, s, p, q, 1) && CodeIdx(e, s, p, q, 1) == 0
  {
  }

  /** k increments of an iterator on a character boundary land k characters further on. */
  lemma {:induction false} AdvanceChars(e: Encoding, s: seq<Unit>, pos: nat, q: nat, k: nat, target: nat)
    requires pos <= q <= |s| && Text.Tiled(e, s, pos, q) && Advance(e, s, pos, q, k) == Some(target)
    ensures target <= q && Text.Tiled(e, s, target, q)
    ensures |Text.Chars(e, s, pos, q)| == k + |Text.Chars(e, s, target, q)|
    decreases k
  {
    if k > 0 {
      AdvanceStep(e, s, pos, pos + ReadLength(e, s[pos]), q, k, target);
      Text.CharsStep(e, s, pos, pos + ReadLength(e, s[pos]), q);
      AdvanceChars(e, s, pos + ReadLength(e, s[pos]), q, k - 1, target);
    }
  }

  /** A walk of `steps` passes from a character boundary needs at least
      `steps` characters: every pass skips one or more. */
  lemma {:induction false} WalkNeedsChars(e: Encoding, s: seq<Unit>, pos: nat, q: nat, steps: nat)
    requires pos <= q <= |s| && Text.Tiled(e, s, pos, q) && Walk(e, s, pos, q, steps).Some?
    ensures steps <= |Text.Chars(e, s, pos, q)|
    decreases steps
  {
    if steps > 0 {
      WalkStep(e, s, pos, q, steps, Hint(e, Decode(e, Text.CharUnits(e, s, pos))));
      AdvanceChars(e, s, pos, q, Hint(e, Decode(e, Text.CharUnits(e, s, pos))),
        Advance(e, s, pos, q, Hint(e, Decode(e, Text.CharUnits(e, s, pos)))).value);
      WalkNeedsChars(e, s, Advance(e, s, pos, q, Hint(e, Decode(e, Text.CharUnits(e, s, pos)))).value, q, steps - 1);
    }
  }

  /** codeidx(-1) takes codeunits() - 1 passes, so on a tiled view it is
      defined only when the view has at most one unit more than characters:
      every -1 ordinal (the default end of substr, and the one copy and
      operator+ use) is undefined behaviour on text with two multi-unit
      characters, or one of three or more units. */
  lemma LastNeedsNarrowText(e: Encoding, s: seq<Unit>, p: nat, q: nat)
    requires p < q <= |s| && Text.Tiled(e, s, p, q) && Resolves(e, s, p, q, -1)
    ensures (q - p) - 1 <= |Text.Chars(e, s, p, q)|
  {
    WalkNeedsChars(e, s, p, q, StepCount(q - p, -1));
  }

  /** Narrow text: every unit is a whole character, and read_length of its
      decoded value is 1 as well. */
  predicate Narrow(e: Encoding, s: seq<Unit>, p: nat, q: nat)
    requires p <= q <= |s|
  {
    forall i :: p <= i < q ==> ReadLength(e, s[i]) == 1 && Hint(e, Decode(e, [s[i]])) == 1
  }

  /** Narrow text read from `pos` on is narrow text. */
  lemma NarrowSuffix(e: Encoding, s: seq<Unit>, p: nat, pos: nat, q: nat)
    requires p <= pos <= q <= |s| && Narrow(e, s, p, q)
    ensures Narrow(e, s, pos, q)
  {
  }

  /** On narrow text each pass of the walk adds one unit and moves one character. */
  lemma {:induction false} WalkNarrow(e: Encoding, s: seq<Unit>, pos: nat, q: nat, steps: nat)
    requires pos <= q <= |s| && Narrow(e, s, pos, q) && steps <= q - pos
    ensures Walk(e, s, pos, q, steps) == Some(steps)
    decreases steps
  {
    if steps > 0 {
      assert ReadLength(e, s[pos]) == 1 && Hint(e, Decode(e, [s[pos]])) == 1;
      NarrowStep(e, s, pos, q);
      NarrowSuffix(e, s, pos, pos + 1, q);
      WalkNarrow(e, s, pos + 1, q, steps - 1);
    }
  }

  /** A pass of the walk over a unit that is a whole narrow character. */
  lemma NarrowStep(e: Encoding, s: seq<Unit>, pos: nat, q: nat)
    requires pos < q <= |s| && ReadLength(e, s[pos]) == 1 && Hint(e, Decode(e, [s[pos]])) == 1
    ensures pos + ReadLength(e, s[pos]) <= q && Hint(e, Decode(e, Text.CharUnits(e, s, pos))) == 1
    ensures Advance(e, s, pos, q, 1) == Some(pos + 1)
  {
    assert Text.CharUnits(e, s, pos) == [s[pos]];
    assert Advance(e, s, pos + 1, q, 0) == Some(pos + 1);
  }

  /** On narrow text codeidx is exact: ordinal k in 1..codeunits() is at unit
      k - 1, where the first k - 1 characters end, and ordinal -k is at
      codeunits() - k. */
  lemma ResolveNarrow(e: Encoding, s: seq<Unit>, p: nat, q: nat, idx: int)
    requires p <= q <= |s| && Narrow(e, s, p, q) && !OutOfRange(q - p, idx)
    ensures Resolves(e, s, p, q, idx)
    ensures 0 < idx ==> CodeIdx(e, s, p, q, idx) == idx - 1
    ensures idx < 0 ==> CodeIdx(e, s, p, q, idx) == (q - p) + idx
    ensures var k := CodeIdx(e, s, p, q, idx);
      Text.Tiled(e, s, p, p + k) && |Text.Chars(e, s, p, p + k)| == k
  {
    WalkNarrow(e, s, p, q, StepCount(q - p, idx));
    NarrowChars(e, s, p, p + CodeIdx(e, s, p, q, idx));
  }

  /** Every unit of narrow text is one character. */
  lemma {:induction false} NarrowChars(e: Encoding, s: seq<Unit>, p: nat, q: nat)
    requires p <= q <= |s| && Narrow(e, s, p, q)
    ensures Text.Tiled(e, s, p, q) && |Text.Chars(e, s, p, q)| == q - p
    decreases q - p
  {
    if p < q {
      NarrowSuffix(e, s, p, p + 1, q);
      NarrowChars(e, s, p + 1, q);
    }
  }

  /** Every UTF-32 text is narrow: each unit is a character, and so is the
      value it decodes to. */
  lemma Utf32Narrow(s: seq<Unit>, p: nat, q: nat)
    requires p <= q <= |s|
    ensures Narrow(UTF32, s, p, q)
  {
  }

  /** UTF-16 text without high surrogates is narrow. */
  lemma Utf16Narrow(s: seq<Unit>, p: nat, q: nat)
    requires p <= q <= |s| && Fits(UTF16, s)
    requires forall i :: p <= i < q ==> !(0xD800 <= s[i] < 0xDC00)
    ensures Narrow(UTF16, s, p, q)
  {
  }

  /** Units below 0x80. */
  predicate Ascii(s: seq<Unit>, p: nat, q: nat)
    requires p <= q <= |s|
  {
    forall i :: p <= i < q ==> s[i] < 0x80
  }

  /** ASCII text is narrow in every encoding. */
  lemma AsciiIsNarrow(e: Encoding, s: seq<Unit>, p: nat, q: nat)
    requires p <= q <= |s| && Ascii(s, p, q)
    ensures Narrow(e, s, p, q)
  {
    forall i | p <= i < q
      ensures ReadLength(e, s[i]) == 1 && Hint(e, Decode(e, [s[i]])) == 1
    {
      AsciiDecode(e, s[i]);
    }
  }

  /** A unit below 0x80 is a whole character that decodes to itself. */
  lemma AsciiDecode(e: Encoding, u: Unit)
    requires u < 0x80
    ensures ReadLength(e, u) == 1 && Decode(e, [u]) == u
  {
  }

  /** The buffer of the UTF-8 example: "é", "a" and the terminator. */
  function Utf8Sample(): seq<Unit> {
    [0xC3, 0xA9, 0x61, 0x00]
  }

  /** Its first character is the two units of U+00E9. */
  lemma Utf8SampleFirst()
    ensures Text.Tiled(UTF8, Utf8Sample(), 0, 2) && Text.Chars(UTF8, Utf8Sample(), 0, 2) == [0xE9]
    ensures Text.CharUnits(UTF8, Utf8Sample(), 0) == [0xC3, 0xA9]
  {
    var u := Text.CharUnits(UTF8, Utf8Sample(), 0);
    assert u == [0xC3, 0xA9];
    assert Utf8.Gathered(u, 1) == 0x03;
  }

  /** The first pass of the walk adds 3 and skips three characters, to the end. */
  lemma Utf8SampleSkip()
    ensures Hint(UTF8, Decode(UTF8, Text.CharUnits(UTF8, Utf8Sample(), 0))) == 3
    ensures Advance(UTF8, Utf8Sample(), 0, 4, 3) == Some(4)
  {
    var s := Utf8Sample();
    Utf8SampleFirst();
    assert Hint(UTF8, 0xE9) == 3;
    assert Advance(UTF8, s, 3, 4, 1) == Some(4);
  }

  /** So one pass answers 3 ... */
  lemma Utf8SampleOnePass()
    ensures Walk(UTF8, Utf8Sample(), 0, 4, 1) == Some(3)
  {
    Utf8SampleSkip();
  }

  /** ... and a second pass dereferences the iterator at the end. */
  lemma Utf8SampleThreePasses()
    ensures Walk(UTF8, Utf8Sample(), 0, 4, 3) == None
  {
    Utf8SampleSkip();
    assert Walk(UTF8, Utf8Sample(), 4, 4, 2) == None;
  }

  /** In that buffer codeidx(2) answers 3, one unit past where "a" starts (the
      decoded 0xE9 has the read_length of a three-byte lead), and codeidx(-1)
      walks past the end. */
  lemma Utf8Example()
    ensures Text.Tiled(UTF8, Utf8Sample(), 0, 2) && Text.Chars(UTF8, Utf8Sample(), 0, 2) == [0xE9]
    ensures Resolves(UTF8, Utf8Sample(), 0, 4, 2) && CodeIdx(UTF8, Utf8Sample(), 0, 4, 2) == 3
    ensures !Resolves(UTF8, Utf8Sample(), 0, 4, -1)
  {
    Utf8SampleFirst();
    Utf8SampleOnePass();
    Utf8SampleThreePasses();
  }

  /** The buffer of the UTF-16 example: U+1F600, "a" and the terminator. */
  function Utf16Sample(): seq<Unit> {
    [0xD83D, 0xDE00, 0x61, 0x00]
  }

  /** In that buffer codeidx(2) answers 1, inside the surrogate pair (0x1F600
      narrowed to 16 bits is no high surrogate). */
  lemma Utf16Example()
    ensures Text.Tiled(UTF16, Utf16Sample(), 0, 2) && Text.Chars(UTF16, Utf16Sample(), 0, 2) == [0x1F600]
    ensures Resolves(UTF16, Utf16Sample(), 0, 4, 2) && CodeIdx(UTF16, Utf16Sample(), 0, 4, 2) == 1
  {
    var s := Utf16Sample();
    var u := Text.CharUnits(UTF16, s, 0);
    assert u == [0xD83D, 0xDE00];
    assert Decode(UTF16, u) == 0x1F600;
    assert Hint(UTF16, 0x1F600) == 1;
    assert Advance(UTF16, s, 0, 4, 1) == Some(2);
  }
}
