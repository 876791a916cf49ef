/** What a decoding view computes, as functions of the encoding, a buffer and
    a window [p, q) of it (include/utf.h:83-138): how the units split into
    characters, the decoded codepoints, whole-window validation, target sizes
    and transcoded output. The view's loops are proved against these; a whole
    string is the window [0, |s|). */
module Text {
  import opened Unicode
  import opened Codec

  /** `u` holds the units of one character: read_length of its first unit is its length. */
  predicate IsChar(e: Encoding, u: seq<Unit>) {
    1 <= |u| && |u| == ReadLength(e, u[0])
  }

  /** What validate asks of one character: the encoding's shape check passes
      and the decoded value is a scalar value. */
  predicate Accepted(e: Encoding, u: seq<Unit>)
    requires IsChar(e, u)
  {
    Validate(e, u) && IsScalar(Decode(e, u))
  }

  /** The units of the character that starts at `p`. */
  function CharUnits(e: Encoding, s: seq<Unit>, p: nat): (u: seq<Unit>)
    requires p < |s| && p + ReadLength(e, s[p]) <= |s|
    ensures IsChar(e, u)
  {
    s[p..p + ReadLength(e, s[p])]
  }

  /** An iterator started at `p`, stepping by read_length, lands exactly on
      `q`: every decode on the way stays inside the window and the walk from
      begin reaches end. */
  predicate Tiled(e: Encoding, s: seq<Unit>, p: nat, q: nat)
    requires p <= q <= |s|
    decreases q - p
  {
    p == q || (p + ReadLength(e, s[p]) <= q && Tiled(e, s, p + ReadLength(e, s[p]), q))
  }

  /** The codepoints the iterator yields from `p` to `q`. */
  function Chars(e: Encoding, s: seq<Unit>, p: nat, q: nat): seq<CodePoint>
    requires p <= q <= |s| && Tiled(e, s, p, q)
    decreases q - p
  {
    if p == q then []
    else [Decode(e, CharUnits(e, s, p))] + Chars(e, s, p + ReadLength(e, s[p]), q)
  }

  /** What stringview::validate accepts: every character fits before the end
      and passes validate. */
  predicate ValidText(e: Encoding, s: seq<Unit>, p: nat, q: nat)
    requires p <= q <= |s|
    decreases q - p
  {
    p == q ||
      var n := ReadLength(e, s[p]);
      n <= q - p && Accepted(e, CharUnits(e, s, p)) && ValidText(e, s, p + n, q)
  }

  predicate AllScalar(cps: seq<CodePoint>) {
    forall i :: 0 <= i < |cps| ==> IsScalar(cps[i])
  }

  predicate AllEncodable(t: Encoding, cps: seq<CodePoint>) {
    forall i :: 0 <= i < |cps| ==> Encodable(t, cps[i])
  }

  /** The units that encoding every codepoint in order writes. */
  function EncodeAll(t: Encoding, cps: seq<CodePoint>): (r: seq<Unit>)
    requires AllEncodable(t, cps)
    ensures Fits(t, r)
    decreases |cps|
  {
    if |cps| == 0 then [] else Encode(t, cps[0]) + EncodeAll(t, cps[1..])
  }

  /** The sum of write_length over the codepoints. */
  function UnitsIn(t: Encoding, cps: seq<CodePoint>): nat
    decreases |cps|
  {
    if |cps| == 0 then 0 else WriteLength(t, cps[0]) + UnitsIn(t, cps[1..])
  }

  /** The window can be transcoded into `t`: it is tiled and every codepoint is encodable. */
  predicate Transcodable(src: Encoding, t: Encoding, s: seq<Unit>, p: nat, q: nat) {
    p <= q <= |s| && Tiled(src, s, p, q) && AllEncodable(t, Chars(src, s, p, q))
  }

  /** The units `to<t>` writes for the window. */
  function Transcode(src: Encoding, t: Encoding, s: seq<Unit>, p: nat, q: nat): (r: seq<Unit>)
    requires Transcodable(src, t, s, p, q)
    ensures Fits(t, r)
  {
    EncodeAll(t, Chars(src, s, p, q))
  }

  // ---------------------------------------------------------------------------
  // Moving and joining windows

  /** The units of each character from `p` to `q`, in order. Windows with
      the same pieces have the same codepoints and pass validate together, so
      the lemmas that move windows are proved on the pieces, which read_length
      alone determines. */
  function Pieces(e: Encoding, s: seq<Unit>, p: nat, q: nat): seq<seq<Unit>>
    requires p <= q <= |s| && Tiled(e, s, p, q)
    decreases q - p
  {
    if p == q then [] else [CharUnits(e, s, p)] + Pieces(e, s, p + ReadLength(e, s[p]), q)
  }

  /** The first piece of a window and the pieces after it. */
  lemma PiecesFront(e: Encoding, s: seq<Unit>, p: nat, q: nat)
    requires p <= q <= |s| && Tiled(e, s, p, q)
    ensures var ps := Pieces(e, s, p, q);
      && (|ps| == 0 <==> p == q)
      && (p < q ==> var n := ReadLength(e, s[p]);
            p + n <= q && Tiled(e, s, p + n, q)
            && ps[0] == CharUnits(e, s, p) && |ps[0]| == n && ps[1..] == Pieces(e, s, p + n, q))
  {
  }

  /** Windows with the same pieces have the same codepoints ... */
  lemma {:induction false} PiecesChars(e: Encoding, s: seq<Unit>, p: nat, q: nat, t: seq<Unit>, o: nat, k: nat)
    requires p <= q <= |s| && Tiled(e, s, p, q) && o <= k <= |t| && Tiled(e, t, o, k)
    requires Pieces(e, s, p, q) == Pieces(e, t, o, k)
    ensures Chars(e, s, p, q) == Chars(e, t, o, k)
    decreases q - p, 1
  {
    PiecesFront(e, s, p, q);
    PiecesFront(e, t, o, k);
    if p < q {
      PiecesCharsFront(e, s, p, p + ReadLength(e, s[p]), q, t, o, o + ReadLength(e, t[o]), k);
    }
  }

  /** The step of PiecesChars, past first characters ending at `m` and `n`. */
  lemma {:induction false} PiecesCharsFront(e: Encoding, s: seq<Unit>, p: nat, m: nat, q: nat,
                                            t: seq<Unit>, o: nat, n: nat, k: nat)
    requires p < q <= |s| && Tiled(e, s, p, q) && o <= k <= |t| && Tiled(e, t, o, k)
    requires Pieces(e, s, p, q) == Pieces(e, t, o, k)
    requires m == p + ReadLength(e, s[p]) && n == o + ReadLength(e, t[o])
    ensures Chars(e, s, p, q) == Chars(e, t, o, k)
    decreases q - p, 0
  {
    PiecesFront(e, s, p, q);
    PiecesFront(e, t, o, k);
    FrontStep(e, s, p, m, q);
    FrontStep(e, t, o, n, k);
    PiecesChars(e, s, m, q, t, n, k);
  }

  /** ... and pass validate together. */
  lemma {:induction false} PiecesValid(e: Encoding, s: seq<Unit>, p: nat, q: nat, t: seq<Unit>, o: nat, k: nat)
    requires p <= q <= |s| && Tiled(e, s, p, q) && o <= k <= |t| && Tiled(e, t, o, k)
    requires Pieces(e, s, p, q) == Pieces(e, t, o, k)
    ensures ValidText(e, s, p, q) <==> ValidText(e, t, o, k)
    decreases q - p, 1
  {
    PiecesFront(e, s, p, q);
    PiecesFront(e, t, o, k);
    if p < q {
      PiecesValidFront(e, s, p, p + ReadLength(e, s[p]), q, t, o, o + ReadLength(e, t[o]), k);
    }
  }

  /** The step of PiecesValid, past first characters ending at `m` and `n`. */
  lemma {:induction false} PiecesValidFront(e: Encoding, s: seq<Unit>, p: nat, m: nat, q: nat,
                                            t: seq<Unit>, o: nat, n: nat, k: nat)
    requires p < q <= |s| && Tiled(e, s, p, q) && o <= k <= |t| && Tiled(e, t, o, k)
    requires Pieces(e, s, p, q) == Pieces(e, t, o, k)
    requires m == p + ReadLength(e, s[p]) && n == o + ReadLength(e, t[o])
    ensures ValidText(e, s, p, q) <==> ValidText(e, t, o, k)
    decreases q - p, 0
  {
    PiecesFront(e, s, p, q);
    PiecesFront(e, t, o, k);
    FrontStep(e, s, p, m, q);
    FrontStep(e, t, o, n, k);
    ValidStep(e, s, p, m, q);
    ValidStep(e, t, o, n, k);
    PiecesValid(e, s, m, q, t, n, k);
  }

  /** The same units at `p` in `s` and at `o` in `t`: a window of `s` and the
      equally long window of `t` that starts at `o`. */
  predicate SameUnits(s: seq<Unit>, p: nat, q: nat, t: seq<Unit>, o: nat) {
    p <= q <= |s| && o + (q - p) <= |t| && s[p..q] == t[o..o + (q - p)]
  }

  /** Agreeing windows agree on their first unit, on any leading part and on
      what follows it. */
  lemma SameSplit(s: seq<Unit>, p: nat, q: nat, t: seq<Unit>, o: nat, n: nat)
    requires SameUnits(s, p, q, t, o) && p + n <= q
    ensures p < q ==> s[p] == t[o]
    ensures s[p..p + n] == t[o..o + n] && SameUnits(s, p + n, q, t, o + n)
  {
    var k := q - p;
    var w := s[p..q];
    if p < q {
      assert s[p] == w[0] && t[o] == t[o..o + k][0];
    }
    var a, b := s[p..p + n], t[o..o + n];
    forall i | 0 <= i < n ensures a[i] == b[i] {
      assert a[i] == w[i] && b[i] == t[o..o + k][i];
    }
    var c, d := s[p + n..q], t[o + n..o + k];
    forall i | 0 <= i < k - n ensures c[i] == d[i] {
      assert c[i] == w[n + i] && d[i] == t[o..o + k][n + i];
    }
  }

  /** Agreeing windows, [p, q) of `s` and [o, k) of `t`, split into the same pieces. */
  lemma {:induction false} ShiftPieces(e: Encoding, s: seq<Unit>, p: nat, q: nat, t: seq<Unit>, o: nat, k: nat)
    requires SameUnits(s, p, q, t, o) && k == o + (q - p)
    ensures Tiled(e, s, p, q) <==> Tiled(e, t, o, k)
    ensures Tiled(e, s, p, q) ==> Pieces(e, s, p, q) == Pieces(e, t, o, k)
    decreases q - p, 1
  {
    if p < q {
      SameSplit(s, p, q, t, o, 0);
      ShiftFront(e, s, p, p + ReadLength(e, s[p]), q, t, o, o + ReadLength(e, t[o]), k);
    }
  }

  /** The step of ShiftPieces: the first characters, ending at `m` and `n`,
      agree, and so do the windows after them. */
  lemma {:induction false} ShiftFront(e: Encoding, s: seq<Unit>, p: nat, m: nat, q: nat,
                                      t: seq<Unit>, o: nat, n: nat, k: nat)
    requires SameUnits(s, p, q, t, o) && p < q && k == o + (q - p)
    requires m == p + ReadLength(e, s[p]) && n == o + ReadLength(e, t[o])
    ensures Tiled(e, s, p, q) <==> Tiled(e, t, o, k)
    ensures Tiled(e, s, p, q) ==> Pieces(e, s, p, q) == Pieces(e, t, o, k)
    decreases q - p, 0
  {
    SameSplit(s, p, q, t, o, 0);
    FrontStep(e, s, p, m, q);
    FrontStep(e, t, o, n, k);
    if m <= q {
      SameSplit(s, p, q, t, o, m - p);
      ShiftPieces(e, s, m, q, t, n, k);
      assert CharUnits(e, s, p) == CharUnits(e, t, o);
    }
  }

  /** A window whose first character ends at `m` is tiled exactly when the
      rest of it is, and then splits into that character and the rest. */
  lemma FrontStep(e: Encoding, s: seq<Unit>, p: nat, m: nat, q: nat)
    requires p < q <= |s| && m == p + ReadLength(e, s[p])
    ensures Tiled(e, s, p, q) <==> m <= q && Tiled(e, s, m, q)
    ensures Tiled(e, s, p, q) ==> Pieces(e, s, p, q) == [CharUnits(e, s, p)] + Pieces(e, s, m, q)
  {
  }

  /** ... so they decode to the same codepoints ... */
  lemma ShiftChars(e: Encoding, s: seq<Unit>, p: nat, q: nat, t: seq<Unit>, o: nat, k: nat)
    requires SameUnits(s, p, q, t, o) && k == o + (q - p) && Tiled(e, s, p, q)
    ensures Tiled(e, t, o, k) && Chars(e, s, p, q) == Chars(e, t, o, k)
  {
    ShiftPieces(e, s, p, q, t, o, k);
    PiecesChars(e, s, p, q, t, o, k);
  }

  /** ... and pass validate together, tiled or not. */
  lemma {:induction false} ShiftValid(e: Encoding, s: seq<Unit>, p: nat, q: nat, t: seq<Unit>, o: nat, k: nat)
    requires SameUnits(s, p, q, t, o) && k == o + (q - p)
    ensures ValidText(e, s, p, q) <==> ValidText(e, t, o, k)
  {
    ShiftPieces(e, s, p, q, t, o, k);
    if ValidText(e, s, p, q) { ValidIsTiled(e, s, p, q); }
    if ValidText(e, t, o, k) { ValidIsTiled(e, t, o, k); }
    if Tiled(e, s, p, q) {
      PiecesValid(e, s, p, q, t, o, k);
    }
  }

  /** A window reads the same as the whole of its own slice. */
  lemma Slice(e: Encoding, s: seq<Unit>, p: nat, q: nat)
    requires p <= q <= |s|
    ensures Tiled(e, s, p, q) <==> Tiled(e, s[p..q], 0, q - p)
    ensures Tiled(e, s, p, q) ==> Chars(e, s, p, q) == Chars(e, s[p..q], 0, q - p)
    ensures ValidText(e, s, p, q) <==> ValidText(e, s[p..q], 0, q - p)
  {
    var w := s[p..q];
    assert SameUnits(s, p, q, w, 0) by { assert w[0..q - p] == w; }
    ShiftPieces(e, s, p, q, w, 0, q - p);
    if Tiled(e, s, p, q) {
      ShiftChars(e, s, p, q, w, 0, q - p);
    }
    ShiftValid(e, s, p, q, w, 0, q - p);
  }

  /** Walking from `p` to `q` and on to `r` is walking from `p` to `r`, and the
      codepoints are those of the two parts in order. */
  lemma {:induction false} Join(e: Encoding, s: seq<Unit>, p: nat, q: nat, r: nat)
    requires p <= q <= r <= |s| && Tiled(e, s, p, q) && Tiled(e, s, q, r)
    ensures Tiled(e, s, p, r)
    ensures Chars(e, s, p, r) == Chars(e, s, p, q) + Chars(e, s, q, r)
    decreases q - p
  {
    if p < q {
      Join(e, s, p + ReadLength(e, s[p]), q, r);
      Regroup([Decode(e, CharUnits(e, s, p))], Chars(e, s, p + ReadLength(e, s[p]), q), Chars(e, s, q, r));
    }
  }

  /** A window whose first character fits passes validate exactly when that
      character does and the rest of the window passes. */
  lemma ValidStep(e: Encoding, s: seq<Unit>, p: nat, m: nat, q: nat)
    requires p < q <= |s| && m == p + ReadLength(e, s[p]) && m <= q
    ensures ValidText(e, s, p, q) == (Accepted(e, CharUnits(e, s, p)) && ValidText(e, s, m, q))
  {
  }

  /** Past a tiled prefix, the whole passes validate exactly when both parts do. */
  lemma {:induction false} JoinValid(e: Encoding, s: seq<Unit>, p: nat, q: nat, r: nat)
    requires p <= q <= r <= |s| && Tiled(e, s, p, q)
    ensures ValidText(e, s, p, r) <==> ValidText(e, s, p, q) && ValidText(e, s, q, r)
    decreases q - p, 1
  {
    if p < q {
      JoinValidFront(e, s, p, p + ReadLength(e, s[p]), q, r);
    }
  }

  /** The step of JoinValid, past the first character, which ends at `m`. */
  lemma {:induction false} JoinValidFront(e: Encoding, s: seq<Unit>, p: nat, m: nat, q: nat, r: nat)
    requires p < q <= r <= |s| && Tiled(e, s, p, q) && m == p + ReadLength(e, s[p])
    ensures ValidText(e, s, p, r) <==> ValidText(e, s, p, q) && ValidText(e, s, q, r)
    decreases q - p, 0
  {
    FrontStep(e, s, p, m, q);
    ValidStep(e, s, p, m, q);
    ValidStep(e, s, p, m, r);
    JoinValid(e, s, m, q, r);
  }

  /** The two halves of a concatenation sit at 0 and at |a| in it. */
  lemma Halves(a: seq<Unit>, b: seq<Unit>)
    ensures SameUnits(a, 0, |a|, a + b, 0) && SameUnits(b, 0, |b|, a + b, |a|)
  {
    var ab := a + b;
    assert ab[0..|a|] == a && ab[|a|..|a| + |b|] == b;
  }

  /** Two whole buffers side by side: the characters of the concatenation are
      those of the first followed by those of the second. */
  lemma Append(e: Encoding, a: seq<Unit>, b: seq<Unit>)
    requires Tiled(e, a, 0, |a|) && Tiled(e, b, 0, |b|)
    ensures Tiled(e, a + b, 0, |a + b|)
    ensures Chars(e, a + b, 0, |a + b|) == Chars(e, a, 0, |a|) + Chars(e, b, 0, |b|)
  {
    HalvesChars(e, a, b);
    Join(e, a + b, 0, |a|, |a + b|);
  }

  /** The halves of a concatenation of tiled buffers are tiled, with their codepoints. */
  lemma HalvesChars(e: Encoding, a: seq<Unit>, b: seq<Unit>)
    requires Tiled(e, a, 0, |a|) && Tiled(e, b, 0, |b|)
    ensures Tiled(e, a + b, 0, |a|) && Chars(e, a + b, 0, |a|) == Chars(e, a, 0, |a|)
    ensures Tiled(e, a + b, |a|, |a + b|) && Chars(e, a + b, |a|, |a + b|) == Chars(e, b, 0, |b|)
  {
    var ab := a + b;
    Halves(a, b);
    ShiftChars(e, a, 0, |a|, ab, 0, |a|);
    ShiftChars(e, b, 0, |b|, ab, |a|, |ab|);
  }

  /** ... and, after a tiled first buffer, it passes validate exactly when both do. */
  lemma AppendValid(e: Encoding, a: seq<Unit>, b: seq<Unit>)
    requires Tiled(e, a, 0, |a|)
    ensures ValidText(e, a + b, 0, |a + b|) <==> ValidText(e, a, 0, |a|) && ValidText(e, b, 0, |b|)
  {
    HalvesValid(e, a, b);
    JoinValid(e, a + b, 0, |a|, |a + b|);
  }

  /** The halves of a concatenation pass validate as the two buffers do. */
  lemma HalvesValid(e: Encoding, a: seq<Unit>, b: seq<Unit>)
    ensures Tiled(e, a, 0, |a|) ==> Tiled(e, a + b, 0, |a|)
    ensures ValidText(e, a + b, 0, |a|) == ValidText(e, a, 0, |a|)
    ensures ValidText(e, a + b, |a|, |a + b|) == ValidText(e, b, 0, |b|)
  {
    var ab := a + b;
    Halves(a, b);
    ShiftPieces(e, a, 0, |a|, ab, 0, |a|);
    ShiftValid(e, a, 0, |a|, ab, 0, |a|);
    ShiftValid(e, b, 0, |b|, ab, |a|, |ab|);
  }

  /** The units of one character, as a whole buffer. */
  lemma OneChar(e: Encoding, u: seq<Unit>)
    requires IsChar(e, u)
    ensures Tiled(e, u, 0, |u|) && Chars(e, u, 0, |u|) == [Decode(e, u)]
    ensures ValidText(e, u, 0, |u|) <==> Accepted(e, u)
  {
    assert CharUnits(e, u, 0) == u;
  }

  // ---------------------------------------------------------------------------
  // Properties of one window

  /** The window validate accepts is tiled. */
  lemma {:induction false} ValidIsTiled(e: Encoding, s: seq<Unit>, p: nat, q: nat)
    requires p <= q <= |s| && ValidText(e, s, p, q)
    ensures Tiled(e, s, p, q)
    decreases q - p
  {
    if p < q {
      ValidIsTiled(e, s, p + ReadLength(e, s[p]), q);
    }
  }

  /** The first codepoint of a window is its first character decoded; the rest
      are those of the window after it. */
  lemma CharsFront(e: Encoding, s: seq<Unit>, p: nat, q: nat)
    requires p < q <= |s| && Tiled(e, s, p, q)
    ensures var n := ReadLength(e, s[p]);
      && p + n <= q && Tiled(e, s, p + n, q)
      && Chars(e, s, p, q) == [Decode(e, CharUnits(e, s, p))] + Chars(e, s, p + n, q)
  {
  }

  lemma SplitAt(s: seq<Unit>, p: nat, m: nat, q: nat)
    requires p <= m <= q <= |s|
    ensures s[p..q] == s[p..m] + s[m..q]
  {
  }

  /** Any slice of a buffer of units of `e` holds units of `e`. */
  lemma FitsSlice(e: Encoding, s: seq<Unit>, i: nat, j: nat)
    requires i <= j <= |s| && Fits(e, s)
    ensures Fits(e, s[i..j])
  {
    forall k | 0 <= k < j - i ensures s[i..j][k] < Bound(e) {
      assert s[i..j][k] == s[i + k];
    }
  }

  /** A view never has more codepoints than code units. */
  lemma {:induction false} CharsAtMostUnits(e: Encoding, s: seq<Unit>, p: nat, q: nat)
    requires p <= q <= |s| && Tiled(e, s, p, q)
    ensures |Chars(e, s, p, q)| <= q - p
    decreases q - p
  {
    if p < q {
      CharsAtMostUnits(e, s, p + ReadLength(e, s[p]), q);
    }
  }

  /** A sequence is all scalar values exactly when its head and its tail are. */
  lemma AllScalarFront(cps: seq<CodePoint>)
    requires |cps| > 0
    ensures AllScalar(cps) <==> IsScalar(cps[0]) && AllScalar(cps[1..])
  {
    if IsScalar(cps[0]) && AllScalar(cps[1..]) {
      forall i | 0 <= i < |cps| ensures IsScalar(cps[i]) {
        if i > 0 { assert cps[i] == cps[1..][i - 1]; }
      }
    }
  }

  /** The codepoints of a window validate accepts are scalar values. */
  lemma {:induction false} ValidIsScalar(e: Encoding, s: seq<Unit>, p: nat, q: nat)
    requires p <= q <= |s| && ValidText(e, s, p, q)
    ensures Tiled(e, s, p, q) && AllScalar(Chars(e, s, p, q))
    decreases q - p
  {
    ValidIsTiled(e, s, p, q);
    if p < q {
      ValidIsScalar(e, s, p + ReadLength(e, s[p]), q);
      CharsFront(e, s, p, q);
      ConsParts(Decode(e, CharUnits(e, s, p)), Chars(e, s, p + ReadLength(e, s[p]), q));
      AllScalarFront(Chars(e, s, p, q));
    }
  }

  /** The units of a window validate accepts are the encodings of its codepoints. */
  lemma {:induction false} ReencodeValid(e: Encoding, s: seq<Unit>, p: nat, q: nat)
    requires p <= q <= |s| && Fits(e, s) && ValidText(e, s, p, q)
    ensures Tiled(e, s, p, q) && AllEncodable(e, Chars(e, s, p, q))
    ensures EncodeAll(e, Chars(e, s, p, q)) == s[p..q]
    decreases q - p, 1
  {
    if p < q {
      ReencodeFront(e, s, p, p + ReadLength(e, s[p]), q);
    } else {
      assert s[p..q] == [];
    }
  }

  /** The step of ReencodeValid: a character validate accepts, ending at `m`,
      in front of a window that encodes back to its own units. */
  lemma {:induction false} ReencodeFront(e: Encoding, s: seq<Unit>, p: nat, m: nat, q: nat)
    requires p < q <= |s| && Fits(e, s) && ValidText(e, s, p, q) && m == p + ReadLength(e, s[p])
    ensures Tiled(e, s, p, q) && AllEncodable(e, Chars(e, s, p, q))
    ensures EncodeAll(e, Chars(e, s, p, q)) == s[p..q]
    decreases q - p, 0
  {
    ValidFront(e, s, p, q);
    ReencodeValid(e, s, m, q);
    CharFits(e, s, p);
    CharsFront(e, s, p, q);
    CanonicalCons(e, CharUnits(e, s, p), Chars(e, s, m, q), s[m..q]);
    assert EncodeAll(e, Chars(e, s, p, q)) == s[p..m] + s[m..q];
    SplitAt(s, p, m, q);
  }

  /** A nonempty window validate accepts: its first character fits, passes,
      and what follows it is accepted too. */
  lemma ValidFront(e: Encoding, s: seq<Unit>, p: nat, q: nat)
    requires p < q <= |s| && ValidText(e, s, p, q)
    ensures p + ReadLength(e, s[p]) <= q && Accepted(e, CharUnits(e, s, p))
    ensures ValidText(e, s, p + ReadLength(e, s[p]), q)
  {
  }

  /** The units of a character are a slice of the buffer, and fit when the buffer does. */
  lemma CharFits(e: Encoding, s: seq<Unit>, p: nat)
    requires p < |s| && p + ReadLength(e, s[p]) <= |s| && Fits(e, s)
    ensures CharUnits(e, s, p) == s[p..p + ReadLength(e, s[p])] && Fits(e, CharUnits(e, s, p))
  {
    FitsSlice(e, s, p, p + ReadLength(e, s[p]));
  }

  /** A character validate accepts, encoded again in front of the encoding of
      further codepoints, gives back its own units in front of theirs. */
  lemma CanonicalCons(e: Encoding, u: seq<Unit>, cps: seq<CodePoint>, rest: seq<Unit>)
    requires Fits(e, u) && IsChar(e, u) && Accepted(e, u)
    requires AllEncodable(e, cps) && EncodeAll(e, cps) == rest
    ensures AllEncodable(e, [Decode(e, u)] + cps) && EncodeAll(e, [Decode(e, u)] + cps) == u + rest
  {
    Codec.ValidIsCanonical(e, u);
    EncodeAllCons(e, Decode(e, u), cps, u, rest);
  }

  /** The units for a codepoint followed by others are those of the codepoint
      followed by those of the others. */
  lemma EncodeAllCons(t: Encoding, c: CodePoint, cps: seq<CodePoint>, u: seq<Unit>, rest: seq<Unit>)
    requires Encodable(t, c) && Encode(t, c) == u
    requires AllEncodable(t, cps) && EncodeAll(t, cps) == rest
    ensures AllEncodable(t, [c] + cps) && EncodeAll(t, [c] + cps) == u + rest
  {
    var all := [c] + cps;
    assert all[0] == c && all[1..] == cps;
  }

  /** The write lengths of a nonempty sequence: its head's, then its tail's. */
  lemma UnitsInFront(t: Encoding, cps: seq<CodePoint>)
    requires |cps| > 0
    ensures UnitsIn(t, cps) == WriteLength(t, cps[0]) + UnitsIn(t, cps[1..])
  {
  }

  /** The units for a nonempty sequence: its head's, then its tail's. */
  lemma EncodeAllFront(t: Encoding, cps: seq<CodePoint>)
    requires |cps| > 0 && AllEncodable(t, cps)
    ensures Encodable(t, cps[0]) && AllEncodable(t, cps[1..])
    ensures EncodeAll(t, cps) == Encode(t, cps[0]) + EncodeAll(t, cps[1..])
  {
    assert forall i :: 0 <= i < |cps| - 1 ==> cps[1..][i] == cps[i + 1];
  }

  /** The head and tail of a sequence built by putting `x` in front of `y`. */
  lemma ConsParts<T>(x: T, y: seq<T>)
    ensures ([x] + y)[0] == x && ([x] + y)[1..] == y
  {
  }

  /** A nonempty sequence is its head in front of its tail. */
  lemma Reassemble<T>(x: seq<T>)
    requires |x| > 0
    ensures [x[0]] + x[1..] == x
  {
  }

  /** Regrouping a concatenation of three sequences. */
  lemma Regroup<T>(a: seq<T>, b: seq<T>, c: seq<T>)
    ensures (a + b) + c == a + (b + c)
  {
  }

  /** One step of an iterator that moves from `p` to `p'`: one codepoint fewer
      remains before `q`. */
  lemma CharsStep(e: Encoding, s: seq<Unit>, p: nat, p': nat, q: nat)
    requires p < q <= |s| && Tiled(e, s, p, q) && p' == p + ReadLength(e, s[p])
    ensures p' <= q && Tiled(e, s, p', q)
    ensures |Chars(e, s, p, q)| == 1 + |Chars(e, s, p', q)|
  {
  }

  /** One step of codeunits<EDest>(): the first character's write_length, then the rest's. */
  lemma UnitsInStep(t: Encoding, e: Encoding, s: seq<Unit>, p: nat, p': nat, q: nat)
    requires p < q <= |s| && Tiled(e, s, p, q) && p' == p + ReadLength(e, s[p])
    ensures p' <= q && Tiled(e, s, p', q)
    ensures UnitsIn(t, Chars(e, s, p, q))
      == WriteLength(t, Decode(e, CharUnits(e, s, p))) + UnitsIn(t, Chars(e, s, p', q))
  {
    CharsFront(e, s, p, q);
    ConsParts(Decode(e, CharUnits(e, s, p)), Chars(e, s, p', q));
    UnitsInFront(t, Chars(e, s, p, q));
  }

  /** One step of to<EDest>(): the first character's units, then the rest's. */
  lemma EncodeAllStep(t: Encoding, e: Encoding, s: seq<Unit>, p: nat, p': nat, q: nat)
    requires p < q <= |s| && Tiled(e, s, p, q) && AllEncodable(t, Chars(e, s, p, q))
    requires p' == p + ReadLength(e, s[p])
    ensures p' <= q && Tiled(e, s, p', q)
    ensures Encodable(t, Decode(e, CharUnits(e, s, p))) && AllEncodable(t, Chars(e, s, p', q))
    ensures EncodeAll(t, Chars(e, s, p, q))
      == Encode(t, Decode(e, CharUnits(e, s, p))) + EncodeAll(t, Chars(e, s, p', q))
  {
    CharsFront(e, s, p, q);
    ConsParts(Decode(e, CharUnits(e, s, p)), Chars(e, s, p', q));
    EncodeAllFront(t, Chars(e, s, p, q));
  }

  /** One pass of to<EDest>()'s loop: `out'` is `out` with the units of the
      codepoint `c` read at `p` appended, and the iterator has moved on to
      `p'`; what remains to be written shrinks by exactly those units. */
  lemma WriteStep(t: Encoding, e: Encoding, s: seq<Unit>, p: nat, p': nat, q: nat,
                  c: CodePoint, out: seq<Unit>, out': seq<Unit>)
    requires p < q <= |s| && Tiled(e, s, p, q) && AllEncodable(t, Chars(e, s, p, q))
    requires p' == p + ReadLength(e, s[p]) && c == Decode(e, CharUnits(e, s, p))
    requires Encodable(t, c) && out' == out + Encode(t, c)
    ensures p' <= q && Tiled(e, s, p', q) && AllEncodable(t, Chars(e, s, p', q))
    ensures out' + EncodeAll(t, Chars(e, s, p', q)) == out + EncodeAll(t, Chars(e, s, p, q))
  {
    EncodeAllStep(t, e, s, p, p', q);
    Regroup(out, Encode(t, c), EncodeAll(t, Chars(e, s, p', q)));
  }

  /** Transcoding a window validate accepts into its own encoding reproduces it. */
  lemma ValidReencodes(e: Encoding, s: seq<Unit>, p: nat, q: nat)
    requires p <= q <= |s| && Fits(e, s) && ValidText(e, s, p, q)
    ensures Transcodable(e, e, s, p, q) && Transcode(e, e, s, p, q) == s[p..q]
  {
    ReencodeValid(e, s, p, q);
  }

  // ---------------------------------------------------------------------------
  // Properties of encoding

  /** Length law: the target size computed from write_length is the number of
      units encoding writes, when every codepoint is a scalar value. */
  lemma {:induction false} LengthLaw(t: Encoding, cps: seq<CodePoint>)
    requires AllScalar(cps)
    ensures AllEncodable(t, cps) && |EncodeAll(t, cps)| == UnitsIn(t, cps)
    decreases |cps|
  {
    if |cps| > 0 {
      LengthLaw(t, cps[1..]);
    }
  }

  /** Whatever can be encoded: the size computed from write_length never
      exceeds the units written, and equals it exactly when every codepoint is
      a scalar value. Only the UTF-32 encoder accepts other values; it copies
      them, while write_length counts them as 0. */
  lemma {:induction false} SizeLaw(t: Encoding, cps: seq<CodePoint>)
    requires AllEncodable(t, cps)
    ensures UnitsIn(t, cps) <= |EncodeAll(t, cps)|
    ensures UnitsIn(t, cps) == |EncodeAll(t, cps)| <==> AllScalar(cps)
    decreases |cps|
  {
    if |cps| > 0 {
      SizeLaw(t, cps[1..]);
      AllScalarFront(cps);
    }
  }

  /** The UTF-32 encoder writes one unit for every value. */
  lemma {:induction false} Utf32Overrun(cps: seq<CodePoint>)
    ensures AllEncodable(UTF32, cps) && |EncodeAll(UTF32, cps)| == |cps|
    ensures UnitsIn(UTF32, cps) <= |cps|
    ensures UnitsIn(UTF32, cps) == |cps| <==> AllScalar(cps)
    decreases |cps|
  {
    if |cps| > 0 {
      Utf32Overrun(cps[1..]);
    }
    SizeLaw(UTF32, cps);
  }

  /** Encoding a concatenation of codepoint sequences concatenates the units. */
  lemma {:induction false} EncodeAllAppend(t: Encoding, x: seq<CodePoint>, y: seq<CodePoint>)
    requires AllEncodable(t, x) && AllEncodable(t, y)
    ensures AllEncodable(t, x + y) && EncodeAll(t, x + y) == EncodeAll(t, x) + EncodeAll(t, y)
    decreases |x|
  {
    if |x| > 0 {
      var xy := x + y;
      assert xy[0] == x[0] && xy[1..] == x[1..] + y;
      EncodeAllAppend(t, x[1..], y);
    } else {
      assert x + y == y;
    }
  }

  /** One character's units in front of a tiled buffer: the result is tiled and
      decodes to that character followed by the buffer's codepoints. */
  lemma ConsChars(e: Encoding, u: seq<Unit>, rest: seq<Unit>)
    requires IsChar(e, u) && Tiled(e, rest, 0, |rest|)
    ensures var r := u + rest;
      Tiled(e, r, 0, |r|) && Chars(e, r, 0, |r|) == [Decode(e, u)] + Chars(e, rest, 0, |rest|)
  {
    OneChar(e, u);
    Append(e, u, rest);
  }

  /** ... and passes validate exactly when the character and the buffer do. */
  lemma ConsValid(e: Encoding, u: seq<Unit>, rest: seq<Unit>)
    requires IsChar(e, u)
    ensures var r := u + rest;
      ValidText(e, r, 0, |r|) <==> Accepted(e, u) && ValidText(e, rest, 0, |rest|)
  {
    OneChar(e, u);
    AppendValid(e, u, rest);
  }

  /** Transcoded output is tiled and decodes to the codepoints that were encoded. */
  lemma {:induction false} RoundTrip(t: Encoding, cps: seq<CodePoint>)
    requires AllScalar(cps)
    ensures AllEncodable(t, cps)
    ensures var r := EncodeAll(t, cps); Tiled(t, r, 0, |r|) && Chars(t, r, 0, |r|) == cps
    decreases |cps|
  {
    LengthLaw(t, cps);
    if |cps| > 0 {
      RoundTrip(t, cps[1..]);
      Codec.DecodeEncode(t, cps[0]);
      ConsChars(t, Encode(t, cps[0]), EncodeAll(t, cps[1..]));
      Reassemble(cps);
    }
  }

  /** validate on transcoded output fails exactly when the target is UTF-8
      and some codepoint lies in U+0800..U+0FFF. */
  lemma {:induction false} ValidateTranscoded(t: Encoding, cps: seq<CodePoint>)
    requires AllScalar(cps)
    ensures AllEncodable(t, cps)
    ensures var r := EncodeAll(t, cps);
      ValidText(t, r, 0, |r|) <==> !(t == UTF8 && InUtf8Gap(cps))
    decreases |cps|
  {
    LengthLaw(t, cps);
    if |cps| > 0 {
      ValidateTranscoded(t, cps[1..]);
      Codec.DecodeEncode(t, cps[0]);
      Codec.EncodeValidates(t, cps[0]);
      ConsValid(t, Encode(t, cps[0]), EncodeAll(t, cps[1..]));
      GapFront(cps);
    }
  }

  /** Some codepoint lies in U+0800..U+0FFF, the block validate refuses in UTF-8. */
  predicate InUtf8Gap(cps: seq<CodePoint>) {
    exists i :: 0 <= i < |cps| && 0x800 <= cps[i] < 0x1000
  }

  lemma GapFront(cps: seq<CodePoint>)
    requires |cps| > 0
    ensures InUtf8Gap(cps) <==> 0x800 <= cps[0] < 0x1000 || InUtf8Gap(cps[1..])
  {
    if InUtf8Gap(cps) {
      var i :| 0 <= i < |cps| && 0x800 <= cps[i] < 0x1000;
      if i > 0 { assert cps[1..][i - 1] == cps[i]; }
    }
    if InUtf8Gap(cps[1..]) {
      var i :| 0 <= i < |cps[1..]| && 0x800 <= cps[1..][i] < 0x1000;
      assert cps[i + 1] == cps[1..][i];
    }
  }

  /** Transcoding preserves the codepoint sequence: decoding the output in the
      target encoding gives back the source's codepoints, its length is the
      size computed from write_length, and transcoding it again into the same
      encoding reproduces it. */
  lemma TranscodeKeepsChars(src: Encoding, t: Encoding, s: seq<Unit>, p: nat, q: nat)
    requires p <= q <= |s| && Tiled(src, s, p, q) && AllScalar(Chars(src, s, p, q))
    ensures Transcodable(src, t, s, p, q)
    ensures var r := Transcode(src, t, s, p, q);
      && Tiled(t, r, 0, |r|) && Chars(t, r, 0, |r|) == Chars(src, s, p, q)
      && |r| == UnitsIn(t, Chars(src, s, p, q))
      && Transcodable(t, t, r, 0, |r|) && Transcode(t, t, r, 0, |r|) == r
  {
    RoundTrip(t, Chars(src, s, p, q));
    LengthLaw(t, Chars(src, s, p, q));
  }
}
