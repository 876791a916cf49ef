# utfString in Dafny

A model of the header-only C++ library utfString. The library has three layers:

- **codecs** (`include/utf_impl.h`): `validate_codepoint`, and for each of UTF-8, UTF-16 and UTF-32 the `code_traits` operations `read_length`, `write_length`, `validate`, `encode` and `decode`;
- **views** (`include/utf.h`): `utf_iterator`, a decoding iterator over a buffer of code units, and `stringview`, a window `[first, last)` of such a buffer. A view validates itself, counts codepoints and units, transcodes into an output cursor and resolves a signed, 1-based character ordinal to a unit offset (`codeidx`);
- **strings** (`include/utfstring.h`): `utf::string`, a buffer plus a view. It is built by converting constructors and `assign`, and edited by `substr`, `copy`, `splice`, `cut` and `operator+`, which each write a fresh buffer. It is compared by `operator==` and `operator!=`.

Modules, leaves first:

| module | file | models |
|---|---|---|
| `Unicode` | unicode.dfy | `codepoint_type` (a 32-bit value), `validate_codepoint`, the three encoding tags |
| `Utf8`, `Utf16`, `Utf32` | utf8.dfy, utf16.dfy, utf32.dfy | the three `code_traits` specialisations; UTF-8 follows section 3 of RFC 3629, UTF-16 sections 2.1 and 2.2 of RFC 2781 |
| `Codec` | codec.dfy | the specialisation a buffer's encoding selects |
| `Text` | text.dfy | what the iterator yields over a window (`Chars`), what `validate()` checks (`ValidText`), the units `to<EDest>` writes (`Transcode`) and `codeunits<EDest>()` (`UnitsIn`), with their laws |
| `Resolver` | resolver.dfy | what `codeidx` computes, as a function |
| `View` | view.dfy | `utf_iterator` and `stringview` as classes; their loops are methods proved against `Text` and `Resolver` |
| `Strings` | strings.dfy | `utf::string` as a class whose methods are proved against specification functions of the units they write, and lemmas about those units |
| `Wrappers` | wrappers.dfy | `Option` and `Result` |

Code units of every encoding are carried as 32-bit values (`Codec.Unit`). `Fits(e, s)` says that every unit of `s` is below the encoding's bound. A buffer is a `seq<Unit>`, so writing through an output cursor becomes appending to a sequence. A `throw` becomes a `Failure` carrying the message. Undefined behaviour becomes a precondition; this covers walking or decoding outside a view, encoding a value `write_length` rejects, and writing past an allocation. Each such condition is named by a predicate (`Resolves`, `Transcodable`, `SubstrDefined`, `SpliceDefined`, `CutDefined`, `EqualsDefined`).

The model follows the code where the code differs from what its comments suggest:

- **`codeidx` (include/utf.h:143-155).** `*pointer` is the decoded codepoint, not a unit. `read_length` is applied to that value, narrowed to the unit type. The result is added to the offset, and it is also the number of whole characters the iterator skips. The answer is exactly the character's offset on narrow text, where every unit is a character whose decoded value `read_length` also takes for one unit (`Resolver.ResolveNarrow`, `Strings.NarrowAt`). That is any UTF-32 text (`Strings.Utf32At`), UTF-16 text without surrogate pairs (`Strings.Utf16At`) and UTF-8 text below 0x80 (`Strings.AsciiAt`). Elsewhere it is not (`Resolver.Utf8Example`, `Resolver.Utf16Example`).
- **Negative ordinals.** A negative ordinal `-k` takes `codeunits() - k` passes, a unit count used as a character count (`Resolver.LastNeedsNarrowText`).
- **Piece end.** With a positive end ordinal, a piece ends one unit, not one character, past `codeidx(x)` (`Strings.SubstrSplitsChar`).
- **`substr` tail.** `substr` always appends the last character, the tail `[codeidx(-1), codeidx(0))` (`Strings.ExampleTruth`).
- **`splice` range check.** `splice` checks its range on this string's view, not on the spliced text (`Strings.SpliceChecksThisView`).
- **No range check in `cut`** (`Strings.CutUnchecked`).
- **Literal terminators.** A literal's view spans its terminating NUL, so `length()` counts it: `Strings.ExampleLength` gives 14 for "Hello, World!".
- **UTF-8 `validate`.** It refuses every three-byte sequence whose lead is 0xE0. This includes the well-formed encodings of U+0800..U+0FFF, so validating transcoded text fails exactly when the text holds such a character (`Utf8.EncodeWellShaped`, `Text.ValidateTranscoded`).

## Model

| member | source | states |
|---|---|---|
| Unicode.IsScalar | include/utf_impl.h:55-61 | true exactly when c < 0xD800 or 0xE000 <= c < 0x110000 |
| Utf8.ReadLength | include/utf_impl.h:69-76 | every byte announces a character of 1 to 4 bytes |
| Utf8.ReadLengthMasks | include/utf_impl.h:69-76 | the interval tests used equal the source's mask chain (& 0x80, & 0xE0, & 0xF0, & 0xF8, else 1) on every byte |
| Utf8.MaskTests | include/utf_impl.h:94-113 | each lead and continuation mask test of validate is the corresponding interval test |
| Utf8.WriteLength | include/utf_impl.h:77-86 | 0 exactly for non-scalar values; 1, 2, 3, 4 exactly on the ranges below 0x80, below 0x800, the rest of the basic plane, and the supplementary planes |
| Utf8.Validate | include/utf_impl.h:90-133 | the continuation loop answers WellShaped: length 1..4 with the matching lead pattern, every continuation byte 10xxxxxx, no two-byte lead <= 0xC1, no 0xE0 lead, no 0xF0 lead with a second byte < 0x90 |
| Utf8.WellShaped | include/utf_impl.h:90-133 | a byte sequence validate accepts has the length read_length announces for its lead |
| Utf8.Encode | include/utf_impl.h:135-165 | writes exactly write_length(c) bytes |
| Utf8.EncodeShape | include/utf_impl.h:135-165 | the lead byte announces the length, matches that length's lead pattern, and every other byte is a continuation byte |
| Utf8.EncodeBytes | include/utf_impl.h:140-155 | the lead byte is marker 0xC0/0xE0/0xF0 (none for one byte) plus c shifted right by 6(len-1); byte k is 0x80 plus six bits of c shifted right by 6(len-1-k) |
| Utf8.EncodeInto | include/utf_impl.h:135-165 | the down-counting loop over `res` produces exactly Encode(c) |
| Utf8.DecodeUnits | include/utf_impl.h:167-187 | the accumulating loop computes Decode(s) |
| Utf8.DecodeBound | include/utf_impl.h:167-187 | a one-byte character decodes to its byte; two, three and four bytes decode below 0x800, 0x10000 and 0x200000 |
| Utf8.DecodeEncode | include/utf_impl.h:135-187 | decode(encode(c)) == c for every scalar value |
| Utf8.EncodeWellShaped | include/utf_impl.h:90-165 | validate accepts the encoding of a scalar value c exactly when c lies outside U+0800..U+0FFF |
| Utf8.WellShapedIsCanonical | include/utf_impl.h:90-187 | a byte sequence validate accepts that decodes to a scalar value has write_length(value) bytes and is that value's encoding |
| Utf16.ReadLength | include/utf_impl.h:193-198 | a character is 1 or 2 units |
| Utf16.ReadLengthPair | include/utf_impl.h:193-198 | read_length is 2 exactly for a high surrogate |
| Utf16.WriteLength | include/utf_impl.h:199-206 | 0 exactly for non-scalar values; 2 exactly for U+10000..U+10FFFF |
| Utf16.Validate | include/utf_impl.h:208-230 | units validate accepts have the length read_length announces for the first |
| Utf16.Encode | include/utf_impl.h:231-249 | write_length(c) units, the first announcing the length; one unit equal to c, or the high ten bits of c - 0x10000 over 0xD800 and the low ten over 0xDC00 |
| Utf16.Decode | include/utf_impl.h:251-267 | one unit decodes to itself; a pair lands in 0x2400..0x111FFF, and in the supplementary planes when its second unit is a low surrogate |
| Utf16.DecodeEncode | include/utf_impl.h:231-267 | decode(encode(c)) == c for every scalar value |
| Utf16.EncodeValidates | include/utf_impl.h:208-249 | validate accepts the encoding of every scalar value |
| Utf16.ValidIsCanonical | include/utf_impl.h:208-267 | units validate accepts decode to a scalar value of that many units whose encoding they are |
| Utf32.ReadLength | include/utf_impl.h:273 | every unit is a whole character |
| Utf32.WriteLength | include/utf_impl.h:274-279 | 0 exactly for non-scalar values, else 1 |
| Utf32.Validate | include/utf_impl.h:281-285 | validate accepts one unit only |
| Utf32.Encode | include/utf_impl.h:287-292 | one unit holding the value, whatever it is |
| Utf32.Decode | include/utf_impl.h:293-296 | encoding the decoded value gives back the unit |
| Codec.Width | include/utf_impl.h:67-68 | a unit of `e` has Width(e) bytes, and 256^Width(e) is the encoding's unit bound |
| Codec.ReadLength | include/utf_impl.h:69-76 | in every encoding a character is 1 to 4 units |
| Codec.WriteLength | include/utf_impl.h:77-86 | in every encoding 0 exactly for non-scalar values, at most 4 |
| Codec.Validate | include/utf_impl.h:90-285 | in every encoding, units validate accepts have the length read_length announces |
| Codec.DecodeUnit | include/utf_impl.h:167-296 | in every encoding a one-unit character decodes to its unit |
| Codec.Encode | include/utf_impl.h:135-165 | the units fit the encoding, the first announces their number, and a scalar value takes write_length units |
| Codec.EncodeTo | include/utf_impl.h:135-165 | encode through an output cursor appends exactly Encode(e, c) |
| Codec.DecodeUnits | include/utf_impl.h:167-187 | computes Decode(e, s) in every encoding |
| Codec.ValidateUnits | include/utf_impl.h:90-133 | computes Validate(e, s) in every encoding |
| Codec.DecodeEncode | include/utf_impl.h:135-296 | every scalar value is encodable and decode inverts encode, in every encoding |
| Codec.EncodeValidates | include/utf_impl.h:90-296 | validate accepts a scalar value's encoding unless the encoding is UTF-8 and the value lies in U+0800..U+0FFF |
| Codec.ValidIsCanonical | include/utf_impl.h:90-296 | a character validate accepts that decodes to a scalar value is that value's encoding |
| Text.CharUnits | include/utf.h:38-41 | the units at an iterator are exactly one character: read_length of the first is their number |
| Text.EncodeAll | include/utf.h:132-138 | what to<EDest> writes fits the target encoding's units |
| Text.Transcode | include/utf.h:132-138 | the units written for a window fit the target encoding |
| Text.ValidIsTiled | include/utf.h:84-101 | a window validate accepts is walked exactly by the iterator's increments |
| Text.ValidIsScalar | include/utf.h:84-101 | every codepoint of a window validate accepts is a scalar value |
| Text.ReencodeValid | include/utf.h:84-138 | re-encoding the codepoints of a window validate accepts gives back its units |
| Text.ValidReencodes | include/utf.h:84-138 | to<E> of a valid view in its own encoding writes the view's own units |
| Text.CharsAtMostUnits | include/utf.h:104-120 | codepoints() <= codeunits() on every walkable view |
| Text.LengthLaw | include/utf.h:123-138 | for scalar values, the units to<EDest> writes are as many as codeunits<EDest>() counts |
| Text.SizeLaw | include/utf.h:123-138 | codeunits<EDest>() never exceeds the units written, and equals them exactly when every value is a scalar value |
| Text.Utf32Overrun | include/utf_impl.h:274-292 | UTF-32 encode writes one unit for every value, while write_length counts only scalar values |
| Text.RoundTrip | include/utf.h:132-138 | transcoded output is walkable and decodes to the codepoints that were encoded |
| Text.TranscodeKeepsChars | include/utf.h:123-138 | to<EDest> of a view of scalar values writes codeunits<EDest>() units that decode to the view's codepoints and re-encode to themselves |
| Text.ValidateTranscoded | include/utf.h:84-138 | validate() of transcoded scalar values holds exactly unless the target is UTF-8 and some value lies in U+0800..U+0FFF |
| Text.EncodeAllAppend | include/utf.h:132-138 | chaining to calls through one cursor writes the concatenation of their outputs |
| Text.Join | include/utf.h:43-47 | two adjacent walkable windows form one, whose codepoints are theirs in order |
| Text.JoinValid | include/utf.h:84-101 | past a walkable prefix, validate of the whole holds exactly when it holds on both parts |
| Text.Append | include/utf.h:43-47 | a concatenation of walkable buffers is walkable, with the codepoints of each in order |
| Text.AppendValid | include/utf.h:84-101 | after a walkable buffer, the concatenation passes validate exactly when both buffers do |
| Text.Slice | include/utf.h:62 | a window reads the same as the sequence of its own units |
| Text.OneChar | include/utf.h:38-47 | one character's units form a buffer of one codepoint, valid exactly when the character passes the checks |
| Resolver.Hint | include/utf.h:150 | read_length applied to a decoded value is 1 to 4 |
| Resolver.Advance | include/utf.h:151-152 | the inner ++ loop of codeidx: where k increments land, None where one would read a unit outside the view; never backwards (its counting laws are AdvanceBound and AdvanceChars) |
| Resolver.AdvanceBound | include/utf.h:151-152 | k defined increments move the iterator k units or more, and each starts before the end of the view |
| Resolver.WalkBound | include/utf.h:148-153 | the walk's marker (Resolver.Walk) is at least its number of passes, and after one pass or more it ends inside the view |
| Resolver.StepCount | include/utf.h:147 | the passes for an ordinal in range are fewer than codeunits() |
| Resolver.Resolve | include/utf.h:143-155 | ordinal 0 and ordinals beyond ±codeunits() answer codeunits() without walking; an ordinal in range answers the marker of its StepCount passes, at least that number and at most codeunits(), or None when the walk has undefined behaviour |
| Resolver.CodeIdx | include/utf.h:143-155 | the offset codeidx returns is never past codeunits(), and for an ordinal in range it is at least the number of passes made |
| Resolver.FirstAtZero | include/utf.h:143-155 | codeidx(1) == 0 on every view |
| Resolver.AdvanceChars | include/utf.h:43-47 | k increments from a character boundary land on a boundary k characters further on |
| Resolver.WalkNeedsChars | include/utf.h:148-153 | a defined walk makes no more passes than there are characters |
| Resolver.LastNeedsNarrowText | include/utf.h:147 | codeidx(-1) is defined on a walkable view only if it has at least codeunits() - 1 characters |
| Resolver.ResolveNarrow | include/utf.h:143-155 | on narrow text (every unit a character whose decoded value read_length also takes for one unit), ordinal k > 0 is at k - 1 and -k at codeunits() - k, with exactly that many characters before it |
| Resolver.NarrowChars | include/utf.h:104-106 | such text has as many codepoints as units |
| Resolver.AsciiIsNarrow | include/utf_impl.h:69-76 | units below 0x80 are single-unit characters of that value in every encoding |
| Resolver.Utf32Narrow | include/utf_impl.h:273-296 | every UTF-32 text is narrow |
| Resolver.Utf16Narrow | include/utf_impl.h:193-198 | UTF-16 text without high surrogates is narrow |
| Resolver.Utf8Example | include/utf.h:143-155 | on "é", "a", NUL in UTF-8, codeidx(2) is 3 though "a" starts at 2, and codeidx(-1) is undefined |
| Resolver.Utf16Example | include/utf.h:143-155 | on U+1F600, "a", NUL in UTF-16, codeidx(2) is 1, inside the surrogate pair |
| View.Iterator.constructor | include/utf.h:35 | the iterator sits at the given position with a value-initialised codepoint |
| View.Iterator.Deref | include/utf.h:38-41 | decodes the character at pos into val without moving |
| View.Iterator.Advance | include/utf.h:43-47 | pos moves by read_length of its unit; val is unchanged |
| View.Iterator.Differs | include/utf.h:53 | operator!= holds exactly when the positions differ |
| View.Iterator.Equals | include/utf.h:54 | operator== holds exactly when the positions agree, whatever the iterators' values |
| View.StringView.constructor | include/utf.h:62 | the view covers [first, last) of the buffer |
| View.StringView.Begin | include/utf.h:70 | a fresh iterator at first |
| View.StringView.End | include/utf.h:71 | a fresh iterator at last |
| View.StringView.Refocus | include/utf.h:79-82 | the view now covers [start, end) |
| View.StringView.RefocusOn | include/utf.h:75-77 | the view now covers what the other view covers |
| View.StringView.CodeUnits | include/utf.h:120 | last - first |
| View.StringView.Bytes | include/utf.h:109-111 | codeunits() times the unit width |
| View.StringView.Validate | include/utf.h:84-101 | answers ValidText: true exactly when every character fits before last, passes the shape check and decodes to a scalar value (so true on an empty view) |
| View.StringView.Codepoints | include/utf.h:104-106 | the number of codepoints the iterator yields from begin() to end() |
| View.StringView.CodeUnitsIn | include/utf.h:123-129 | the sum of write_length in the target encoding over those codepoints |
| View.StringView.BytesIn | include/utf.h:114-117 | that sum times the target's unit width |
| View.StringView.To | include/utf.h:132-138 | the cursor's output is what it held, followed by the encodings of the view's codepoints in order |
| View.StringView.Skip | include/utf.h:151-152 | the inner loop's increments land where Resolver.Advance says and leave the iterator's value unchanged |
| View.StringView.CodeIdx | include/utf.h:143-155 | answers Resolver.CodeIdx |
| Strings.UString.FromUnits | include/utfstring.h:107-114 | the buffer is the transcoding of the literal's or C string's N units, and the view covers all of it |
| Strings.UString.Convert | include/utfstring.h:115-118 | the buffer is the other string's view transcoded into this encoding, viewed whole |
| Strings.UString.Wrap | include/utfstring.h:123-126 | adopts the units as the buffer and views [start, end) |
| Strings.UString.RawAssign | include/utfstring.h:55-60 | the buffer becomes the view's units transcoded, of codeunits<chartype>() units, viewed whole |
| Strings.UString.Assign | include/utfstring.h:178-188 | the buffer becomes the transcoded literal or C string |
| Strings.UString.AssignString | include/utfstring.h:190-194 | the buffer becomes the other string transcoded (operator= at 292-296 delegates here) |
| Strings.UString.Length | include/utfstring.h:139 | the number of codepoints in the view |
| Strings.UString.StrSize | include/utfstring.h:144-148 | the units the view takes in the asked encoding |
| Strings.UString.TextAs | include/utfstring.h:154-161 | the view transcoded, exactly as many units as strsize counts |
| Strings.UString.TextAsSized | include/utfstring.h:164-168 | the same units, and N is their number |
| Strings.UString.IsValidRange | include/utfstring.h:46-48 | true exactly when codeidx(b) < codeidx(x) |
| Strings.UString.Substr | include/utfstring.h:211-221 | throws the range error exactly when the range is not valid; else a fresh string of the piece and the tail, viewing codeunits<chartype>() of both |
| Strings.UString.Copy | include/utfstring.h:223 | substr(1, -1) |
| Strings.UString.RawSplice | include/utfstring.h:63-73 | a fresh string of the units before codeidx(sp), the piece transcoded, and the rest, viewed whole; this string is untouched |
| Strings.UString.Splice | include/utfstring.h:229-244 | throws exactly when b, x is no valid range of this view; else rawSplice of the piece of the text that b, x pick out |
| Strings.UString.SpliceString | include/utfstring.h:246-252 | the same, with the piece taken from the other string's view |
| Strings.UString.Plus | include/utfstring.h:314-317 | splice(str) with sp = -1 and the range 1..-1 |
| Strings.UString.PlusUnits | include/utfstring.h:319-322 | the pointer-and-length splice of the literal's N units at sp = -1 with the range 1..-1 |
| Strings.UString.Cut | include/utfstring.h:255-263 | a fresh string of the units before codeidx(b) and those from the piece end, viewed whole, with no range check |
| Strings.UString.Equals | include/utfstring.h:268-281 | true exactly when the sizes in this encoding agree and the other string, transcoded, equals the first units of this buffer |
| Strings.UString.NotEquals | include/utfstring.h:283-286 | the negation of operator== |
| Strings.SubstrChars | include/utfstring.h:211-221 | the new string's buffer is walkable, its view covers all of it, and its codepoints are the piece's followed by the tail's |
| Strings.SpliceChars | include/utfstring.h:63-73 | the new buffer's codepoints are those before codeidx(sp), the piece's, and the rest, in order |
| Strings.CutChars | include/utfstring.h:255-263 | the new buffer's codepoints are those before codeidx(b) and those from the piece end |
| Strings.MatchesIffSameChars | include/utfstring.h:268-281 | two strings holding scalar values, in any encodings, compare equal exactly when their codepoints are equal |
| Strings.SubstrOfValid | include/utfstring.h:211-221 | on valid text, substr writes the units of the piece followed by those of the tail, and views all of them |
| Strings.SpliceOfValid | include/utfstring.h:63-73 | on valid text, rawSplice writes text[0..codeidx(sp)), the transcoded piece and text[codeidx(sp)..codeidx(0)) |
| Strings.CutOfValid | include/utfstring.h:255-263 | on valid text, cut writes text[0..codeidx(b)) followed by text[piece end..codeidx(0)) |
| Strings.AsciiAt | include/utf.h:143-155 | on ASCII text, codeidx(k) is k - 1, codeidx(-k) is codeunits() - k, and ordinals out of range give codeunits() |
| Strings.NarrowAt | include/utf.h:143-155 | on narrow text every ordinal resolves, to k - 1 for k > 0, to codeunits() - k for -k, and to codeunits() out of range |
| Strings.Utf32At | include/utf.h:143-155 | in UTF-32 that holds on every text |
| Strings.Utf16At | include/utf.h:143-155 | in UTF-16 it holds on every text without high surrogates |
| Strings.AsciiString | include/utfstring.h:55-60 | an ASCII buffer transcodes to itself between any two encodings |
| Strings.SubstrAscii | include/utfstring.h:211-221 | on ASCII text the range is valid exactly when the ordinals' offsets are ordered, and substr writes text[codeidx(b)..codeidx(x) + (x > 0)) followed by the last unit |
| Strings.CopyAscii | include/utfstring.h:211-223 | on ASCII text of at least two units, copy() is unit for unit the original, viewed whole; on shorter text it throws |
| Strings.SubstrNarrow | include/utfstring.h:211-221 | on narrow text validate accepts, the range is valid exactly when the ordinals' offsets are ordered, and substr writes text[codeidx(b)..codeidx(x) + (x > 0)) followed by the last unit |
| Strings.CopyNarrow | include/utfstring.h:211-223 | on narrow text validate accepts of at least two units, copy() is unit for unit the original; on shorter text it throws |
| Strings.SubstrPastEnd | include/utfstring.h:214 | an end ordinal beyond codeunits() passes the range check, yet the piece then ends one unit past the buffer, so substr is undefined |
| Strings.SubstrSplitsChar | include/utfstring.h:214 | on "a", "é", NUL in UTF-8, substr(1, 2) passes the range check but its piece ends inside "é", so substr is undefined |
| Strings.SpliceAscii | include/utfstring.h:229-252 | on ASCII text the range check compares this string's offsets, and splice writes text[0..sp) + src[b..x + (x > 0)) + text[sp..) |
| Strings.PlusAscii | include/utfstring.h:314-322 | on ASCII text a + b inserts b without its last unit before a's last unit, the terminator; it throws when a has fewer than two units |
| Strings.SpliceChecksThisView | include/utfstring.h:232-248 | the range 2..-1 is invalid on the view of "A" and NUL but valid on that of "Hello" and NUL, so splicing ordinals 2..-1 of "Hello" into "A" throws while splicing them of "A" into "Hello" passes the check |
| Strings.CutAscii | include/utfstring.h:255-263 | on ASCII text cut writes text[0..b) followed by text[x + (x > 0)..) |
| Strings.CutUnchecked | include/utfstring.h:255-263 | cut(3, 1) of "abc" is accepted and writes "abbc" and the terminator |
| Strings.SpliceOverlong | include/utfstring.h:63-73 | the overlong NUL 0xC0 0x80 is walkable, refused by validate, and re-encodes to one unit where rawSplice allocates two, so SpliceDefined fails on a string holding it |
| Strings.ExampleLiterals | docs/example.cpp:13-15 | hello, world and cruel hold "Hello,", " World!" and " Cruel", each with its terminator, in UTF-8, UTF-16 and UTF-32 |
| Strings.ExampleHelloWorld | docs/example.cpp:17 | hello + world is "Hello," " World!" and one terminator |
| Strings.ExampleLength | docs/example.cpp:17 | hello_world has 14 codepoints, its terminator included |
| Strings.ExampleSplice | docs/example.cpp:21 | hello_world.splice(cruel, 7) is "Hello," " Cruel" " World!" and the terminator |
| Strings.ExampleTruth | docs/example.cpp:26 | sad holds the same units in UTF-16, and sad.substr(8) is "Cruel" " World!" and the terminator, 13 units |

## Left out

- I/O: `operator<<` and the `std::begin`/`std::end` overloads (include/utfstring.h:345-362, include/utf.h:175-188), and docs/example.cpp as a program; its values become example lemmas.
- `encoding()` and `priv_encode` (include/utfstring.h:39-43, 141): a lookup of a name string.
- Memory management has no counterpart in a model whose buffers are sequences. This covers `new[]`/`delete[]`, the destructor (include/utfstring.h:134), the move constructor and move assignment (include/utfstring.h:128-131, 298-303) and the `const ch*` cast (include/utfstring.h:331).
- `utf_encoder` (include/utfstring.h:80-103) is not modelled as a class: writing through it is appending to a sequence. Whether a write stays inside its allocation is stated in the Defined predicates.
- The deprecated `assign(std::string&)` and `to()` (include/utfstring.h:171-173, 197-201), and `string::begin()`/`end()` (include/utfstring.h:327-328), which return the view's iterators.
- `stringview::at` (include/utf.h:72), the post-increment and `operator->` of `utf_iterator` (include/utf.h:42, 48-52), its copy constructor (include/utf.h:36) and `make_stringview` as a function; a view built by it is a `View.StringView` constructed on the same bounds.
- `encoding_for_size`, `native_encoding` and the `UTFHPP_NO_CPP11` typedefs (include/utf_impl.h:17-53): the encoding is the closed `Encoding` datatype.
- The `const_cast` in `refocus` (include/utf.h:79-82): refocusing reassigns the bounds.
- Signed `char` promotion in UTF-8 `read_length` and `decode`: bytes are 0..255. Native endianness: units are values.
- `View.StringView.CodeIdx`: `int` overflow of `marker` and of `codeunits()` converted to `int` is not modelled; offsets are unbounded.
- `Strings.UString.Equals`: `strsize()` is evaluated on every pass of the comparison loop in the source; it returns the same value each time, so the model evaluates it once.
- `Strings.UString.RawSplice`, `Strings.UString.Splice`, `Strings.UString.SpliceString`, `Strings.UString.Plus`, `Strings.UString.PlusUnits`, `Strings.UString.Cut`: they require the units written to equal the units allocated and viewed (`SpliceDefined`, `CutDefined`). The source sizes the pieces of this string by their own unit counts and the inserted piece by `codeunits<chartype>()`. So equality needs two things: the pieces of this string must re-encode to as many units as they occupy, which holds on text `validate` accepts (`Text.ValidReencodes`), and the inserted piece must hold only scalar values (`Text.SizeLaw`). Otherwise the source writes more units than it allocated, or fewer, leaving indeterminate units inside the new view; an overlong UTF-8 sequence re-encodes shorter (`Strings.SpliceOverlong`). Neither outcome is modelled.
- `Strings.UString.Substr`, `Strings.UString.Copy`: they require the units written to be at most the units allocated (`SubstrDefined`), and the new buffer is the units written. When fewer are written, the indeterminate allocated units after them are not modelled. The view covers `codeunits<chartype>()` of both pieces, which on text `validate` accepts is all of the units written (`Strings.SubstrOfValid`).
- `Strings.UString.AssignString`: requires the other string to be another object, because the source releases this buffer before it reads the other view.
