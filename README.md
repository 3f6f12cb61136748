# pystring in Dafny

A model of the Go package `pystring`: Python-like string methods for Go. Its
`PyString` object holds one Go string, `text`. Most methods pass that string
to Go's `strings` package (Index, LastIndex, Count, Split, TrimSpace). A few
loop over it themselves (EndsWith, StartsWith, IsDigit, Multiply). Strip, Add,
Append and Subtract replace the held text.

The project has five modules:

- `Utf8` (`utf8.dfy`) models Go's `unicode/utf8`. A Go string is a sequence of
  bytes that need not be valid UTF-8. `DecodeRune` gives the rune at the front
  and its width, and returns `(RuneError, 1)` for a byte that does not start a
  well-formed encoding. `DecodeLastRune` does the same at the back. `RuneCount`
  counts the runes. `EncodeRune` is the reference the decoders are proved
  against: decoding gives back exactly the runes it encodes.
- `Unicode` (`unicode.dfy`) holds Go's `unicode.IsSpace`.
- `GoStrings` (`strings.dfy`) models the `strings` functions PyString calls.
  Each comes with lemmas stating what it means: the first or last match, the
  number of non-overlapping matches, a split that joins back to the text, and
  a trim that drops only the runes a predicate accepts from the ends;
  `TrimSpace` is that trim with `unicode.IsSpace`.
- `PyStrings` (`pystring.dfy`) holds the class `PyString`, with field
  `text: seq<byte>` and one member per Go method. It also has the two
  specification functions `Repeat` (for Multiply) and `RemoveLast` (for
  Subtract), with their lemmas.
- `PyStringTests` (`pystring_tests.dfy`) restates the package's tests as
  verified facts (Strip, Count, Index), plus worked examples for Subtract,
  IsDigit and Multiply.

Text is `seq<byte>`, and every offset and length is in bytes, as in the Go
code. The methods that assign `p.text` are class methods with
`modifies this`, and each states the new text as a function of the old one.
The read-only methods and functions state their results outright.

Some behaviour of the Go code that the model keeps:

- Add appends to the held text and returns the new text (pystring.go:133-136).
  It changes the object rather than returning a fresh value.
- Subtract writes the spliced text back to the object before returning it
  (pystring.go:144-150).
- Subtract and the searches work in byte offsets, because Go's `strings`
  functions index the bytes of the string.
- Strip trims every rune that Go's `unicode.IsSpace` accepts
  (pystring.go:42-45), which includes non-ASCII white space such as U+0085
  and U+3000 (`PyStringTests.WideSpaceStripExample` strips U+3000 and
  U+00A0 from "a"). `GoStrings.TrimSpace` is `TrimFunc(s, unicode.IsSpace)`. Newer
  Go releases scan ASCII white space first, then fall back to that call, and
  the result is the same.
- IsDigit decodes the text rune by rune (pystring.go:112-130). Its contract
  is stated on bytes, and the two readings are proved to agree.

## Model

| member | source | states |
|---|---|---|
| PyStrings.PyString.constructor | pystring.go:33-35 | New: a fresh object holds exactly the given text |
| PyStrings.PyString.Get | pystring.go:99-101 | the result is the held text |
| PyStrings.PyString.Empty | pystring.go:104-106 | true exactly when the text has no bytes, and equally exactly when it has no runes |
| PyStrings.PyString.Find | pystring.go:108-110 | -1 exactly when t occurs nowhere; otherwise t occurs at the result and at no earlier offset |
| PyStrings.PyString.RFind | pystring.go:153-155 | -1 exactly when t occurs nowhere; otherwise t occurs at the result and at no later offset |
| PyStrings.PyString.Has | pystring.go:93-96 | true exactly when some offset matches t, which is exactly when Find (and RFind) is not -1 |
| PyStrings.PyString.Index | pystring.go:55-64 | the offset is Find's; the error is set exactly when t does not occur, and then the offset is -1 and the message is "Not found"; without an error t occurs at the offset |
| PyStrings.PyString.Count | pystring.go:47-49 | for the empty t, one more than the number of runes; zero exactly when t does not occur; for a non-empty t, n is the number of offsets the left-to-right scan finds (each a match, each at or after the end of the previous one, the first match at or after it, and none after the last), and no set of non-overlapping occurrences is larger |
| PyStrings.PyString.Split | pystring.go:157-159 | joining the pieces with sep gives back the text; for a non-empty sep, one more piece than Count, no piece contains sep, and each piece but the last ends where the first sep in the rest of the text begins; for the empty sep, one piece per rune, each the bytes of the first rune of what remains |
| PyStrings.PyString.EndsWith | pystring.go:66-78 | the byte loop answers true exactly when the text ends with t, which is exactly when t is no longer than the text and RFind(t) == \|text\| - \|t\| |
| PyStrings.PyString.StartsWith | pystring.go:80-91 | the byte loop answers true exactly when the text starts with t, which is exactly when Find(t) == 0 |
| PyStrings.PyString.IsDigit | pystring.go:112-130 | the nested rune/digit loop answers true exactly when the text is non-empty and every byte is one of the Digits |
| PyStrings.PyString.Multiply | pystring.go:161-167 | the buffer loop yields the text repeated n times, n * \|text\| bytes, and the empty string for n <= 0; the object is untouched |
| PyStrings.PyString.Strip | pystring.go:42-45 | the new text is TrimSpace of the old; the same object is returned |
| PyStrings.PyString.Add | pystring.go:132-136 | the new text is the old text followed by s, and it is returned |
| PyStrings.PyString.Append | pystring.go:138-141 | the new text is the old text followed by s |
| PyStrings.PyString.Subtract | pystring.go:143-150 | the new text is RemoveLast of the old text, and it is returned |
| PyStrings.RemoveLast | pystring.go:144-150 | when t does not occur the text is unchanged; otherwise the result is \|t\| bytes shorter and putting t back at the last match rebuilds the text |
| PyStrings.RemoveLastKeepsEarlier | pystring.go:144-150 | every offset ending before the removed occurrence matches t afterwards exactly when it did before |
| PyStrings.Repeat | pystring.go:161-167 | n repetitions are n * \|s\| bytes long |
| PyStrings.RepeatBlock | pystring.go:161-167 | block k of n repetitions is s itself |
| PyStrings.DigitsAreAsciiRange | pystring.go:21 | a value is in Digits exactly when it is a byte from '0' to '9' |
| PyStrings.DigitRune | pystring.go:117-124 | the rune decoded at a position is a digit exactly when the byte there is one, and then it is that byte with width 1 |
| GoStrings.Index | pystring.go:57 | -1, or an offset at which t fits inside s |
| GoStrings.IndexSpec | pystring.go:57 | t occurs at the offset Index returns and at none before it; -1 exactly when t occurs nowhere |
| GoStrings.IndexFromSpec | pystring.go:57 | the forward search from an offset finds a match and skips no earlier one |
| GoStrings.LastIndex | pystring.go:154 | -1, or an offset at which t fits inside s |
| GoStrings.LastIndexSpec | pystring.go:154 | t occurs at the offset LastIndex returns and at none after it; -1 exactly when t occurs nowhere |
| GoStrings.LastIndexFromSpec | pystring.go:154 | the backward search from an offset finds a match and skips no later one |
| GoStrings.Count | pystring.go:48 | the empty t counts runes plus one; otherwise the count times \|t\| fits in the text; zero exactly when Index is -1 |
| GoStrings.CountMatches | pystring.go:48 | strings.Count's loop for a non-empty t: find the first occurrence, count it, go on after it; at most \|s\| occurrences, and MatchOffsetsSpec and CountMatchesMaximal state what it counts |
| GoStrings.MatchOffsetsSpec | pystring.go:48 | the offsets the left-to-right scan finds are as many as it counts, and they are greedy: each a match, none overlapping the previous, no match skipped before the first, between them or after the last |
| GoStrings.CountMatchesMaximal | pystring.go:48 | no list of non-overlapping occurrences of a non-empty t is longer than the greedy count |
| GoStrings.CountSpec | pystring.go:48 | for a non-empty t, Count is the number of greedy match offsets and the largest number of non-overlapping occurrences |
| GoStrings.CountMatchesBound | pystring.go:48 | the greedy left-to-right count of a non-empty t times \|t\| is at most \|s\| |
| GoStrings.AppendKeepsFirstMatch | pystring.go:133-134 | appending text does not move an existing first occurrence |
| GoStrings.SplitPieces | pystring.go:158 | genSplit with a non-empty sep and no limit: at least one and at most \|s\| + 1 pieces; SplitPiecesJoin, SplitPiecesFirstCut and SplitPiecesUnique state which pieces |
| GoStrings.SplitPiecesCount | pystring.go:158 | the split by a non-empty sep has one more piece than the greedy count |
| GoStrings.SplitPiecesJoin | pystring.go:158 | joining the pieces with sep rebuilds the text |
| GoStrings.SplitPiecesNoSep | pystring.go:158 | no piece contains sep |
| GoStrings.CutAtFirst | pystring.go:158 | the text before the first sep, followed by sep, has its first sep right after that text |
| GoStrings.SplitPiecesFirstCut | pystring.go:158 | each piece but the last, followed by sep, has its first sep right after the piece: the cut is at the first occurrence |
| GoStrings.SplitPiecesUnique | pystring.go:158 | any pieces that join to the text, are each cut at the first sep and end with a piece without sep are exactly the split |
| GoStrings.Explode | pystring.go:158 | explode, the split by the empty sep: at most \|s\| pieces, and none exactly for the empty text; ExplodeSpec, ExplodeRunes and ExplodeUnique state which pieces |
| GoStrings.ExplodeSpec | pystring.go:158 | the split by the empty sep gives one piece per rune, 1 to 4 bytes each, that join back to the text |
| GoStrings.ExplodeRunes | pystring.go:158 | each piece of the empty-sep split is the bytes of the rune decoded at the front of what remains |
| GoStrings.ExplodeUnique | pystring.go:158 | any pieces that join to the text and are each the first rune of what remains are exactly the empty-sep split |
| GoStrings.Split | pystring.go:158 | strings.Split: explode for the empty sep, genSplit otherwise; 1 to \|s\| + 1 pieces for a non-empty sep, at most \|s\| pieces and none exactly for the empty text for the empty sep; SplitJoin states its meaning |
| GoStrings.SplitJoin | pystring.go:158 | for every sep: join(split) == text and the piece count against Count; for a non-empty sep no piece contains it and every piece but the last is cut at the first sep; for the empty sep every piece is the first rune of what remains |
| GoStrings.PrefixIsFirstMatch | pystring.go:80-91 | s starts with t exactly when Index(s, t) == 0 |
| GoStrings.SuffixIsLastMatch | pystring.go:66-78 | s ends with t exactly when t is no longer than s and LastIndex(s, t) == \|s\| - \|t\| |
| GoStrings.FirstRuneNot | pystring.go:43 | indexFunc(s, f, false) resumed at i: -1 or an offset from i inside s; FirstRuneNotSpec states what it finds |
| GoStrings.TrimLeftFunc | pystring.go:43 | strings.TrimLeftFunc keeps a suffix of the text; TrimLeftFuncSpec states that it drops only runes f accepts |
| GoStrings.FirstRuneNotSpec | pystring.go:43 | for any rune predicate f that rejects RuneError, the forward scan of the left trim passes only runes f accepts and stops at one it rejects |
| GoStrings.LastRuneNot | pystring.go:43 | lastIndexFunc(s[..i], f, false): -1 or an offset before i; LastRuneNotSpec states what it finds |
| GoStrings.TrimRightFunc | pystring.go:43 | strings.TrimRightFunc keeps a prefix of the text; TrimRightFuncSpec states that it drops only runes f accepts |
| GoStrings.LastRuneNotSpec | pystring.go:43 | for such an f, the backward scan of the right trim passes only runes f accepts and stops after one it rejects |
| GoStrings.TrimLeftFuncSpec | pystring.go:43 | TrimLeftFunc keeps a suffix and drops only runes f accepts |
| GoStrings.TrimRightFuncSpec | pystring.go:43 | TrimRightFunc keeps a prefix, drops only runes f accepts, and f rejects the last rune it keeps |
| GoStrings.TrimFunc | pystring.go:43 | strings.TrimFunc, the left trim then the right trim: never longer than the text; TrimFuncInfix and TrimFuncEnds state its meaning |
| GoStrings.TrimFuncInfix | pystring.go:43 | TrimFunc keeps one contiguous infix of the text and f accepts all it drops on either side |
| GoStrings.TrimFuncEnds | pystring.go:43 | f rejects the first and the last rune of what TrimFunc keeps |
| GoStrings.TrimSpace | pystring.go:43 | strings.TrimSpace is TrimFunc with unicode.IsSpace, never longer than the text; TrimSpaceInfix and TrimSpaceEnds state its meaning |
| GoStrings.RuneErrorNotSpace | pystring.go:43 | unicode.IsSpace rejects RuneError, so the TrimFunc lemmas apply to TrimSpace |
| GoStrings.TrimSpaceInfix | pystring.go:43 | TrimSpace keeps one contiguous infix of the text, and all it drops on either side is white space |
| GoStrings.TrimSpaceEnds | pystring.go:43 | what TrimSpace keeps neither starts nor ends with a white-space rune |
| Unicode.IsSpace | pystring.go:43 | unicode.IsSpace: the Latin-1 white space (tab to carriage return, space, U+0085, U+00A0) and the White_Space code points above it, all between U+0009 and U+3000 |
| Utf8.DecodeRune | pystring.go:117 | the width is 1 to 4 bytes; ASCII decodes to itself; a width-1 decode of a non-ASCII byte is RuneError; a longer one starts with a lead byte followed by continuation bytes; which code point it yields is stated by DecodeEncode and EncodeDecode |
| Utf8.DecodeEncode | pystring.go:117 | whatever DecodeRune accepts is a valid rune (no overlong form, surrogate or value above U+10FFFF), and the bytes it consumed are exactly EncodeRune of that rune |
| Utf8.EncodeDecode | pystring.go:117 | every valid rune, encoded by EncodeRune and followed by any bytes, decodes back to itself with the width of its encoding |
| Utf8.DecodeRuneAppend | pystring.go:117 | a well-formed first rune decodes the same whatever follows it |
| Utf8.FindRuneStart | pystring.go:43 | DecodeLastRune's backward scan: the last offset down to the limit that can start a rune, with no such offset skipped, or one below the limit |
| Utf8.DecodeLastRune | pystring.go:43 | the last rune is either RuneError or exactly what forward decoding gives at its start; DecodeLastRuneWellFormed gives the converse |
| Utf8.DecodeLastRuneWellFormed | pystring.go:43 | a well-formed final encoding is decoded as forward decoding decodes it, whatever precedes it, so RuneError comes only from an invalid ending |
| Utf8.DecodeLastRuneEncoded | pystring.go:43 | a valid rune encoded at the end of any text decodes back, from the end, to itself with its encoded width |
| Utf8.RuneCount | pystring.go:48 | between \|s\| / 4 and \|s\| runes, and zero only for the empty text |
| Utf8.RuneCountAscii | pystring.go:48 | in ASCII text every byte is one rune |
| PyStringTests.IndexTest | pystring_test.go:29-35 | Index("bb") on "aabb" gives 2 and no error |
| PyStringTests.CountExample | pystring_test.go:21-27 | "aa" occurs 5 times, without overlap, in "aabbaaccaaddaaffaa" |
| PyStringTests.CountTest | pystring_test.go:21-27 | Count("aa") on that object gives 5 |
| PyStringTests.StripExample | pystring_test.go:13-19 | TrimSpace of "    \n\n\nhello\t\t\n\n\n" is "hello" |
| PyStringTests.StripTest | pystring_test.go:13-19 | Strip on that object leaves "hello" |
| PyStringTests.WideSpaceDecode | pystring.go:42-45 | NEL (C2 85) and the ideographic space (E3 80 80) decode to U+0085 and U+3000, and both are white space |
| PyStringTests.WideSpaceStripExample | pystring.go:42-45 | TrimSpace of "\u3000a\u00a0" is "a": multi-byte white space is dropped at both ends |
| PyStringTests.FirstRuneNotAfterRun | pystring.go:43 | over a run of ASCII bytes that f accepts the forward trim stops at the first ASCII byte f rejects |
| PyStringTests.LastRuneNotBeforeRun | pystring.go:43 | over a run of ASCII bytes that f accepts the backward trim stops at the last ASCII byte before it that f rejects |
| PyStringTests.SubtractTest | pystring.go:143-150 | subtracting "bc" from "abcabc" removes only the second "bc" |
| PyStringTests.IsDigitTest | pystring.go:112-130 | "2012" is all digits, "20x2" is not, and the empty text is not |
| PyStringTests.MultiplyTest | pystring.go:161-167 | "bc" times 3 is "bcbcbc"; times -1 it is empty |

## Left out

- Capitalize (pystring.go:37-40): it calls `strings.Title`, which needs Unicode letter and case tables. Not modelled.
- Encode (pystring.go:51-53): `[]byte(p.text)` is the identity once text is a byte sequence, so it would be Get again.
- The constant tables other than Digits (pystring.go:18-26): no modelled operation reads them.
- The source of Go's `strings`, `unicode` and `unicode/utf8` packages is not in this repository. `GoStrings`, `Unicode` and `Utf8` model their implementation in current Go, and the rows above cite the PyString lines that call them.
- Unicode.IsSpace follows the White_Space table of current Go releases. Go releases built on Unicode 6.0 also counted U+180E.
- GoStrings.ExplodeSpec: follows current Go, where each piece is the bytes of one rune. Go 1.0 replaced each invalid byte by U+FFFD.
- Go's `int` is 32 or 64 bits wide, depending on the platform. The model's integers are unbounded, so it does not capture an overflow of `n * len(text)` in Multiply, or running out of memory.
- PyStrings.PyString.Multiply: states the bytes written, not how `bytes.Buffer` grows.
- A method called on a nil `*PyString` panics in Go. Dafny references here are non-null, so that case is not modelled.
- `pystring_test.go` reads a field `.s`, but PyString's field is `text`, so that file does not compile as written. Its cases are modelled against `text`. The Capitalize test is left out with Capitalize.
