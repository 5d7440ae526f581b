# Text codecs of txt-doc, modelled in Dafny

The repository's only non-trivial logic is in `lib/compression.ts`: a pair
of reversible text codecs.

- **Run-length codec** (`compressText`, `decompressText`). A run of three
  or more equal characters becomes its decimal count followed by the
  character; shorter runs are copied. The decoder reads a greedy digit run
  as a count, repeats the next character that many times, copies every
  other character, and drops a count that ends the input.
- **Dictionary codec** (`advancedCompressText`, `advancedDecompressText`).
  Texts of fewer than ten characters are run-length coded. Otherwise every
  substring of length 3 to 10 starting before offset `|t| - 3` is counted.
  The entries seen at least three times (and saving space) are ranked by
  length × count and the best twenty are taken. If none are left, the
  text is run-length coded. The chosen patterns are paired with the
  marker alphabet: control codes 1–31 without 10 and 13. Each pattern is
  replaced by its marker, in rank order. The output is a header of
  `marker, decimal length, pattern` entries, the unit separator (code 31),
  and the substituted body. The decoder run-length decodes any text
  without a separator. Otherwise it parses the header before the first
  separator into a marker → pattern record and expands the markers of the
  body (the text between the first and second separator), one marker at
  a time in record order.

## Modules

| file | module | contents |
|---|---|---|
| `decimal.dfy` | `Decimal` | digits, `n.toString()`, `parseInt` on a digit run |
| `text.dfy` | `Text` | `repeat`, `split`, `join`, split-then-join replacement |
| `records.dfy` | `Records` | a JavaScript object as an insertion-ordered sequence of key/value pairs |
| `rle.dfy` | `Rle` | the run-length codec: recursive specifications `Compress` and `Decompress`, and the source's loops as methods proved equal to them |
| `patterns.dfy` | `Patterns` | substring counting (a loop method proved equal to `CountTable`), the filter, the stable sort by score, the top-twenty selection |
| `dictionary.dfy` | `Dictionary` | markers, marker assignment, substitution, header writing, header parsing, marker expansion (each source loop a method proved equal to a specification function), and the pieces of the round trip |
| `advanced.dfy` | `Advanced` | the two dictionary-codec entry points, their output format and the round trip |

Every loop of the source is a `method` with a `while` or `for` loop. Most
of them are proved equal to a specification function: a recursive one,
or, for the marker loop, the sequence `Markers()`. The digit scans
(`Rle.ReadCount`, `Dictionary.ReadLength`) state the slice they read and
that it is the maximal digit run. A loop body with a loop of its own is a
method of its own. `Patterns.CountAtOffset` is proved equal to a tally.
`Rle.DecodeStep` and `Dictionary.ReadEntry` state the invariant of the
enclosing loop that one round keeps. The properties are lemmas about the
specification functions.

The round trip of the dictionary codec needs these conditions on the text
(`Advanced.RoundTripSafe`):
- no separator;
- none of the twenty markers the encoder can use;
- no digits.

Digits matter on both paths:
- The run-length fallback reads a digit as a count.
- In the header, a pattern that starts with a digit is read as part of
  its length (`Dictionary.LeadingDigitMisread`: the entry for the pattern
  `1ab` reads back as `ab`).

Code 31, the separator, is the 29th and last marker of the alphabet
(`Dictionary.MarkersEnumerate`). At most twenty patterns are chosen, so
only the first twenty markers (codes 1–9, 11, 12 and 14–22) are ever
assigned. `Advanced.UsedMarkers` proves that none of them is the
separator, a digit, a line feed or a carriage return.

A comment in `compressText` says that runs longer than three are encoded;
the code encodes runs of three or more, and the model follows the code.

## Model

| member | source | states |
|---|---|---|
| Decimal.NatToDecimal | lib/compression.ts:20 | the decimal rendering of a count is a non-empty digit string with no leading zero, one character long exactly for values below ten |
| Decimal.ParseRender | lib/compression.ts:54 | parsing the decimal rendering of any number gives the number back |
| Decimal.DecimalShorterThanValue | lib/compression.ts:17-20 | the decimal count of a run of two or more is shorter than the run, so a counted run never grows the text |
| Decimal.DigitRunOfPrefix | lib/compression.ts:46-49 | a greedy digit scan over digits followed by a non-digit stops exactly at the end of the digits |
| Text.Repeat | lib/compression.ts:23 | `c.repeat(n)` has length `n` and every character is `c` |
| Text.Split | lib/compression.ts:150 | splitting yields at least one piece |
| Text.JoinSplit | lib/compression.ts:122 | joining the pieces of a split with the separator restores the text |
| Text.ReplaceAllChar | lib/compression.ts:176 | split-and-join on a one-character marker replaces every occurrence of that character by the pattern |
| Text.ReplaceAllAvoids | lib/compression.ts:122 | a replacement introduces no character absent from the text and the replacement |
| Text.SplitWithoutSeparator | lib/compression.ts:150 | a text without the separator splits into itself alone |
| Text.SplitAtFirst | lib/compression.ts:150 | the first piece of a split ends at the first separator, and the rest is the split of what follows it |
| Text.SplitAbsent | lib/compression.ts:122 | a text in which the separator, of any length, occurs at no offset splits into itself alone |
| Text.SplitAtOccurrence | lib/compression.ts:122 | for a separator of any length, the first piece ends at its leftmost occurrence and the rest is the split of what follows that occurrence |
| Text.SplitPiecesLackSeparator | lib/compression.ts:122 | no piece of a split holds an occurrence of the separator |
| Text.SplitPiecesKeepAbsent | lib/compression.ts:122 | the pieces of a split hold no occurrence of a string the text does not hold |
| Text.ReplaceAllRemoves | lib/compression.ts:122 | replacing a pattern by a one-character marker the pattern does not contain leaves no occurrence of the pattern |
| Text.ReplaceAllKeepsAbsent | lib/compression.ts:122 | replacing any pattern by a one-character marker creates no occurrence of a string that does not contain the marker |
| Text.SplitHasTwoPieces | lib/compression.ts:144-150 | a text holding the separator splits into at least two pieces, so the header and the body both exist |
| Records.Put | lib/compression.ts:85 | assignment keeps every existing key in its place, appends a new key at the end and changes only the assigned key's entry |
| Records.GetAt | lib/compression.ts:85 | in a record with distinct keys, reading a key gives its own value |
| Records.GetMissing | lib/compression.ts:85 | reading an absent key gives the default, as `patterns[p] \|\| 0` does |
| Records.PutGet | lib/compression.ts:116 | assignment keeps keys distinct; reading back gives the assigned value for that key and the old value for every other |
| Records.PutAllDistinct | lib/compression.ts:114-117 | assigning pairs with distinct keys in turn yields exactly those pairs in that order |
| Rle.RunLength | lib/compression.ts:12-16 | the run at the start of a text is the longest prefix of one repeated character |
| Rle.CompressText | lib/compression.ts:6-30 | the encoding loop produces `Compress(text)`, the run-by-run encoding |
| Rle.DecompressText | lib/compression.ts:35-66 | the decoding loop, including its inner digit loop, produces `Decompress(compressed)` |
| Rle.DecodeStep | lib/compression.ts:42-62 | one round of the decoding loop consumes at least one character and keeps the output so far plus the decoding of the rest equal to the decoding of the whole input |
| Rle.ReadCount | lib/compression.ts:45-49 | the digit loop collects exactly the maximal run of digits starting at the current position |
| Rle.CompressRunThen | lib/compression.ts:14-25 | a maximal run is encoded on its own, ahead of the encoding of what follows it |
| Rle.CompressNeverLonger | lib/compression.ts:17-24 | the run-length encoding is never longer than the text |
| Rle.DecompressLiteralPrefix | lib/compression.ts:58-62 | characters that are not digits are copied through unchanged |
| Rle.DecompressCountedRun | lib/compression.ts:43-57 | a digit run followed by a non-digit decodes to that character repeated the parsed number of times, and decoding continues after it |
| Rle.DecompressTrailingCount | lib/compression.ts:52 | digits that end the input produce no output |
| Rle.DecodeEncodedRun | lib/compression.ts:19-24 | the decoder turns the encoding of any run of a non-digit back into the run |
| Rle.RleRoundTrip | lib/compression.ts:6-66 | decoding the encoding of a text without digits gives the text back |
| Rle.CompressAvoids | lib/compression.ts:6-30 | the encoding adds no character except digits, so a separator absent from the text is absent from the encoding |
| Patterns.CountPatterns | lib/compression.ts:79-87 | the outer counting loop, one offset after another below `\|text\| - 3`, produces `CountTable(text)` |
| Patterns.CountAtOffset | lib/compression.ts:83-86 | the inner loop adds one count for every window of 3 to 10 characters that starts at the offset and fits in the text |
| Patterns.TallyCounts | lib/compression.ts:85 | counting a sequence of substrings into a record adds to each key its number of occurrences in the sequence, and keeps keys distinct |
| Patterns.CountTableCounts | lib/compression.ts:82-87 | the count table has distinct keys, and the count of a substring of length 3 to 10 is its number of occurrences at offsets below `\|t\| - 3`; any other string counts 0 |
| Patterns.CountTableKeys | lib/compression.ts:82-87 | every counted key is a 3 to 10 character substring of the text whose count is its number of counted occurrences |
| Patterns.QualifiesByCount | lib/compression.ts:91 | for patterns of three or more characters the space-saving test adds nothing to "count at least three" |
| Patterns.Useful | lib/compression.ts:90-91 | the filter keeps exactly the entries that are seen at least three times and save space, and keeps keys distinct |
| Patterns.Insert | lib/compression.ts:92 | insertion into a list sorted by descending score adds exactly one entry and keeps the list sorted and its keys distinct |
| Patterns.SortByScore | lib/compression.ts:92 | the sort yields a permutation of its input in non-increasing order of length × count |
| Patterns.SelectedPatterns | lib/compression.ts:90-94 | the selection holds min(20, number of qualifying entries) distinct counted patterns, each qualifying, in non-increasing score order; a qualifying pattern is left out only when twenty were chosen, none of which scores lower |
| Patterns.LeftOutScoresLower | lib/compression.ts:92-93 | a qualifying pattern outside the selection scores no higher than any selected one, and the selection is full |
| Patterns.NothingSelected | lib/compression.ts:90-99 | the selection is empty exactly when no counted entry qualifies |
| Dictionary.GenerateMarkers | lib/compression.ts:104-112 | the marker loop produces the marker alphabet `Markers()` |
| Dictionary.MarkersEnumerate | lib/compression.ts:106-112 | the alphabet has 29 markers in increasing order, each a control code 1–31 other than 10 and 13, and each such code is in it |
| Dictionary.Pairs | lib/compression.ts:115 | pairing stops at the shorter of the two lists and pairs the k-th pattern with the k-th marker |
| Dictionary.AssignMarkers | lib/compression.ts:114-117 | the assignment loop builds the record from the pairs, assigned in turn |
| Dictionary.AssignedDictionary | lib/compression.ts:114-117 | with distinct patterns, the record holds exactly the pairs, in rank order |
| Dictionary.SubstitutePatterns | lib/compression.ts:119-123 | the replacement loop produces `Substitute(text, dictionary)`, one pattern after another in record order |
| Dictionary.BuildHeader | lib/compression.ts:125-130 | the header loop produces `Header(dictionary)` |
| Dictionary.DigitsEnd | lib/compression.ts:160-163 | the greedy length scan stops at the first non-digit or at the end of the header |
| Dictionary.ParseDictionary | lib/compression.ts:152-171 | the header parsing loop, with its digit loop, produces `HeaderDictionary(header)` |
| Dictionary.ReadEntry | lib/compression.ts:157-170 | one round of the parsing loop consumes at least one character and keeps the record so far, with the entries still to read assigned on top, equal to the parsed header |
| Dictionary.ReadLength | lib/compression.ts:160-163 | the length loop collects exactly the maximal run of digits after the marker |
| Dictionary.ExpandMarkers | lib/compression.ts:173-177 | the expansion loop produces `ExpandInOrder(content, dictionary)` |
| Dictionary.Inverse | lib/compression.ts:168 | the decoder's record maps each marker back to its pattern |
| Dictionary.HeaderRoundTrip | lib/compression.ts:125-130 | parsing a written header gives back every (marker, pattern) pair in order, when patterns are non-empty and do not start with a digit |
| Dictionary.HeaderLaidOut | lib/compression.ts:127-130 | a written header places each marker, then its length in digits ending exactly where the pattern starts, then the pattern, entry after entry to the end |
| Dictionary.LaidOutReadBack | lib/compression.ts:156-171 | the parser reads such a layout back as the (marker, pattern) pairs, in order |
| Dictionary.HeaderWithoutLengths | lib/compression.ts:165 | a header without digits yields no entries: a marker without a length is skipped |
| Dictionary.MarkerWithoutLength | lib/compression.ts:157-165 | a marker anywhere in the header that is not followed by a digit records nothing, and parsing goes on at the next character |
| Dictionary.HeaderTruncatedPattern | lib/compression.ts:166-169 | a length past the end of the header binds the marker to what is left of the header |
| Dictionary.TruncatedEntry | lib/compression.ts:161-169 | anywhere in the header, a length that runs past the end binds the marker to the rest of the header, and it is the last entry read |
| Dictionary.LeadingDigitMisread | lib/compression.ts:129 | a pattern starting with a digit is misread: the entry written for `1ab` reads back as `ab` |
| Dictionary.HeaderAvoids | lib/compression.ts:127-130 | a non-digit character that is no marker and occurs in no pattern is absent from the header |
| Dictionary.SubstituteAvoids | lib/compression.ts:120-123 | substitution introduces no character except markers |
| Dictionary.SubstituteKeepsAbsent | lib/compression.ts:120-123 | the replacement loop creates no occurrence of a string that holds none of the markers |
| Dictionary.SubstituteRemovesPatterns | lib/compression.ts:120-123 | when no marker occurs in any pattern, no pattern of the dictionary occurs in the substituted text |
| Dictionary.ExpandConcat | lib/compression.ts:174-177 | marker expansion distributes over concatenation |
| Dictionary.SubstitutePreservesExpand | lib/compression.ts:119-123 | replacing patterns by their markers does not change what the text expands to |
| Dictionary.InOrderIsSimultaneous | lib/compression.ts:174-177 | with distinct markers and no marker inside a pattern, expanding markers one after another equals expanding all at once |
| Dictionary.DictionaryRoundTrip | lib/compression.ts:119-123 | expanding the substituted text with the inverse record gives the text back, when markers are distinct and absent from the text |
| Advanced.AdvancedCompressText | lib/compression.ts:72-135 | the compressor's steps together produce `AdvancedCompress(text)` |
| Advanced.AdvancedDecompressText | lib/compression.ts:140-180 | the decompressor's steps together produce `AdvancedDecompress(compressed)` |
| Advanced.UsedMarkers | lib/compression.ts:106-117 | the first twenty markers are never a digit, line feed, carriage return or the separator |
| Advanced.EncoderDictionaryFacts | lib/compression.ts:90-117 | the encoder's record pairs the selected patterns, in rank order, with the first markers; there are at most twenty, each three to ten characters of the text; the markers are distinct |
| Advanced.BodyHoldsNoPattern | lib/compression.ts:114-123 | for a text without the encoder's marker characters, the substituted body holds no occurrence of any chosen pattern |
| Advanced.CompressFallback | lib/compression.ts:73-76 | a text of fewer than ten characters, or one in which no substring was counted three times, is run-length coded (the second case is lines 96-99) |
| Advanced.DecodeWithoutSeparator | lib/compression.ts:144-147 | input without a separator is run-length decoded |
| Advanced.DecodeSections | lib/compression.ts:144-177 | a text made of a header, a separator and a body without separators decodes to the body expanded with the parsed header |
| Advanced.DecodeIgnoresTail | lib/compression.ts:150 | anything after a second separator is ignored |
| Advanced.AdvancedFormat | lib/compression.ts:72-135 | for texts without a separator, the output carries a separator exactly when the text has at least ten characters and some substring was counted three or more times; otherwise it is the run-length encoding |
| Advanced.AdvancedRoundTrip | lib/compression.ts:72-180 | decompressing the compression of a text without digits, separator or usable markers gives the text back |
| Advanced.SafeDictionary | lib/compression.ts:90-117 | for a safe text, the encoder's patterns are non-empty, start with a non-digit and avoid the separator; its markers are distinct, absent from the text and not the separator |
| Advanced.DictionaryCodecRoundTrip | lib/compression.ts:119-177 | for any such dictionary, writing header, separator and substituted text and then decoding gives the text back |

## Left out

- JavaScript orders an object's integer-like keys (such as a pattern `123`) before its other keys when enumerating; the model enumerates every record in insertion order. On the encoder side this affects the rank order only through ties, and the dictionary order of patterns made of digits. On the decoder side a header can bind a digit marker: the header `\u0001` `1x` `3` `1\u0001` parses to `{"\u0001": "x", "3": "\u0001"}`. JavaScript expands `"3"` first, so the body `3` decodes to `x`. The model expands `\u0001` first, so it decodes to `\u0001`. Headers written by the encoder never have digit markers.
- Keys that name inherited object properties (`__proto__`, `constructor`, `toString`, ...) are treated as ordinary keys.
- Strings are modelled as sequences of characters; UTF-16 surrogate pairs are not split the way JavaScript indexing splits them.
- `parseInt` is modelled as exact; precision loss beyond 2^53, and the `RangeError` that `repeat` throws for huge counts, are not modelled.
- Text.Split: its own contract states only that there is at least one piece. Where the text is cut is stated by `Text.SplitAbsent`, `Text.SplitAtOccurrence` and `Text.SplitPiecesLackSeparator`.
- Patterns.SortByScore: the engine's `Array.prototype.sort` is modelled as a stable insertion sort; its contract states a sorted permutation, not which of several equal-score orders is produced.
- The pages under `app/` (file reading, downloads, zip bundling, progress display, floating-point compression ratios) and the character histogram `analyzeText` in `app/analyze/page.tsx` are not part of this model; they only call the codecs and display results.
- Performance (the quadratic split/join loops) is not modelled.
