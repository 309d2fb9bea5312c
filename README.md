# Matroska duration extraction and video helpers, modelled in Dafny

This project models how the media library's backend finds the length of a
Matroska (`.mkv`) file, and two pure rules of its video module.

**The extractor.** `src-tauri/src/metadata.rs` reads just enough of the file's
EBML tag–length–value structure (RFC 8794) to recover two values of the
Segment's Info element: `TimecodeScale` (TimestampScale, RFC 9559, section 5.1)
and the `Duration`. The model is built in layers:

- **Decoders.** Module `Ebml` gives the decoders as functions over the bytes of
  the file:
  - the size-mode variable-size integer (`read_vint`), which strips the length
    marker;
  - the element ID (`read_element_id`), which keeps the marker and has 1 to 4
    bytes;
  - the big-endian fold `bytes_to_u64`, wrapping at 2^64.
- **Reader.** Module `EbmlReader` has the class `Reader`: the bytes plus a
  mutable stream position. Its `ReadVint` and `ReadElementId` are the loops of
  the Rust code, each proved to compute the `Ebml` function.
- **The walk.** Module `Mkv` specifies it as functions. First come the magic
  number, the skip over the EBML header, and the Segment ID and size. Then the
  Segment scan and, inside each Info element, the Info scan. Both stop at the
  end of their region or as soon as both values are known. The walk ends with
  an error if either value is missing.
  - Method `GetMkvMetadata` runs the same walk with the nested `while` loops of
    `get_mkv_metadata` over a `Reader`. It is proved to return exactly
    `MetadataOf(data)`. Its checks before the scan are the method
    `ReadSegmentSpan`, proved to compute `SegmentSpan`.
- **Encoders.** Module `EbmlEncoding` writes sizes and IDs, and proves that
  they decode back and that decoding is unique.
- **File layouts.** Module `MkvLayout` describes well-formed files as values: a
  header, a Segment of children, Info elements holding their children. It
  proves that the walk over the bytes of such a file equals a plain fold over
  its children, provided the Segment holds nothing after its children or the
  fold finds both values among them.
- **Properties.** Module `MkvProperties` proves:
  - what each pre-scan check rejects;
  - that any answer other than end-of-file does not depend on bytes after the
    ones read;
  - where the scans stop;
  - how values found in different Info elements combine.
- **Examples.** Module `MkvExamples` works two concrete files through the walk.

**The video rules.** In `src-tauri/src/video.rs`, module `Video` models two
rules:

- **`get_duration`.** The split of whole seconds into hours, minutes and
  seconds, and the `HH:MM:SS` text made from it. A failed extraction gives
  "00:00:00", and the answer is always `Ok`.
- **`choose_best_subtitle`.** The score of each candidate subtitle, and the
  choice `max_by_key` makes:
  - an exact stem scores 3;
  - a language keyword, plus the `SxxEyy` code for a series, scores 2;
  - any other readable stem scores 1;
  - no readable stem scores 0.

  When several candidates share the best score, `max_by_key` picks the last of
  them.

**Where the code and its tests disagree, the model follows the code:**

- **The 0x1A test.** The unit test at `src-tauri/src/metadata.rs:196-199`
  expects the single byte `0x1A` to read as a complete one-byte ID. But
  `0x1A` has its first set bit at `0x10`, so the code asks for three more
  bytes and fails with end-of-file. `0x1A` is the first byte of the 4-byte
  EBML header ID, so the code is the correct side. `Ebml.IdSingle0x1AIsTruncated`
  states the code's answer.
- **Values across Info elements.** The Rust function keeps `timecode_scale` and
  `duration` across Info elements. A TimecodeScale in one Info element and a
  Duration in a later one therefore combine into one answer. The model does
  the same (`MkvProperties.ValuesCombineAcrossInfo`), instead of requiring
  both values to come from one Info element.
- **The commented-out fixture.** The bytes left commented out of
  `test_get_video_metadata` declare a Segment of one byte, `0x00`. The walk
  rejects that byte as an element ID (`MkvExamples.CommentedFixtureIsRejected`).

**Representation:**

- **Bytes** are `Byte` (0..255). Integers are unbounded: the u64 wrap of the
  fold is written out as `% 2^64`, and no other value the model computes can
  reach 2^64.
- **Errors.** `MkvError` has one constructor per error message of the Rust
  code, plus these:
  - `UnexpectedEof` for a failed `read_exact`;
  - `FieldTooLarge(size)` for a TimecodeScale or Duration wider than 8 bytes.
    There the Rust code panics, because it slices an 8-byte buffer.
- **The duration** is kept as the bit pattern `bytes_to_f64` reinterprets:
  `Single(bits)`, `Double(bits)`, or `Zero` for any other length.
- **Parameters.** The file's contents are passed in as a byte sequence. The
  extraction result handed to `get_duration` is a parameter in whole seconds.
  The two file stems are parameters of type `Option<string>`. What
  `parse_series_info` found is a parameter of type `SeriesInfo`.

## Model

| member | source | states |
|---|---|---|
| `Ebml.BytesToU64` | src-tauri/src/metadata.rs:64-66 | the big-endian fold of the bytes kept in u64 range (below 2^64) |
| `Ebml.BytesToU64Empty` | src-tauri/src/metadata.rs:64-66 | the fold of no bytes is 0 |
| `Ebml.BytesToU64Append` | src-tauri/src/metadata.rs:64-66 | appending byte b to fewer than 8 bytes gives the old value times 256 plus b |
| `Ebml.BytesToU64IsBeValue` | src-tauri/src/metadata.rs:64-66 | for at most 8 bytes the fold is the exact big-endian value, below 256^length |
| `Ebml.BeFoldValue` | src-tauri/src/metadata.rs:33-35 | the shift-and-or loop from an accumulated value over bytes from..to gives that value shifted by their number of bytes plus their big-endian value |
| `Ebml.VintLength` | src-tauri/src/metadata.rs:19-29 | the length found by testing bits 0x80, 0x40, … is at most 8, and 0 exactly for the byte 0x00 |
| `Ebml.IdLength` | src-tauri/src/metadata.rs:46-52 | the ID length is at most 4, 0 exactly for a first byte below 0x10, otherwise the vint length |
| `Ebml.VintLengthRange` | src-tauri/src/metadata.rs:19-25 | a non-zero length n means the marker is 2^(8-n) and the byte lies in [2^(8-n), 2^(9-n)) |
| `Ebml.VintLengthOfRange` | src-tauri/src/metadata.rs:19-25 | conversely a byte in [2^(8-n), 2^(9-n)) has length n |
| `Ebml.ReadAt` | src-tauri/src/metadata.rs:32 | `read_exact` of n bytes succeeds iff n is 0 or the bytes are there, yields the empty buffer for n = 0 and otherwise exactly the n bytes at the position, and otherwise fails with end-of-file |
| `Ebml.VintAt` | src-tauri/src/metadata.rs:12-38 | a decoded size ends 1 to 8 bytes after it starts, inside the data; the only errors are end-of-file and invalid encoding |
| `Ebml.IdAt` | src-tauri/src/metadata.rs:41-61 | a decoded ID ends 1 to 4 bytes after it starts, inside the data; the only errors are end-of-file and invalid ID |
| `Ebml.VintDecodes` | src-tauri/src/metadata.rs:19-36 | for a first byte whose leading set bit is at index i, exactly i+1 bytes are consumed and the value is the byte without marker and higher bits followed big-endian by the next i bytes |
| `Ebml.VintZero` | src-tauri/src/metadata.rs:27-29 | a first byte 0x00 is an invalid encoding |
| `Ebml.VintErrors` | src-tauri/src/metadata.rs:12-38 | a size read fails as an invalid encoding iff its first byte is 0x00, and with end-of-file iff the first byte or its continuation bytes are missing |
| `Ebml.VintValueBound` | src-tauri/src/metadata.rs:19-35 | a size of n bytes is below 2^(7n) |
| `Ebml.VintIsBigEndian` | src-tauri/src/metadata.rs:19-35 | the size plus its marker 2^(7n) is the big-endian value of its n bytes |
| `Ebml.VintOfValue` | src-tauri/src/metadata.rs:12-38 | n bytes whose big-endian value lies in [2^(7n), 2^(7n+1)) decode as a size of n bytes with the marker removed |
| `Ebml.VintOneByte` | src-tauri/src/metadata.rs:19-37 | the byte 0x80+n decodes as n |
| `Ebml.VintExamples` | src-tauri/src/metadata.rs:177-192 | `[0x81]`, `[0x40,0x01]` and `[0x20,0x00,0x01]` all decode as 1 |
| `Ebml.IdDecodes` | src-tauri/src/metadata.rs:41-61 | for a first byte with leading set bit at index i < 4, i+1 bytes are read and the ID is their big-endian value, marker kept |
| `Ebml.IdErrors` | src-tauri/src/metadata.rs:41-61 | an ID read fails as an invalid ID iff its first byte is below 0x10, and with end-of-file iff the first byte or the rest of the ID is missing |
| `Ebml.IdIsBigEndian` | src-tauri/src/metadata.rs:54-58 | every decoded ID is the big-endian value of the bytes it occupies |
| `Ebml.IdBelowMarkers` | src-tauri/src/metadata.rs:46-51 | a first byte below 0x10 is an invalid element ID |
| `Ebml.IdIsSizeWithMarker` | src-tauri/src/metadata.rs:12-61 | wherever an ID decodes, the size decoder reads the same bytes and the ID is that size plus its marker |
| `Ebml.IdOfValue` | src-tauri/src/metadata.rs:41-61 | 1 to 4 bytes whose value lies in [2^(7n), 2^(7n+1)) decode as that ID |
| `Ebml.IdExamples` | src-tauri/src/metadata.rs:201-209 | `[0x40,0x00]` reads as 0x4000 and `[0x20,0x00,0x00]` as 0x200000 |
| `Ebml.IdSingle0x1AIsTruncated` | src-tauri/src/metadata.rs:195-199 | the lone byte 0x1A waits for three more bytes and fails with end-of-file, unlike the test's expectation |
| `EbmlEncoding.VintAtLocal` | src-tauri/src/metadata.rs:12-38 | a size decodes the same inside a larger file as on its own bytes |
| `EbmlEncoding.IdAtLocal` | src-tauri/src/metadata.rs:41-61 | an ID decodes the same inside a larger file as on its own bytes |
| `EbmlEncoding.BeEncodeRoundTrip` | src-tauri/src/metadata.rs:64-66 | writing a value below 256^n in n big-endian bytes and reading it back gives the value |
| `EbmlEncoding.BeValueRoundTrip` | src-tauri/src/metadata.rs:64-66 | every byte string is the big-endian writing of its value |
| `EbmlEncoding.SizeRoundTrip` | src-tauri/src/metadata.rs:12-38 | a size below 2^(7n) written with an n-byte marker decodes back to itself in n bytes |
| `EbmlEncoding.SizeAtEncoded` | src-tauri/src/metadata.rs:12-38 | the same round trip at any position of a file |
| `EbmlEncoding.SizeEncodingUnique` | src-tauri/src/metadata.rs:12-38 | any bytes that decode entirely as size v are the canonical writing of v |
| `EbmlEncoding.IdRoundTrip` | src-tauri/src/metadata.rs:41-61 | a valid ID of length n written big-endian decodes back to itself |
| `EbmlEncoding.IdAtEncoded` | src-tauri/src/metadata.rs:41-61 | the same round trip at any position of a file |
| `EbmlEncoding.IdAtIsOfLength` | src-tauri/src/metadata.rs:41-61 | every decoded ID is a valid ID of the length read |
| `EbmlEncoding.IdEncodingUnique` | src-tauri/src/metadata.rs:41-61 | any bytes that decode entirely as an ID are its canonical writing |
| `EbmlReader.Reader.constructor` | src-tauri/src/metadata.rs:88-89 | a reader over the file's bytes starts at position 0 |
| `EbmlReader.Reader.ReadExact` | src-tauri/src/metadata.rs:123-124 | `read_exact` returns `ReadAt` at the current position and advances by n on success |
| `EbmlReader.Reader.Seek` | src-tauri/src/metadata.rs:98 | a relative seek only moves the position, also past the end |
| `EbmlReader.Reader.ReadVint` | src-tauri/src/metadata.rs:12-38 | the loop returns the size `VintAt` decodes and leaves the position after it; an invalid first byte consumes only that byte |
| `EbmlReader.Reader.ReadElementId` | src-tauri/src/metadata.rs:41-61 | the loop returns the ID `IdAt` decodes and leaves the position after it |
| `Mkv.BytesToF64` | src-tauri/src/metadata.rs:69-75 | 4 bytes are a single-precision pattern, 8 bytes a double-precision one, each equal to the big-endian fold; any other length is 0.0 |
| `Mkv.InfoValueSets` | src-tauri/src/metadata.rs:121-131 | a TimecodeScale child sets the scale to the fold of its payload and keeps the duration; a Duration child sets the duration and keeps the scale; any other child changes nothing |
| `Mkv.InfoStepTooLarge` | src-tauri/src/metadata.rs:121-131 | a TimecodeScale or Duration child whose size decodes above 8 gives `FieldTooLarge` of that size |
| `Mkv.InfoStep` | src-tauri/src/metadata.rs:118-137 | each Info child advances the position by at least an ID byte and a size byte |
| `Mkv.ScanInfo` | src-tauri/src/metadata.rs:116-142 | the Info scan never moves backwards |
| `Mkv.SegmentStep` | src-tauri/src/metadata.rs:112-145 | each Segment child advances the position by at least two bytes |
| `Mkv.ScanSegment` | src-tauri/src/metadata.rs:111-150 | the Segment scan never moves backwards |
| `Mkv.Finish` | src-tauri/src/metadata.rs:152-161 | a record iff both values were found, holding exactly them; missing TimecodeScale iff no scale; missing Duration iff a scale but no duration |
| `Mkv.SegmentSpan` | src-tauri/src/metadata.rs:91-106 | the Segment's children start after the magic number and end no earlier than they start |
| `Mkv.ReadInfoChild` | src-tauri/src/metadata.rs:118-137 | one pass of the inner loop gives `InfoStep`'s values or error and leaves the reader where `InfoStep` ends |
| `Mkv.ScanInfoElement` | src-tauri/src/metadata.rs:116-142 | the inner loop gives `ScanInfo`'s values or error and leaves the reader where `ScanInfo` ends |
| `Mkv.ReadSegmentChild` | src-tauri/src/metadata.rs:112-145 | one pass of the outer loop agrees with `SegmentStep` |
| `Mkv.MetadataOf` | src-tauri/src/metadata.rs:87-162 | a record is returned only when the first four bytes fold to the EBML magic number and the header and Segment envelope decode |
| `Mkv.ReadSegmentSpan` | src-tauri/src/metadata.rs:91-106 | the reads from the start of the file return exactly `SegmentSpan` of its bytes and leave the reader at the Segment's first child |
| `Mkv.GetMkvMetadata` | src-tauri/src/metadata.rs:87-162 | the imperative walk returns exactly `MetadataOf(data)` |
| `MkvLayout.MatroskaIdLengths` | src-tauri/src/metadata.rs:5-9 | the five constants are valid IDs of 4, 4, 4, 3 and 2 bytes |
| `MkvLayout.CanonicalIsWellFormed` | src-tauri/src/metadata.rs:112-113 | an element written with a valid ID and a size field wide enough for its payload decodes as itself |
| `MkvLayout.WellFormedIsCanonical` | src-tauri/src/metadata.rs:112-113 | every well-formed element is such a canonical writing |
| `MkvLayout.ElementAt` | src-tauri/src/metadata.rs:112-113 | at a well-formed element the ID and size decode to its ID and payload length, and the payload follows |
| `MkvLayout.InfoStepOn` | src-tauri/src/metadata.rs:118-137 | an Info child is consumed whole: TimecodeScale and Duration set their value from the payload, any other child is skipped by exactly its declared size |
| `MkvLayout.InfoStepOnTooLarge` | src-tauri/src/metadata.rs:121-131 | an encoded TimecodeScale or Duration child with a payload over 8 bytes gives `FieldTooLarge` of the payload length |
| `MkvLayout.SegmentStepOther` | src-tauri/src/metadata.rs:143-145 | a Segment child other than Info is skipped by exactly its declared size and changes no value |
| `MkvLayout.SegmentStepInfo` | src-tauri/src/metadata.rs:115-142 | an Info element folds its children into the values and ends at its own end unless both values are known |
| `MkvLayout.ScanInfoOfChildren` | src-tauri/src/metadata.rs:116-142 | the Info scan over encoded children yields their fold, stopping early only with both values known |
| `MkvLayout.ScanSegmentOfChildren` | src-tauri/src/metadata.rs:111-150 | the Segment scan over encoded children yields their fold |
| `MkvLayout.HeaderAt` | src-tauri/src/metadata.rs:91-97 | a file starting with an EBML header passes the magic check and its header size decodes |
| `MkvLayout.SegmentSpanAt` | src-tauri/src/metadata.rs:91-106 | magic, header size, Segment ID and Segment size as decoded fix where the Segment's children start and end |
| `MkvLayout.FileLayoutAt` | src-tauri/src/metadata.rs:91-106 | in an encoded file every field of the envelope decodes to its layout value |
| `MkvLayout.FileSpanAt` | src-tauri/src/metadata.rs:91-106 | in an encoded file the Segment span is exactly the bytes of its children and tail |
| `MkvLayout.MetadataOfScan` | src-tauri/src/metadata.rs:108-153 | the answer is `Finish` of what the Segment scan found |
| `MkvLayout.MetadataOfFile` | src-tauri/src/metadata.rs:87-162 | for any well-formed encoded file without trailing bytes in the Segment (or whose children supply both values), the answer is `Finish` of the fold over its children |
| `MkvProperties.ShortInputIsEof` | src-tauri/src/metadata.rs:91-92 | fewer than 4 bytes fail with end-of-file |
| `MkvProperties.WrongMagicIsInvalid` | src-tauri/src/metadata.rs:93-95 | four bytes that do not fold to 0x1A45DFA3 give "Invalid MKV file" |
| `MkvProperties.AnswerNeedsMagic` | src-tauri/src/metadata.rs:91-95 | any answer other than those two errors implies the magic number is present |
| `MkvProperties.WrongSegmentIsInvalid` | src-tauri/src/metadata.rs:97-103 | after the header skip, an ID other than 0x18538067 gives "Invalid Segment element" |
| `MkvProperties.BeFoldExtends` | src-tauri/src/metadata.rs:33-35 | the fold over bytes the data holds is unchanged by appended bytes |
| `MkvProperties.IdAtExtends` | src-tauri/src/metadata.rs:41-61 | an ID read that does not hit the end is unchanged by appended bytes |
| `MkvProperties.VintAtExtends` | src-tauri/src/metadata.rs:12-38 | a size read that does not hit the end is unchanged by appended bytes |
| `MkvProperties.ReadAtExtends` | src-tauri/src/metadata.rs:123-124 | a successful read is unchanged by appended bytes |
| `MkvProperties.InfoStepExtends` | src-tauri/src/metadata.rs:118-137 | the same for one Info child |
| `MkvProperties.ScanInfoExtends` | src-tauri/src/metadata.rs:116-142 | the same for the Info scan |
| `MkvProperties.SegmentStepExtends` | src-tauri/src/metadata.rs:112-145 | the same for one Segment child |
| `MkvProperties.ScanSegmentExtends` | src-tauri/src/metadata.rs:111-150 | the same for the Segment scan |
| `MkvProperties.SegmentSpanExtends` | src-tauri/src/metadata.rs:91-106 | the same for the pre-scan checks |
| `MkvProperties.AnswerIgnoresTrailingBytes` | src-tauri/src/metadata.rs:87-162 | an answer other than end-of-file stays the same whatever bytes follow: the walk is forward-only and bounded by what it read |
| `MkvProperties.ScanInfoStops` | src-tauri/src/metadata.rs:117-141 | the inner loop ends at or past the Info element's end unless both values are known, and never loses a value already found |
| `MkvProperties.ScanSegmentStops` | src-tauri/src/metadata.rs:111-149 | the outer loop ends at or past the Segment's end unless both values are known, and never loses a value already found |
| `MkvProperties.SegmentFoldOfOthers` | src-tauri/src/metadata.rs:143-145 | children other than Info change no value |
| `MkvProperties.NoInfoIsMissingScale` | src-tauri/src/metadata.rs:143-152 | a Segment without Info elements gives "Missing TimecodeScale" |
| `MkvProperties.ScaleAloneIsMissingDuration` | src-tauri/src/metadata.rs:152-153 | an Info element with only a TimecodeScale gives "Missing Duration", never a partial record |
| `MkvProperties.InfoFoldWithoutDuration` | src-tauri/src/metadata.rs:118-137 | Info children without a Duration leave the Duration missing, and the scale is known afterwards iff it was before or one of them is a TimecodeScale |
| `MkvProperties.SegmentFoldWithoutDuration` | src-tauri/src/metadata.rs:108-150 | the same over the children of the Segment |
| `MkvProperties.NoDurationIsMissing` | src-tauri/src/metadata.rs:152-161 | a file with no Duration anywhere gives "Missing Duration" if some Info element holds a TimecodeScale, "Missing TimecodeScale" otherwise |
| `MkvProperties.ValuesCombineAcrossInfo` | src-tauri/src/metadata.rs:108-150 | a TimecodeScale in one Info and a Duration in the next combine into one record |
| `MkvProperties.LaterScaleWins` | src-tauri/src/metadata.rs:122-126 | of two TimecodeScale children before the Duration, the later one is reported |
| `MkvExamples.FoldBytes` | src-tauri/src/metadata.rs:64-66 | the fold of three or four bytes, byte by byte |
| `MkvExamples.ExampleValues` | src-tauri/src/metadata.rs:64-75 | 0F 42 40 folds to 1000000 and 45 9C 40 00 is a single-precision pattern |
| `MkvExamples.ExampleFileMetadata` | src-tauri/src/metadata.rs:87-162 | a minimal 29-byte file yields TimecodeScale 1000000 and its 4-byte Duration |
| `MkvExamples.CommentedFixtureHeader` | src-tauri/src/metadata.rs:217-218 | the fixture's magic and header size as read |
| `MkvExamples.CommentedFixtureSegment` | src-tauri/src/metadata.rs:219-221 | the fixture's Segment ID and size of 1, and the byte 0x00 where its first child should start |
| `MkvExamples.CommentedFixtureIsRejected` | src-tauri/src/metadata.rs:216-226 | the commented-out fixture's Segment spans one byte, 0x00, so the walk fails with an invalid element ID |
| `Video.DigitChar` | src-tauri/src/video.rs:26 | the character of a digit is a digit with that value |
| `Video.Decimal` | src-tauri/src/video.rs:26 | decimal text is non-empty digits, one digit exactly below ten, no leading zero above |
| `Video.DecimalRoundTrip` | src-tauri/src/video.rs:26 | decimal text reads back as the number |
| `Video.Pad2` | src-tauri/src/video.rs:26 | `{:02}` gives at least two digits, exactly two below 100: '0' then the digit below ten, exactly the decimal digits from ten on |
| `Video.Pad2RoundTrip` | src-tauri/src/video.rs:26 | a padded field reads back as the number |
| `Video.SplitSeconds` | src-tauri/src/video.rs:22-24 | minutes and seconds are below 60 and hours*3600 + minutes*60 + seconds is the total |
| `Video.SplitSecondsUnique` | src-tauri/src/video.rs:22-24 | the split is the only such clock for that total |
| `Video.DigitRun` | src-tauri/src/video.rs:26 | the leading digits and the rest together are the text, the rest starting with a non-digit |
| `Video.ParseClockOf` | src-tauri/src/video.rs:26 | three non-empty digit runs joined by colons parse as their three values |
| `Video.FormatClock` | src-tauri/src/video.rs:26 | the text is as long as the three padded fields plus two colons, with a colon right after the hours field; below 60 minutes and seconds it is the hours field plus six characters `:MM:SS`, colons in place |
| `Video.FormatClockRoundTrip` | src-tauri/src/video.rs:26 | the `HH:MM:SS` text parses back as the clock it was made from |
| `Video.GetDuration` | src-tauri/src/video.rs:9-28 | the answer is always `Ok` with the `HH:MM:SS` text `FormatClock` makes of the split of the extracted seconds, or of 0 on failure, and that text parses back as the split |
| `Video.FailedDurationIsZero` | src-tauri/src/video.rs:16-19 | a failed extraction shows as "00:00:00" |
| `Video.ZeroClockText` | src-tauri/src/video.rs:26 | zero hours, minutes and seconds print as "00:00:00" |
| `Video.DurationTextLength` | src-tauri/src/video.rs:26 | the text has at least 8 characters, exactly 8 iff under 100 hours |
| `Video.ContainsOfOccurs` | src-tauri/src/video.rs:90-98 | an occurrence at an offset means `contains` |
| `Video.OccursOfContains` | src-tauri/src/video.rs:90-98 | `contains` yields an offset of an occurrence |
| `Video.ContainsIff` | src-tauri/src/video.rs:90-98 | `contains` holds iff the pattern occurs at some offset |
| `Video.AsciiLower` | src-tauri/src/video.rs:91-98 | `to_ascii_lowercase` keeps the length, moves A–Z to a–z and leaves every other character |
| `Video.AnyKeyword` | src-tauri/src/video.rs:91-98 | `any` holds iff some keyword is contained in the lowered stem |
| `Video.HasLanguageKeyword` | src-tauri/src/video.rs:91-98 | the keyword test holds iff one of the nine language keywords is contained in the stem lowered to ASCII lower case |
| `Video.Score` | src-tauri/src/video.rs:84-109 | at most 3; 0 iff no readable stem; 3 iff the video's stem; 2 iff another stem with a keyword and, for a series, the episode code |
| `Video.EpisodeAndKeywordScoreTwo` | src-tauri/src/video.rs:88-101 | a stem holding the episode code (for a series) and a lowered keyword, other than the video's, scores 2 |
| `Video.SeriesPattern` | src-tauri/src/video.rs:73-80 | empty iff the video is not a series; otherwise exactly 'S', the season padded by `Pad2`, 'E' and the episode padded by `Pad2`, at least 6 characters and exactly 6 when both are below 100 |
| `Video.EpisodeCodeS01E02` | src-tauri/src/video.rs:73-79 | season 1, episode 2 give the code "S01E02" |
| `Video.SeriesKeywordScoresTwo` | src-tauri/src/video.rs:72-92 | "Show.S01E02.CHS" scores 2 for the series video "Show.S01E02" |
| `Video.LastMaxIndex` | src-tauri/src/video.rs:84 | `max_by_key` picks an index of a greatest key with every later key smaller |
| `Video.LastMaxIndexUnique` | src-tauri/src/video.rs:84 | exactly one index has both properties |
| `Video.Scores` | src-tauri/src/video.rs:84-110 | the key of every candidate, in order |
| `Video.ChooseBestSubtitle` | src-tauri/src/video.rs:68-111 | nothing iff the video has no stem or there is no candidate; otherwise a candidate of greatest score, after which every candidate scores lower |
| `Video.ExactMatchIsChosen` | src-tauri/src/video.rs:84-87 | if some candidate has the video's stem, the chosen one has it too |

## Left out

- File access: opening the file and its 512 KiB buffer. The file's contents are a byte sequence parameter, and `mkv_metadata` is the same function as `get_mkv_metadata`.
- Floating point: `f32::from_bits`/`f64::from_be_bytes` are kept as the bit pattern, and the conversion of a single-precision value to `f64` is not modelled. `video_duration_seconds`, the float product at `src-tauri/src/metadata.rs:155`, is not modelled, so `MkvMetadata` has no such field.
- `Video.GetDuration`: its input is whole seconds. The `f64 as u64` cast, which truncates and saturates, and the call to the extractor are not modelled.
- `EbmlReader.Reader.ReadExact`: after a failed read the position is left unchanged. Rust leaves it unspecified, and every failed read ends the walk.
- `EbmlReader.Reader.Seek`: the `as i64` cast of a decoded size is taken to keep the value. A decoded size is below 2^56, so it does. The u64 addition at `src-tauri/src/metadata.rs:106` and `116` is taken not to overflow; positions are unbounded `nat`.
- `Mkv.InfoStep`: a TimecodeScale or Duration wider than 8 bytes gives `FieldTooLarge(size)` (`Mkv.InfoStepTooLarge`, `MkvLayout.InfoStepOnTooLarge`). The Rust code panics there when it slices its 8-byte buffer.
- EBML "unknown size" values are not special-cased, as in the code.
- Logging and `println!` output are not modelled.
- `parse_series_info` (regular expressions) is not modelled: its result is an input of type `SeriesInfo`. Season and episode are `nat`, while the source has `i32`. The regex groups are digit runs, so the values are never negative. `series_title` is not used by the score and is omitted.
- `clean_video_name` (regular expressions) and `find_subtitles` (directory listing) are not part of this model.
- The path operations `file_stem`, `to_string_lossy` and `to_str` are not modelled. The two stems are given as `Option<string>`:
  - The video's stem comes from `file_stem()?.to_string_lossy()` (`src-tauri/src/video.rs:69`). It is `None` only when the path has no stem; invalid UTF-8 is replaced, not rejected. The model's `videoStem` stands for the text after that replacement, and the replacement itself is not modelled.
  - A subtitle's stem comes from `file_stem().and_then(|s| s.to_str())` (`src-tauri/src/video.rs:85`). It is `None` when there is no stem or when the stem is not valid UTF-8.
- Strings are sequences of Unicode characters. On valid UTF-8, matching substrings character by character agrees with the byte-wise matching of `str::contains`.
- The rest of the repository (Tauri commands, database, HTTP client, logger) is not part of this model.
