# A Dafny model of qaac's `load_text_file`

`load_text_file(path, codepage)` reads a text file of at most 1 MiB and returns it as UTF-16 text. When the caller passes codepage 0, the platform's multi-language detector picks the encoding. The model follows the function step by step:

1. **Size guard.** A file of length 0 gives empty text at once. A length above 0x100000 fails with `path + ": file too big"`. Any other length is narrowed to its low 32 bits, which is the length itself.
2. **Codepage resolution.** Codepage 0 asks the detector for up to five ranked candidates. The first slot wins, unless 65001 (UTF-8) is among the scored slots. The buffer is then sniffed for a byte-order mark: `EF BB BF` gives 65001, `FF FE` gives 1200 and `FE FF` gives 1201. A mark overrides the earlier choice, including an explicit codepage from the caller.
3. **Two-pass conversion.** The first converter call measures the count `cnt`. A buffer of exactly `cnt` units is then filled and a 0 terminator is appended.
4. **BOM chop.** One leading U+FEFF is skipped. The rest, read as a NUL-terminated string, goes to the line-ending normalizer.

Files and modules:

- `types.dfy` (`Types`): bytes, UTF-16 code units, 32-bit codepages, the constants, `Option`, `Result`, the errors and the `Call` record of platform calls.
- `bom.dfy` (`Bom`): the three signatures, tied to the encodings of U+FEFF in UTF-8 (RFC 3629) and UTF-16 (RFC 2781). Also the sniff and the chop.
- `detect.dfy` (`Detect`): the detector's output and the candidate-selection loop.
- `convert.dfy` (`Convert`): the converter stand-in and the measure/fill/terminate sequence.
- `textfile.dfy` (`TextFile`): resolution, the whole operation, and lemmas about the composed behaviour.

Three platform services are parameters of the model:

- **Detector:** `detect: seq<byte> -> Option<Detection>`. A `Detection` has five slots and `0 <= nscores <= 5`. `None` stands for a failed HRESULT.
- **Converter:** `Converter(measure, fill)`. `measure` gives the needed count, or `None` on failure. `fill` gives the units written into a buffer of a given capacity, or `None` on failure.
- **Normalizer:** `normalize: seq<char16> -> seq<char16>`, which stands for `strutil::normalize_crlf`.

The methods also return a ghost trace of the platform calls they make. This is how the model states that a call is *not* made: no detection unless codepage is 0, and nothing at all for an empty or oversized file.

### Behaviour worth knowing

- Only one leading U+FEFF is removed. So the returned text can still begin with U+FEFF when the decoded text starts with two of them (`TextFile.SecondMarkSurvives`).
- The normalizer receives `&obuf[bom]`, a pointer to a NUL-terminated buffer. So an embedded U+0000 truncates the result (`TextFile.NulTruncatesText`).
- The UTF-8 preference looks only at the first `nscores` slots. If the detector scores nothing, slot 0 is still used, whatever it holds. So the chosen codepage is not guaranteed to be non-zero.
- A failed measuring or filling call ends the operation with that call's error and no text (`TextFile.ConversionFailureSurfaces`).
- The too-big error carries the message `path + ": file too big"`.

## Model

| member | source | states |
|---|---|---|
| `Bom.Utf8ThreeByte` | textfile.cpp:70 | the three-byte UTF-8 form of a code point in U+0800..U+FFFF outside the surrogates, with lead and continuation byte ranges; its contract decodes the bytes back to the code point |
| `Bom.Utf16LEUnit` | textfile.cpp:72 | a UTF-16 unit as two bytes, low byte first; the two bytes decode back to the unit |
| `Bom.Utf16BEUnit` | textfile.cpp:74 | a UTF-16 unit as two bytes, high byte first; the two bytes decode back to the unit |
| `Bom.MarksEncodeByteOrderMark` | textfile.cpp:70-75 | the signatures EF BB BF, FF FE and FE FF are U+FEFF encoded in UTF-8, UTF-16LE and UTF-16BE |
| `Bom.MarksExclusive` | textfile.cpp:70-75 | no buffer starts with two different signatures, so the order of the tests does not matter |
| `Bom.SniffBom` | textfile.cpp:70-75 | a buffer starting with EF BB BF resolves to 65001, with FF FE to 1200, with FE FF to 1201, whatever the earlier codepage; a buffer with no signature keeps the earlier codepage |
| `Bom.BomIndex` | textfile.cpp:85-87 | the skip index is 0 or 1, is 1 exactly over a leading U+FEFF, and lies inside any buffer that ends in its 0 terminator |
| `Bom.StripBom` | textfile.cpp:87-88 | the result is the input, or the input without exactly one leading U+FEFF; a leading U+FEFF is always removed, and nothing else changes |
| `Bom.StripBomKeepsSecondMark` | textfile.cpp:87 | of two leading U+FEFF units, the second is kept |
| `Bom.StripBomKeepsLaterMarks` | textfile.cpp:87 | a U+FEFF after the first unit is still in the result |
| `Detect.DetectedCodepage` | textfile.cpp:59-64 | 65001 if any scored slot names 65001, else slot 0; when at least one slot is scored the choice is one of the scored candidates |
| `Detect.SelectCandidate` | textfile.cpp:59-64 | the loop that starts from slot 0 and stops at the first scored 65001 returns the detector's choice, which is 65001 or slot 0 |
| `Detect.Utf8AtAnyRank` | textfile.cpp:60-64 | 65001 at any scored rank, not only the top one, decides the choice |
| `Convert.Zeros` | textfile.cpp:81 | the buffer of the measured size holds `cnt` zero units |
| `Convert.Overwrite` | textfile.cpp:83-84 | the fill keeps the buffer's size, writes the converter's units from the front, and leaves the other units as they were |
| `Convert.OverwriteWhole` | textfile.cpp:81-84 | a fill of exactly the buffer's size leaves exactly the converter's units |
| `Convert.TwoPass` | textfile.cpp:77-85 | a failed measuring call gives the measuring call's error, and a failed filling call gives the filling call's error; otherwise the buffer holds the measured count `cnt` of units followed by a 0, where unit `i < cnt` is the `i`-th unit the fill wrote, or 0 past a short fill; a converter that measures and fills the same units `w` yields `w + [0]` |
| `Convert.ConvertToUnicode` | textfile.cpp:77-85 | the step-by-step conversion gives `TwoPass`'s buffer; it makes the measuring call, then the fill call with the measured capacity only after a successful measure |
| `TextFile.LowPart` | textfile.cpp:40 | narrowing to the low 32 bits gives a 32-bit value that is the length itself when the length fits |
| `TextFile.CString` | textfile.cpp:88 | the units the normalizer reads are a prefix of the buffer with no 0, stopped only by a 0 or by the end |
| `TextFile.CStringStopsAtFirstNul` | textfile.cpp:85-88 | text without a 0, followed by the terminator, is read back exactly |
| `TextFile.ResolveCodepage` | textfile.cpp:48-75 | the detector is called exactly when codepage is 0, and its failure is the only error; a signature forces 65001/1200/1201 even over an explicit codepage; without a signature an explicit codepage passes unchanged, and codepage 0 gives the detector's choice |
| `TextFile.LoadTextFile` | textfile.cpp:35-88 | an empty file gives empty text and a file over 0x100000 bytes gives the too-big error, both with no platform call; the detector is called exactly for an accepted size with codepage 0; otherwise it is the composition of resolution, two-pass conversion, BOM chop and the NUL-terminated hand-over to the normalizer |
| `TextFile.RequestedCodepageReachesConverter` | textfile.cpp:48-80 | with an explicit codepage and no signature, the only calls are the two conversion calls, under that codepage |
| `TextFile.DetectorIgnoredWhenRequested` | textfile.cpp:48-66 | with an explicit codepage, the detector's answer does not change the outcome |
| `TextFile.Utf8MarkRoundTrip` | textfile.cpp:70-88 | a file starting EF BB BF whose UTF-8 decoding is U+FEFF followed by `s` gives `normalize(s)`, whatever codepage the caller passed |
| `TextFile.RequestedCodepageDecodes` | textfile.cpp:70-88 | with no signature, text decoded under an explicit codepage reaches the normalizer unchanged when it has no leading U+FEFF and no 0 |
| `TextFile.SecondMarkSurvives` | textfile.cpp:87-88 | text decoded to two leading U+FEFF reaches the normalizer with one of them |
| `TextFile.NulTruncatesText` | textfile.cpp:85-88 | a U+0000 in the decoded text ends the text the normalizer receives |
| `TextFile.ConversionFailureSurfaces` | textfile.cpp:79-84 | once the codepage is resolved, a failed measuring or filling call makes the whole operation fail with that call's error and return no text |
| `TextFile.AutodetectPrefersUtf8` | textfile.cpp:59-75 | in autodetect mode with no signature, a scored 65001 candidate at any rank resolves to 65001 |

## Left out

- Opening the file, seeking and reading (`SHCreateStreamOnFileW`, `IStream::Seek`/`Read`, releasing the stream). The file is given as its bytes, and its length is the 64-bit size. Open errors, failed seeks, failed reads and short reads are not modelled.
- Creating the multi-language service (`CoCreateInstance`, the MinGW GUID). Its failure, which would fail every non-empty file, is not modelled.
- How `DetectCodepageInIStream` works (and `GetACP`). The detector is an arbitrary function of the bytes. Only the codepage of each slot is kept, not the other fields of `DetectEncodingInfo`. The model assumes the detector reports `0 <= nscores <= 5`.
- How `ConvertStringToUnicode` works. The conversion context `ctx` shared by the two passes and the in/out `size` and second `cnt` are not modelled. Only the agreement of measure and fill on the length is stated (`Decodes`).
- When the measured count is 0, the source takes `&obuf[0]` of an empty vector. The model treats this as a fill of capacity 0.
- `strutil::normalize_crlf` is a parameter, and what it does is not modelled. `strutil::w2us` is not modelled either: the too-big message is a Dafny string, not UTF-8 bytes.
- HRESULT values and the exception types of `win32::throw_error`. A platform failure is `PlatformError`, carrying the text of the failing call as `HR` records it.
