# audiogroup container reader and track extractor, in Dafny

An "audiogroup" container packs several audio blobs into one file and
records only where each blob starts. The reader (`reader/reader.go`)
checks the fixed header, decodes the little-endian table of track offsets,
adds the framing constant 4 to each, and infers every track's size from
the gap to the next track. The last track gets `math.MaxUint32` ("read to
end of file"). The extraction loop of `main.go` then seeks to each track,
reads it, skips or stops where the code says so, guesses `wav` or `dat`
from the first four bytes, and writes `dump-<base>-<idx %03d>-<offset %08x>.<ext>`.

The model has five files:

- `wrappers.dfy`: `Option` and `Result`.
- `bytes.dfy` (module `LittleEndian`): bytes, little-endian `uint32` decoding
  with its encoder and both round trips, and Go's `uint32(x)` truncation.
- `reader.dfy` (module `Reader`): the pure specification `Parse` (built
  from `Directory`, the header check and table decode, and `InferSizes`,
  the size inference), its lemmas, and the class `Reader`. The class keeps
  the Go struct's `trackOffsets` and `ti` fields. `AppendOffsets` and
  `CalculateTracks` append to those fields in loops; `ReadHeader` has no
  loop of its own and appends only by calling `AppendOffsets`. These
  methods are proved against `Directory` and `InferSizes`. `New` is proved
  against `Parse`. The byte stream is the class's `source`, read from a
  position `pos`.
- `format.dfy` (module `Format`): the `%0<w>d` and `%0<w>x` verbs, with a
  proof that the digits read back as the number and a width bound.
- `extractor.dfy` (module `Extractor`): one loop iteration as the pure
  function `Step`, the loop as the recursive specification `Run`, and the
  imperative `ExtractAll`. `ExtractAll` has the loop's own
  `continue`/`break`/early return and is proved equal to `Run`. What each
  seek and read returned is an input (`TrackIo`), and the files written
  are the output (`Dump`).

## Behaviour easy to misread

- The header is the five-field `rawHeader` (`reader/reader.go:10-16`): 20
  bytes holding `FORM`, the file size, `AUDO`, a size and the track count.
  The count is at bytes 16..19 and the offset table starts at byte 20.
- `t + 4` is `uint32` arithmetic (`reader/reader.go:66`). A stored offset
  of `0xFFFF_FFFC` or more wraps to a small offset, and construction still
  succeeds.
- A gap is clamped only from above (`reader/reader.go:87-89`). A negative
  gap d, from a non-increasing pair of offsets, is truncated by
  `uint32(size)` to d + 2^32 (`reader/reader.go:91`). See
  `ExampleWrappedOffset`.
- A read is skipped when it returns at most 4 bytes (`main.go:90`), so a
  5-byte read is written.
- A bad `FORM` and a bad `AUDO` are two distinct errors, and `FORM` is
  checked first (`reader/reader.go:51-57`). A stream that ends inside the
  header or the table gives a third error, `Truncated`.

## Model

| member | source | states |
|---|---|---|
| LittleEndian.Uint32 | reader/reader.go:91 | `uint32(x)` is the identity on `uint32` values and adds 2^32 to a negative value above -2^32; the result is always a `uint32` |
| LittleEndian.LeU32 | reader/reader.go:46 | the little-endian word at a position is a `uint32`; `LeRoundTrip` and `LeBytesOfDecoded` pin it as the inverse of the encoder |
| LittleEndian.LeRoundTrip | reader/reader.go:46 | decoding the four little-endian bytes of a `uint32` gives it back |
| LittleEndian.LeBytesOfDecoded | reader/reader.go:46 | re-encoding a decoded word gives back the same four bytes, so decoding is injective |
| Reader.DecodeHeader | reader/reader.go:10-16 | the 20 header bytes decode to two 4-byte magics and three `uint32` fields |
| Reader.HeaderRoundTrip | reader/reader.go:10-16 | decoding an encoded header gives the header back |
| Reader.HeaderBytesRoundTrip | reader/reader.go:10-16 | encoding a decoded header gives the 20 bytes back |
| Reader.DecodeTable | reader/reader.go:59-60 | reading n words gives n `uint32` values |
| Reader.DecodeTableAt | reader/reader.go:59-60 | table entry i is the little-endian word at byte 4i |
| Reader.TableRoundTrip | reader/reader.go:59-60 | decoding an encoded table gives it back, whatever bytes follow |
| Reader.Rebase | reader/reader.go:66 | `t + 4` in `uint32` arithmetic: `t + 4` below 2^32 - 4, `t + 4 - 2^32` from there on, always a `uint32` |
| Reader.Directory | reader/reader.go:44-71 | `readHeader` over the whole stream: it succeeds exactly when the stream holds both magics and the whole table, and then with one offset per table entry; `DirectoryCases` gives each outcome |
| Reader.AbsoluteOffsets | reader/reader.go:65-68 | one absolute offset per table word, entry i being the rebased word i |
| Reader.GapSize | reader/reader.go:84-91 | the size of a non-last track: the gap when it is in [0, MaxUint32], MaxUint32 when the gap is at least that, gap + 2^32 when it is negative |
| Reader.InferSizes | reader/reader.go:76-99 | one descriptor per offset, the last of size MaxUint32; `InferSizesAt` gives every descriptor |
| Reader.InferSizesAt | reader/reader.go:76-99 | descriptor i has offset i and the gap to offset i + 1 as its size, or MaxUint32 for the last |
| Reader.Parse | reader/reader.go:29-42 | `New` followed by `Tracks`: it succeeds exactly when the stream is acceptable, with as many descriptors as the stored count; `ParseErrors` and `ParseEntries` give the errors and every descriptor |
| Reader.TrackCount | reader/reader.go:15 | the count stored at bytes 16..19 is a `uint32` |
| Reader.DirectoryCases | reader/reader.go:44-71 | `readHeader`'s outcome for each case of the stream: short header, bad `FORM`, bad `AUDO`, short table, or the rebased table |
| Reader.ParseErrors | reader/reader.go:46-63 | construction succeeds exactly when the stream holds both magics and the whole table; otherwise the error is short header, then bad `FORM`, then bad `AUDO`, then short table, in that order of precedence |
| Reader.ParsedOffsets | reader/reader.go:59-68 | an accepted stream has exactly count offsets, offset i is the rebased word at byte 20 + 4i, and the descriptors are the sizes inferred from them |
| Reader.TableEntry | reader/reader.go:59-60 | the decoded table's entry i is the word at byte 20 + 4i of the stream |
| Reader.ParseEntries | reader/reader.go:65-97 | on success: one descriptor per table entry, in table order; descriptor i's offset is the rebased word at byte 20 + 4i; each non-last size is the gap size to the next offset; the last size is MaxUint32 |
| Reader.ParseInRange | reader/reader.go:65-91 | every offset satisfies 0 <= offset < 2^32, and every size is a `uint32` |
| Reader.ParseNoTracks | reader/reader.go:59-68 | a zero count with both magics gives an empty list and no error, whatever follows the header |
| Reader.ParseIgnoresSizeFields | reader/reader.go:10-16 | the file-size and size fields (bytes 4..7 and 12..15) never change the result |
| Reader.ParseEncoded | reader/reader.go:44-99 | a container laid out with both magics and a table decodes to the rebased table with sizes inferred, whatever track data follows |
| Reader.ExampleTwoTracks | reader/reader.go:65-95 | stored offsets 0 and 16 give the tracks (4, 16) and (20, MaxUint32) |
| Reader.ExampleWrappedOffset | reader/reader.go:66-91 | stored offsets 0x10 and 0xFFFF_FFFE give the tracks (0x14, 0xFFFF_FFEE) and (2, MaxUint32): the second offset wraps and the negative gap is truncated |
| Reader.Reader.constructor | reader/reader.go:30-32 | a new reader is at the start of its stream and holds no offsets and no descriptors |
| Reader.Reader.ReadFull | reader/reader.go:46 | reading n bytes either yields the next n bytes and advances by n, or fails with `Truncated` at the end of the stream |
| Reader.Reader.ReadHeader | reader/reader.go:44-71 | fails exactly when `Directory` does, with the same error and no offsets; on success `trackOffsets` is the rebased table and the reader has consumed the header and the table |
| Reader.Reader.AppendOffsets | reader/reader.go:65-68 | appends the rebased words in order, so that `trackOffsets` becomes the absolute offsets of the table |
| Reader.Reader.CalculateTracks | reader/reader.go:76-99 | `ti` becomes the inferred sizes of `trackOffsets`, one descriptor per offset |
| Reader.Reader.Tracks | reader/reader.go:101-103 | returns the descriptors unchanged; for a constructed reader they are the stream's `Parse` result |
| Reader.Reader.New | reader/reader.go:29-42 | succeeds exactly when `Parse` does; on success the reader holds `Parse`'s descriptors and `trackOffsets` holds the rebased table; on failure it reports `Parse`'s error and holds no offsets and no descriptors, so `calculateTracks` never ran |
| Format.DigitRoundTrip | main.go:104 | each digit character reads back as its value |
| Format.Radix | main.go:104 | the digits of a number in a base, at least one of them; `RadixRoundTrip` reads them back and `RadixNoLeadingZero` rules out padding |
| Format.RadixNoLeadingZero | main.go:104 | a positive number's digits never start with '0' |
| Format.Decimal | main.go:104 | `%0<w>d`: at least w characters; `PaddedRoundTrip` reads them back as the number |
| Format.Hex | main.go:104 | `%0<w>x`: at least w characters; `PaddedRoundTrip` reads them back as the number |
| Format.FormatExamples | main.go:104 | `%03d` of 7 is "007" and of 1234 is "1234"; `%08x` of 0x14 is "00000014" |
| Format.RadixDigits | main.go:104 | a number's base-b representation consists only of base-b digits |
| Format.PaddedDigits | main.go:104 | a padded number is zeros followed by the number's own digits |
| Format.RadixRoundTrip | main.go:104 | the digits of n read back as n |
| Format.PaddedRoundTrip | main.go:104 | `%03d` and `%08x` lose nothing: the padded digits read back as the number |
| Format.RadixShort | main.go:104 | a number below b^k has at most k digits |
| Format.HexWidth | main.go:104 | `%08x` of a `uint32` is exactly eight characters |
| Format.DecimalWidth | main.go:104 | `%03d` of a number below 1000 is exactly three characters |
| Extractor.Extension | main.go:95-102 | the extension is `wav` exactly when the first four bytes are `RIFF`, otherwise `dat` |
| Extractor.OutputName | main.go:104 | the `Sprintf` of the file name; `NameFields` reads every field back from it and `NamesDistinct` shows two tracks never share one |
| Extractor.Step | main.go:67-126 | the loop body for one track: a written file is numbered idx in its name and idx + 1 in the report; `StepCases` and `StepWrite` give every branch |
| Extractor.Run | main.go:65-127 | the loop from track i: an early end happens at a track from i on, and every file written comes from a track from i on; `RunComplete`, `RunEndsEarly` and `RunWrites` together pin the outcome (the first `Stop` or `Exit` step, or completion) and the files (those of the `Write` steps before the end, `RunOrdered` gives their order) |
| Extractor.StepCases | main.go:65-93 | the seek is checked first, even for an empty track; an empty track is skipped whatever a read would return; an `io.EOF` ends the loop; another read error is fatal; a read of at most 4 bytes is skipped; a file is written exactly when all of these pass |
| Extractor.StepWrite | main.go:95-114 | a written file holds exactly the bytes read, which number more than 4; it is numbered idx in its name and idx + 1 in the report; its name is the formatted name and ends in `.wav` exactly when the bytes start with `RIFF`, otherwise in `.dat` |
| Extractor.ExtractAll | main.go:65-127 | the loop, with its `continue`, `break` and fatal exits, ends and writes exactly what the specification `Run` says |
| Extractor.NameLayout | main.go:104 | where each field of a file name sits |
| Extractor.NameFields | main.go:104 | the base name, the track index, the offset and the extension can each be read back from a file name |
| Extractor.NameIndex | main.go:104 | the track index reads back from the digits between the base name and the fixed-width tail |
| Extractor.NamesDistinct | main.go:104 | two different tracks never get the same file name |
| Extractor.RunWrites | main.go:65-127 | every file written comes from a `Write` step of a track at or after the start |
| Extractor.RunOrderedFrom | main.go:65-127 | files are written in strictly increasing track order, each from a track at or after the start |
| Extractor.RunOrdered | main.go:65-127 | the files of the whole loop are in strictly increasing track order: at most one per track |
| Extractor.RunEndsEarly | main.go:80-88 | when the loop ends early at track j, track j hit `io.EOF` (a stop) or a fatal error, and every file written comes from a track before j |
| Extractor.RunComplete | main.go:73-114 | the loop goes on past every skipped or written track: every track before the end (the end of the table, or the track it stopped or exited at) had a `Skip` or `Write` step, and each such `Write` step's file is among those written |
| Extractor.RunCompletes | main.go:65-127 | the loop completes exactly when no track's step is a stop at `io.EOF` or a fatal exit |
| Extractor.RunIgnoresLaterTracks | main.go:80-88 | after the loop ends early, what later tracks' seeks and reads would return changes neither the files written nor how the loop ended |

## Left out

- Command-line handling, `os.Stat`, opening and closing the container,
  timing and every message printed (`main.go` outside lines 65-127, and
  the prints inside them). The exact text of the errors is also left out.
- The reader's `io.ReadSeekCloser` handle is replaced by the bytes it would
  deliver. Go's reflection-based `binary.Read` is replaced by
  decoding over a byte sequence.
- Reader.Reader.ReadFull: `io.EOF` (nothing read) and
  `io.ErrUnexpectedEOF` (a partial read) are one error, `Truncated`.
- Reader.Reader.New: the memory that `make([]uint32, header.Tracks)`
  allocates for a huge count is not modelled. Allocation failure is not
  modelled either.
- Extractor.ExtractAll: the file system is an input. Each track's seek
  outcome and read result are given, not performed. `os.Create`, `Write`
  and `Close`, and their failures (each fatal in the code,
  `main.go:107-124`), are not modelled: a written file is a `Dump` in the
  output.
- Extractor.Step: a negative offset is treated as a failed seek, which is
  what `Seek` with `io.SeekStart` reports for one. The name uses the
  descriptor's offset, which is what a successful absolute seek returns.
- Extractor.Step: a read that returns bytes together with an error is the
  error case: the code tests `err` first and ignores those bytes. A read's
  bytes are constrained only by the buffer length, so any short read is
  covered. The 4 GiB `make([]byte, t.Size)` for a last track is not
  modelled as a cost.
- Extractor.Dump: the "Wrote" report's byte count (`writtenbytes`) is not
  modelled, because writes are not.
