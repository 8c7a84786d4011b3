# metadata-parser, modelled in Dafny

A model of the metadata parser of an iPod-style "now playing" display. The parser reads the
metadata pipe of shairport-sync, one line (chunk) at a time. It collects chunks into a buffer
until a chunk ends in `</item>`, then parses the buffer as one `<item>` record. It decodes the
record's hex `type` and `code` and its base64 `data`, and applies the record to a snapshot of
what is playing: artist, album, title, track length, play state, and a track index that moves
when the album, artist and title change at a metadata bundle end (`mden`).

Files and modules:

- `common.dfy` (`Common`): bytes as `bv8`, `Option`, Go's `int32` with its wrap-around, the suffix
  test and chunk concatenation.
- `base16.dfy` (`Base16`): hexadecimal decoding as Go's `encoding/hex` reads it, with an encoder
  and both round trips.
- `base64.dfy` (`Base64`): standard base64 with padding (section 4 of RFC 4648), read non-strictly
  as Go's `StdEncoding` does (the pad bits are discarded), with an encoder and both round trips.
- `metadata.dfy` (`Metadata`): `PlayerState`, `Item`, the four-character codes, `DecodeItem`,
  the snapshot with its step function `Step`, the loop function `FeedAll`, and the class
  `MetadataParser`. The class has the seven fields of the Go struct. Its `ProcessItem` method
  updates them in place. Its `Start` method runs the chunk loop.
- `machine_properties.dfy`, `decode_properties.dfy`, `frame_properties.dfy`: what the state
  machine, the decoder and the framing loop promise.

Go strings are byte sequences, so every text field is a `seq<bv8>`. The codes are compared as
bytes. The track length is read as a `bv32`, Go's `uint32`, and stored as an unbounded `int`.
`TrackIndex` is an `int32`, and `++` wraps from 2^31-1 to -2^31.

Three things the code depends on but does not define are parameters:

- `parse: seq<bv8> -> Option<Item>` stands for `xml.Unmarshal`. It either yields an item or fails.
- `Fallback` holds what Go's hex and base64 decoders return for text that is not well-formed.
  `decodeItem` throws the error away and keeps those bytes. They are library behaviour (a
  partial prefix), so the model allows any function of the malformed text. Every property about
  decoding is stated for well-formed input, or for all fallbacks.
- The chunks that `bufio.Scanner` delivers are the input sequence of `Start`.

Behaviour of the code that a reader might not expect, each stated as a lemma:

- A closing tag split across two chunks is not seen when it arrives, because line 58 tests only
  the current chunk, not the accumulated buffer (`SplitEndTagIsMissed`). The record's text stays
  in the buffer. The next chunk that ends in the closing tag sends record and chunk to the parser
  together (`SplitRecordParsedLate`). Framing therefore depends on chunk boundaries.
- When the buffer does not parse as an item, line 62 `continue`s without clearing it. The failed
  text stays at the front of the buffer and is parsed again with every later chunk that ends in
  the closing tag, until a parse succeeds (`FailedParseKeepsText`).
- Malformed hex or base64 need not decode to empty. Lines 120-129 discard the error and keep
  whatever bytes the library returned. The model leaves those bytes open (`Fallback`), and
  `DecodeIgnoresFallback` shows they play no part on well-formed records.
- A track change is detected by comparing with the fingerprint stored at the last bundle end
  that changed it, not by counting distinct tracks: returning to an earlier track bumps the index
  again (`BundleDetectsChange`). The fingerprint joins album, artist and title with no
  separator, so two different tracks can share it (`ConcatenationCollision`).

## Model

| member | source | states |
|---|---|---|
| Common.Wrap32 | metadata-parser/metadata-parser.go:107 | the int32 result agrees with its argument modulo 2^32, and equals it when it is in range |
| Common.Inc32 | metadata-parser/metadata-parser.go:107 | `TrackIndex++` on an int32 always changes the value: it adds one below 2^31-1 and wraps to -2^31 at the maximum |
| Base16.Decode | metadata-parser/metadata-parser.go:120 | decoding succeeds exactly on an even number of hex digits of either case, and 2n digits give n bytes |
| Base16.DecodeEncode | metadata-parser/metadata-parser.go:120 | decoding the hex encoding of any bytes gives those bytes back |
| Base16.EncodeDecode | metadata-parser/metadata-parser.go:120 | re-encoding decoded well-formed text gives the text with digits in lower case, so decoding is one-to-one up to case |
| Base64.Encode | metadata-parser/metadata-parser.go:126 | n bytes encode to 4 * ceil(n / 3) characters |
| Base64.Decode | metadata-parser/metadata-parser.go:126 | decodable text is whole quanta, and it decodes to 3 bytes per quantum less one per '=' |
| Base64.DecodeEncode | metadata-parser/metadata-parser.go:126 | decoding the RFC 4648 encoding of any bytes gives those bytes back |
| Base64.EncodeDecode | metadata-parser/metadata-parser.go:126 | text whose pad bits are zero re-encodes to itself, so decoding is one-to-one on canonical text |
| Base64.PadBitsIgnored | metadata-parser/metadata-parser.go:126 | the decoder is not strict: any decodable text decodes exactly like the same text with the pad bits of its final quantum cleared |
| Base64.ReencodeClearsPadBits | metadata-parser/metadata-parser.go:126 | re-encoding what any decodable text decodes to gives that text with its pad bits cleared |
| Base16.DecodeIgnoresCase | metadata-parser/metadata-parser.go:120 | hex decoding reads upper- and lower-case digits alike: folding the text to lower case never changes the result, success or failure |
| Common.HasSuffix | metadata-parser/metadata-parser.go:58 | strings.HasSuffix holds exactly when the text is some prefix followed by the suffix |
| Metadata.HexDecodeString | metadata-parser/metadata-parser.go:120 | on well-formed hex, 2n digits give n bytes whose hex encoding is the text in lower case |
| Metadata.Base64DecodeString | metadata-parser/metadata-parser.go:126 | on decodable base64 the result length is 3 per quantum less one per pad, and on canonical text re-encoding gives the text back |
| Metadata.DecodeItem | metadata-parser/metadata-parser.go:119-130 | decodeItem leaves the declared length alone |
| Metadata.Key | metadata-parser/metadata-parser.go:105 | the fingerprint is album, then artist, then title, laid end to end: its length is the sum and each field can be sliced back out |
| Metadata.Step | metadata-parser/metadata-parser.go:76-113 | the snapshot after one processItem; its contract is stated by FieldsChangeOnlyByTheirCodes and the code-by-code lemmas below |
| Metadata.FeedChunk | metadata-parser/metadata-parser.go:55-67 | one pass of the loop body; its contract is stated by FeedChunkCases |
| Metadata.FeedAll | metadata-parser/metadata-parser.go:53-69 | the whole loop, chunk by chunk; its contract is stated by TagSinceLastDispatch and SnapshotIsRunOfDispatched |
| DecodeProperties.DecodeWellFormed | metadata-parser/metadata-parser.go:119-130 | on a well-formed record, code and type are the exact hex decodings (n bytes from 2n digits), data is the exact base64 decoding, length is kept |
| DecodeProperties.DecodeIgnoresFallback | metadata-parser/metadata-parser.go:119-130 | on a well-formed record, the decoders' malformed-input behaviour plays no part |
| DecodeProperties.EncodeItem | metadata-parser/metadata-parser.go:119-130 | the wire form of a record (hex code and type, base64 data) is well-formed and keeps the length |
| DecodeProperties.DecodeEncodeItem | metadata-parser/metadata-parser.go:119-130 | decodeItem undoes the wire encoding of any record, whatever the fallbacks |
| DecodeProperties.WireCodes | metadata-parser/metadata-parser.go:120 | the wire texts of `mden` and `asal` decode to those codes; "mden" is sent as "6d64656e" |
| DecodeProperties.Uint32RoundTrip | metadata-parser/metadata-parser.go:89 | BigEndian.Uint32 inverts BigEndian.PutUint32 on every uint32 |
| Metadata.BigEndianUint32 | metadata-parser/metadata-parser.go:89 | BigEndian.Uint32 reads exactly the first four bytes, most significant first: writing its result back with PutUint32 gives those four bytes |
| Metadata.MetadataParser.constructor | metadata-parser/metadata-parser.go:31-39 | a new parser holds Go's zero values: empty texts, index 0, length 0, Stopped |
| Metadata.MetadataParser.ProcessItem | metadata-parser/metadata-parser.go:76-113 | processItem moves the fields to `Step` of the old snapshot and the item |
| Metadata.MetadataParser.Start | metadata-parser/metadata-parser.go:53-69 | after the loop, the buffer and the fields are `FeedAll` of the empty buffer, the old snapshot and the chunks |
| MachineProperties.StateValuesDistinct | metadata-parser/metadata-parser.go:16-21 | the four player states have four distinct byte values (0x00, 0x01, 0x02, 0xff) |
| MachineProperties.FieldsChangeOnlyByTheirCodes | metadata-parser/metadata-parser.go:76-113 | each field changes only under its own code: artist, album, title only to the data of asar, asal, minm; length only under astm, to the big-endian uint32; status only under a play or pause code; index and fingerprint only under mden, to Key and the int32 successor |
| MachineProperties.TextCodeSetsOneField | metadata-parser/metadata-parser.go:78-86 | `asar`, `asal` and `minm` each set exactly one of artist, album, title to the data; every other field is unchanged |
| MachineProperties.TrackLength | metadata-parser/metadata-parser.go:87-94 | `astm` with at least 4 bytes sets only the length, to the big-endian uint32 of the first four (0 <= length < 2^32); with fewer bytes nothing changes |
| MachineProperties.PlayPause | metadata-parser/metadata-parser.go:95-100 | `pffr` and `pres` set only the status, to Playing; `paus` and `pend` set only the status, to Paused |
| MachineProperties.StatusStepsToPlayingOrPaused | metadata-parser/metadata-parser.go:95-100 | no item sets Stopped or Error: the status stays, or it becomes Playing or Paused because of a play or pause code |
| MachineProperties.RunStatus | metadata-parser/metadata-parser.go:76-113 | over any run, the status stays the starting one while there is no play or pause item, and is Playing or Paused once there has been one |
| MachineProperties.StatusFromZero | metadata-parser/metadata-parser.go:76-113 | from the zero value, the status is Stopped if and only if no play or pause item has arrived, and it is never Error |
| MachineProperties.IgnoredCodes | metadata-parser/metadata-parser.go:101-111 | `mdst` and every unknown code leave the whole snapshot unchanged |
| MachineProperties.BundleEnd | metadata-parser/metadata-parser.go:103-109 | after `mden` the stored fingerprint is album+artist+title; the index changes if and only if that differs from the stored one, and then by one with wrap-around; no other field changes |
| MachineProperties.BundleEndIdempotent | metadata-parser/metadata-parser.go:103-109 | a second `mden` straight after the first changes nothing |
| MachineProperties.TrackIndexOnlyAtBundleEnd | metadata-parser/metadata-parser.go:76-113 | only `mden` changes the index, and only to its int32 successor |
| MachineProperties.NoBundleEndKeepsIndex | metadata-parser/metadata-parser.go:76-113 | a run with no `mden` keeps the index and the stored fingerprint |
| MachineProperties.BundleDetectsChange | metadata-parser/metadata-parser.go:103-109 | between two bundle ends, any number of other items leave the index alone; the second bundle end bumps it if and only if the fingerprint differs from the one at the first |
| MachineProperties.ConcatenationCollision | metadata-parser/metadata-parser.go:105 | artist "AB" with title "C" replaced by artist "A" with title "BC" changes both fields, yet the next `mden` leaves the index unchanged |
| MachineProperties.EmptyFieldsNeverBump | metadata-parser/metadata-parser.go:103-109 | from the zero value, while text items carry empty data, the fields and the stored fingerprint stay empty and the index stays 0 |
| MachineProperties.FirstTrack | metadata-parser/metadata-parser.go:76-113 | a fresh parser given album, artist, title and `mden` holds exactly that track with index 1, when the three are not all empty |
| MachineProperties.StepTrackIndex | metadata-parser/metadata-parser.go:103-109 | one item moves the index to its int32 successor exactly when it is mden and the fingerprint differs from the stored one; otherwise the index stays |
| MachineProperties.IncNWrap | metadata-parser/metadata-parser.go:107 | n increments of an int32 land on the start plus n wrapped to 32 bits |
| MachineProperties.RunTrackIndex | metadata-parser/metadata-parser.go:107 | over a run the index is the start incremented once per bundle end that saw a new fingerprint, and that number is at most the number of bundle ends |
| MachineProperties.TrackIndexNonDecreasing | metadata-parser/metadata-parser.go:107 | without int32 overflow, the index never decreases over a run and grows by at most one per bundle end |
| FrameProperties.FeedChunkCases | metadata-parser/metadata-parser.go:55-67 | one chunk either parses, which empties the buffer and processes the decoded item, or only grows the buffer by the chunk |
| FrameProperties.NoDispatchAccumulates | metadata-parser/metadata-parser.go:53-68 | while no chunk leads to a successful parse, the buffer is the initial buffer followed by all the chunks and the snapshot is unchanged |
| FrameProperties.ParseOnlyAtEndTag | metadata-parser/metadata-parser.go:58 | if no chunk ends in `</item>`, nothing is parsed: the buffer only grows and the snapshot is unchanged |
| FrameProperties.LastDispatchIsLast | metadata-parser/metadata-parser.go:53-68 | the chunk that LastDispatch names led to a successful parse, and no later chunk did |
| FrameProperties.TagSinceLastDispatch | metadata-parser/metadata-parser.go:53-68 | the buffer is the concatenation of the chunks read since the last successful parse; if there was none, it is the initial buffer followed by every chunk |
| FrameProperties.FailedParseKeepsText | metadata-parser/metadata-parser.go:60-62 | after a chunk ending in `</item>` whose buffer fails to parse, that text stays at the front of the buffer until the next successful parse |
| FrameProperties.SplitEndTagIsMissed | metadata-parser/metadata-parser.go:58 | a record whose `</item>` is split as "</it" and "em>" is not parsed when its two chunks arrive, and its text stays in the buffer; the same text in one chunk is dispatched when it parses |
| FrameProperties.SplitRecordParsedLate | metadata-parser/metadata-parser.go:56-67 | that split record's text is parsed together with the next chunk that ends in `</item>`: that one parse processes the item, and the buffer is then emptied |
| FrameProperties.SnapshotIsRunOfDispatched | metadata-parser/metadata-parser.go:53-68 | the snapshot after the loop is the state machine run over exactly the decoded items that parsed, in order |
| FrameProperties.FramedStatusNeverError | metadata-parser/metadata-parser.go:53-68 | a parser that starts from its zero value never shows the Error status, whatever the chunks |

## Left out

- Opening the hard-coded pipe, the scanner's buffer sizes, its too-long-token failure, and the
  fatal handling of open and scan errors (lines 43-51, 71-73). These are I/O. The chunks are
  given as a sequence instead.
- Line splitting by the scanner (newline stripping). Chunks are taken as given.
- `xml.Unmarshal` (line 60) is a foreign library. It is the `parse` parameter, which succeeds
  with an `Item` or fails. The `XMLName` field of `Item` belongs to it and is not modelled.
- Every `log.Printf`. They only log and do not affect state.
- `Stop` (lines 115-117) is an empty placeholder.
- Locking and concurrent readers of the snapshot. The code has neither.
- What Go's hex and base64 decoders return on malformed input. It is left open as a parameter.
  Go's base64 decoder also skips `\r` and `\n`. The model counts such text as malformed, so its
  result comes from that parameter too.
- MachineProperties.TrackLength: assumes Go's `int` is 64 bits wide at line 91. On a 32-bit
  target (GOARCH=386 or arm) `int(trackLength)` turns lengths of 2^31 or more negative, so the
  stated range 0 <= length < 2^32 holds only on 64-bit targets.
- Metadata.MetadataParser.Start: it returns the buffer left when the chunks run out. The source
  drops it. The return value only lets the contract state the loop's whole state.
