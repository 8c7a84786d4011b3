/** The metadata parser of metadata-parser/metadata-parser.go: the records that
    shairport-sync writes to its metadata pipe, how their fields are decoded,
    the playback snapshot they update, and the loop that frames them. */
module Metadata {
  import opened Common
  import Base16
  import Base64

  /** Go's PlayerState, a byte with four named values. */
  datatype PlayerState = Stopped | Playing | Paused | Error
  {
    /** The byte Go uses for each state. */
    function Value(): byte
    {
      match this
      case Stopped => 0x00
      case Playing => 0x01
      case Paused => 0x02
      case Error => 0xff
    }
  }

  /** One `<item>` record. Fresh from the XML its text fields are still encoded
      (hex `type` and `code`, base64 `data`); after DecodeItem they hold raw bytes.
      `length` is the declared payload length and is never interpreted. */
  datatype Item = Item(itemType: seq<byte>, code: seq<byte>, length: int, data: seq<byte>)

  // The four-character codes the state machine knows.
  const ASAR: seq<byte> := [0x61, 0x73, 0x61, 0x72]  // "asar": artist
  const ASAL: seq<byte> := [0x61, 0x73, 0x61, 0x6C]  // "asal": album
  const MINM: seq<byte> := [0x6D, 0x69, 0x6E, 0x6D]  // "minm": title
  const ASTM: seq<byte> := [0x61, 0x73, 0x74, 0x6D]  // "astm": track length
  const PFFR: seq<byte> := [0x70, 0x66, 0x66, 0x72]  // "pffr": play, first frame received
  const PRES: seq<byte> := [0x70, 0x72, 0x65, 0x73]  // "pres": play resumed
  const PAUS: seq<byte> := [0x70, 0x61, 0x75, 0x73]  // "paus": paused
  const PEND: seq<byte> := [0x70, 0x65, 0x6E, 0x64]  // "pend": play stream ended
  const MDST: seq<byte> := [0x6D, 0x64, 0x73, 0x74]  // "mdst": metadata bundle start
  const MDEN: seq<byte> := [0x6D, 0x64, 0x65, 0x6E]  // "mden": metadata bundle end

  /** The closing tag whose presence at the end of a chunk triggers a parse. */
  const END_TAG: seq<byte> := [0x3C, 0x2F, 0x69, 0x74, 0x65, 0x6D, 0x3E]  // "</item>"

  predicate IsPlayCode(code: seq<byte>) { code == PFFR || code == PRES }
  predicate IsPauseCode(code: seq<byte>) { code == PAUS || code == PEND }
  predicate IsTextCode(code: seq<byte>) { code == ASAR || code == ASAL || code == MINM }

  /** encoding/binary's BigEndian.Uint32: the first four bytes, most significant first. */
  function BigEndianUint32(b: seq<byte>): (r: bv32)
    requires |b| >= 4
    ensures PutUint32(r) == b[..4]
  {
    ((b[0] as bv32) << 24) | ((b[1] as bv32) << 16) | ((b[2] as bv32) << 8) | (b[3] as bv32)
  }

  /** encoding/binary's BigEndian.PutUint32, the inverse of BigEndianUint32. */
  function PutUint32(v: bv32): (b: seq<byte>)
    ensures |b| == 4
  {
    [((v >> 24) & 0xFF) as byte, ((v >> 16) & 0xFF) as byte, ((v >> 8) & 0xFF) as byte, (v & 0xFF) as byte]
  }

  // ---------------------------------------------------------------------------
  // Field decoding (decodeItem)

  /** The bytes Go's hex.DecodeString and base64.StdEncoding.DecodeString return
      beside the error that decodeItem discards, for text that is not
      well-formed. They are library details, so the model leaves them open: any
      function of the malformed text. */
  datatype Fallback = Fallback(hex: seq<byte> -> seq<byte>, base64: seq<byte> -> seq<byte>)

  /** hex.DecodeString with its error dropped: on well-formed text, n bytes
      for 2n digits, and exactly the bytes whose lower-case encoding the text is. */
  function HexDecodeString(s: seq<byte>, fb: Fallback): (r: seq<byte>)
    ensures Base16.IsHex(s) ==> 2 * |r| == |s| && Base16.Encode(r) == Base16.Lower(s)
  {
    match Base16.Decode(s)
    case Some(b) => Base16.EncodeDecode(s); b
    case None => fb.hex(s)
  }

  /** base64.StdEncoding.DecodeString with its error dropped: on decodable
      text, three bytes per quantum less one per '=', and on canonical text
      exactly the bytes whose encoding the text is. */
  function Base64DecodeString(s: seq<byte>, fb: Fallback): (r: seq<byte>)
    ensures Base64.Decode(s).Some? ==> |r| == Base64.DecodedLength(s)
    ensures Base64.Decode(s).Some? && Base64.Canonical(s) ==> Base64.Encode(r) == s
  {
    match Base64.Decode(s)
    case Some(b) => (if Base64.Canonical(s) then Base64.EncodeDecode(s); b else b)
    case None => fb.base64(s)
  }

  /** decodeItem: code and type from hex, data from base64, length untouched. */
  function DecodeItem(item: Item, fb: Fallback): (r: Item)
    ensures r.length == item.length
  {
    item.(code := HexDecodeString(item.code, fb),
          itemType := HexDecodeString(item.itemType, fb),
          data := Base64DecodeString(item.data, fb))
  }

  // ---------------------------------------------------------------------------
  // The playback snapshot and its state machine (processItem)

  /** The seven fields of a MetadataParser, as a value. */
  datatype Snapshot = Snapshot(
    indexStr: seq<byte>,
    trackIndex: int32,
    artist: seq<byte>,
    album: seq<byte>,
    title: seq<byte>,
    length: int,
    status: PlayerState)

  /** The zero value of a Go MetadataParser. */
  const Zero := Snapshot([], 0, [], [], [], 0, Stopped)

  /** The track-identity fingerprint: album, artist and title run together. */
  function Key(s: Snapshot): (r: seq<byte>)
    ensures |r| == |s.album| + |s.artist| + |s.title|
    ensures r[..|s.album|] == s.album
    ensures r[|s.album|..|s.album| + |s.artist|] == s.artist
    ensures r[|s.album| + |s.artist|..] == s.title
  {
    s.album + s.artist + s.title
  }

  /** The effect of processItem on the snapshot, one decoded item at a time. */
  function Step(s: Snapshot, item: Item): Snapshot
  {
    if item.code == ASAR then s.(artist := item.data)
    else if item.code == ASAL then s.(album := item.data)
    else if item.code == MINM then s.(title := item.data)
    else if item.code == ASTM then
      if |item.data| >= 4 then s.(length := BigEndianUint32(item.data) as int) else s
    else if IsPlayCode(item.code) then s.(status := Playing)
    else if IsPauseCode(item.code) then s.(status := Paused)
    else if item.code == MDST then s
    else if item.code == MDEN then
      if Key(s) != s.indexStr then s.(trackIndex := Inc32(s.trackIndex), indexStr := Key(s)) else s
    else s
  }

  /** The snapshot after a sequence of decoded items, applied in order. */
  function Run(s: Snapshot, items: seq<Item>): Snapshot
    decreases |items|
  {
    if items == [] then s else Step(Run(s, items[..|items| - 1]), items[|items| - 1])
  }

  // ---------------------------------------------------------------------------
  // The framing loop of Start

  /** The state of Start's loop: the text buffered since the last dispatch and
      the snapshot. */
  datatype Frame = Frame(tag: seq<byte>, snapshot: Snapshot)

  /** True when reading `chunk` in frame `f` leads to a successful parse, which
      is when the item is decoded, processed and the buffer emptied. */
  predicate Dispatches(f: Frame, chunk: seq<byte>, parse: seq<byte> -> Option<Item>)
  {
    HasSuffix(chunk, END_TAG) && parse(f.tag + chunk).Some?
  }

  /** One turn of the loop: append the chunk; if the chunk ends in the closing
      tag, parse the buffer; on success decode and process the item and empty
      the buffer, on failure keep the buffer. */
  function FeedChunk(f: Frame, chunk: seq<byte>, parse: seq<byte> -> Option<Item>, fb: Fallback): Frame
  {
    var tag := f.tag + chunk;
    if HasSuffix(chunk, END_TAG) then
      match parse(tag)
      case None => Frame(tag, f.snapshot)
      case Some(item) => Frame([], Step(f.snapshot, DecodeItem(item, fb)))
    else Frame(tag, f.snapshot)
  }

  /** The loop state after reading every chunk of `chunks`, in order. */
  function FeedAll(f: Frame, chunks: seq<seq<byte>>, parse: seq<byte> -> Option<Item>, fb: Fallback): Frame
    decreases |chunks|
  {
    if chunks == [] then f
    else FeedChunk(FeedAll(f, chunks[..|chunks| - 1], parse, fb), chunks[|chunks| - 1], parse, fb)
  }

  // ---------------------------------------------------------------------------

  /** The MetadataParser struct, the snapshot that processItem updates in place. */
  class MetadataParser {
    var indexStr: seq<byte>
    var trackIndex: int32
    var artist: seq<byte>
    var album: seq<byte>
    var title: seq<byte>
    var length: int
    var status: PlayerState

    /** A parser with Go's zero values. */
    constructor ()
      ensures View() == Zero
    {
      indexStr, trackIndex := [], 0;
      artist, album, title := [], [], [];
      length, status := 0, Stopped;
    }

    /** The current snapshot. */
    function View(): Snapshot
      reads this
    {
      Snapshot(indexStr, trackIndex, artist, album, title, length, status)
    }

    /** processItem: dispatch on the four-character code of a decoded item. */
    method ProcessItem(item: Item)
      modifies this
      ensures View() == Step(old(View()), item)
    {
      if item.code == ASAR {
        artist := item.data;
      } else if item.code == ASAL {
        album := item.data;
      } else if item.code == MINM {
        title := item.data;
      } else if item.code == ASTM {
        if |item.data| >= 4 {
          length := BigEndianUint32(item.data) as int;
        }
      } else if item.code == PFFR || item.code == PRES {
        status := Playing;
      } else if item.code == PAUS || item.code == PEND {
        status := Paused;
      } else if item.code == MDST {
        // bundle start: nothing to record
      } else if item.code == MDEN {
        var key := album + artist + title;
        if key != indexStr {
          trackIndex := Inc32(trackIndex);
          indexStr := key;
        }
      }
      // any other code is ignored
    }

    /** The framing loop of Start, over the chunks the scanner would deliver;
        `parse` stands for xml.Unmarshal. Returns the text still buffered when
        the chunks run out, which the source drops. */
    method Start(chunks: seq<seq<byte>>, parse: seq<byte> -> Option<Item>, fb: Fallback)
      returns (tag: seq<byte>)
      modifies this
      ensures Frame(tag, View()) == FeedAll(Frame([], old(View())), chunks, parse, fb)
    {
      tag := [];
      for i := 0 to |chunks|
        invariant Frame(tag, View()) == FeedAll(Frame([], old(View())), chunks[..i], parse, fb)
      {
        assert chunks[..i + 1][..i] == chunks[..i];
        var chunk := chunks[i];
        tag := tag + chunk;
        if HasSuffix(chunk, END_TAG) {
          var parsed := parse(tag);
          if parsed.None? {
            continue;
          }
          ProcessItem(DecodeItem(parsed.value, fb));
          tag := [];
        }
      }
      assert chunks[..|chunks|] == chunks;
    }
  }
}
