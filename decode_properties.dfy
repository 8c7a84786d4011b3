/** What decodeItem and the track-length conversion promise. */
module DecodeProperties {
  import opened Common
  import opened Metadata
  import Base16
  import Base64

  /** A record whose code and type are well-formed hex and whose data is
      well-formed base64. */
  predicate WellFormed(item: Item)
  {
    Base16.IsHex(item.code) && Base16.IsHex(item.itemType) && Base64.Decode(item.data).Some?
  }

  /** On a well-formed record, decodeItem gives the exact decodings: n bytes
      for 2n hex digits, the RFC 4648 bytes for the data, the length untouched. */
  lemma DecodeWellFormed(item: Item, fb: Fallback)
    requires WellFormed(item)
    ensures var r := DecodeItem(item, fb);
            Some(r.code) == Base16.Decode(item.code) && 2 * |r.code| == |item.code| &&
            Some(r.itemType) == Base16.Decode(item.itemType) && 2 * |r.itemType| == |item.itemType| &&
            Some(r.data) == Base64.Decode(item.data) && |r.data| == Base64.DecodedLength(item.data) &&
            r.length == item.length
  {
  }

  /** On a well-formed record, what the libraries return for malformed text
      plays no part. */
  lemma DecodeIgnoresFallback(item: Item, fb1: Fallback, fb2: Fallback)
    requires WellFormed(item)
    ensures DecodeItem(item, fb1) == DecodeItem(item, fb2)
  {
  }

  /** The wire form of a record: hex code and type, base64 data. */
  function EncodeItem(item: Item): (r: Item)
    ensures WellFormed(r)
    ensures r.length == item.length
  {
    Base16.DecodeEncode(item.code);
    Base16.DecodeEncode(item.itemType);
    Base64.DecodeEncode(item.data);
    Item(Base16.Encode(item.itemType), Base16.Encode(item.code), item.length, Base64.Encode(item.data))
  }

  /** decodeItem undoes the wire encoding, whatever the libraries do on
      malformed text. */
  lemma {:induction false} DecodeEncodeItem(item: Item, fb: Fallback)
    ensures DecodeItem(EncodeItem(item), fb) == item
  {
    Base16.DecodeEncode(item.code);
    Base16.DecodeEncode(item.itemType);
    Base64.DecodeEncode(item.data);
  }

  /** The wire codes of the state machine decode to their four characters, e.g.
      "6d64656e" to "mden". */
  lemma WireCodes(fb: Fallback)
    ensures HexDecodeString(Base16.Encode(MDEN), fb) == MDEN
    ensures HexDecodeString(Base16.Encode(ASAL), fb) == ASAL
    ensures Base16.Encode(MDEN) == [0x36, 0x64, 0x36, 0x34, 0x36, 0x35, 0x36, 0x65]
  {
    Base16.DecodeEncode(MDEN);
    Base16.DecodeEncode(ASAL);
    assert MDEN[1..][1..][1..][1..] == [];
  }

  /** PutUint32 and BigEndianUint32 are inverse: the track length is exactly
      the uint32 the four bytes spell. */
  lemma Uint32RoundTrip(v: bv32)
    ensures BigEndianUint32(PutUint32(v)) == v
  {
  }
}
