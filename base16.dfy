/** Base16 (hexadecimal) encoding, section 8 of RFC 4648, as Go's encoding/hex
    reads it: two digits per byte, high nibble first, digits of either case. */
module Base16 {
  import opened Common

  /** The value of one hexadecimal digit, or None for any other byte. */
  function DigitValue(c: byte): (r: Option<byte>)
    ensures r.Some? ==> r.value < 16
  {
    if 0x30 <= c <= 0x39 then Some(c - 0x30)        // '0'..'9'
    else if 0x61 <= c <= 0x66 then Some(c - 0x57)   // 'a'..'f'
    else if 0x41 <= c <= 0x46 then Some(c - 0x37)   // 'A'..'F'
    else None
  }

  /** The lower-case digit of a nibble (Go's hex.EncodeToString writes lower case). */
  function Digit(v: byte): (c: byte)
    requires v < 16
    ensures DigitValue(c) == Some(v)
  {
    if v < 10 then 0x30 + v else 0x57 + v
  }

  /** Folds the digits 'A'..'F' to lower case and leaves every other byte alone. */
  function ToLower(c: byte): byte
  {
    if 0x41 <= c <= 0x46 then c + 0x20 else c
  }

  /** The text with its digits folded to lower case. */
  function Lower(s: seq<byte>): seq<byte>
  {
    seq(|s|, i requires 0 <= i < |s| => ToLower(s[i]))
  }

  /** Well-formed Base16 text: an even number of hexadecimal digits. */
  predicate IsHex(s: seq<byte>)
  {
    |s| % 2 == 0 && forall i | 0 <= i < |s| :: DigitValue(s[i]).Some?
  }

  /** Well-formedness of a text in terms of its first digit pair and the rest. */
  lemma IsHexPair(s: seq<byte>)
    requires |s| >= 2
    ensures IsHex(s) <==> DigitValue(s[0]).Some? && DigitValue(s[1]).Some? && IsHex(s[2..])
  {
    assert forall i | 0 <= i < |s| - 2 :: s[2..][i] == s[i + 2];
  }

  /** Decodes well-formed text and yields None for anything else. */
  function Decode(s: seq<byte>): (r: Option<seq<byte>>)
    ensures r.Some? <==> IsHex(s)
    ensures r.Some? ==> 2 * |r.value| == |s|
    decreases |s|
  {
    if |s| == 0 then Some([])
    else if |s| == 1 then None
    else
      IsHexPair(s);
      if DigitValue(s[0]).None? || DigitValue(s[1]).None? then None
      else
        match Decode(s[2..])
        case None => None
        case Some(rest) => Some([DigitValue(s[0]).value * 16 + DigitValue(s[1]).value] + rest)
  }

  /** Encodes bytes as lower-case hexadecimal text. */
  function Encode(b: seq<byte>): (s: seq<byte>)
    ensures 2 * |b| == |s|
  {
    if b == [] then [] else [Digit(b[0] / 16), Digit(b[0] % 16)] + Encode(b[1..])
  }

  /** A digit followed by its value is that digit in lower case. */
  lemma DigitOfValue(c: byte)
    requires DigitValue(c).Some?
    ensures Digit(DigitValue(c).value) == ToLower(c)
  {
  }

  /** The two nibbles of a byte put back together. */
  lemma Nibbles(hi: byte, lo: byte)
    requires hi < 16 && lo < 16
    ensures (hi * 16 + lo) / 16 == hi && (hi * 16 + lo) % 16 == lo
  {
  }

  lemma LowerPair(s: seq<byte>)
    requires |s| >= 2
    ensures Lower(s) == [ToLower(s[0]), ToLower(s[1])] + Lower(s[2..])
  {
    var l, r := Lower(s), [ToLower(s[0]), ToLower(s[1])] + Lower(s[2..]);
    assert |l| == |r|;
    forall i | 0 <= i < |l| ensures l[i] == r[i] {
      if i >= 2 { assert r[i] == Lower(s[2..])[i - 2]; }
    }
  }

  /** Decoding what was encoded returns the original bytes. */
  lemma {:induction false} DecodeEncode(b: seq<byte>)
    ensures Decode(Encode(b)) == Some(b)
  {
    if b != [] {
      var hi, lo := b[0] / 16, b[0] % 16;
      var s := Encode(b);
      assert s == [Digit(hi), Digit(lo)] + Encode(b[1..]);
      assert s[2..] == Encode(b[1..]);
      DecodeEncode(b[1..]);
      assert DigitValue(s[0]) == Some(hi) && DigitValue(s[1]) == Some(lo);
      assert hi * 16 + lo == b[0];
      assert [b[0]] + b[1..] == b;
    }
  }

  /** One step of EncodeDecode: a decoded digit pair re-encodes in lower case. */
  lemma EncodePair(s: seq<byte>, hi: byte, lo: byte, rest: seq<byte>)
    requires |s| >= 2
    requires DigitValue(s[0]) == Some(hi) && DigitValue(s[1]) == Some(lo)
    requires Encode(rest) == Lower(s[2..])
    ensures Encode([hi * 16 + lo] + rest) == Lower(s)
  {
    var b := [hi * 16 + lo] + rest;
    assert b[0] == hi * 16 + lo && b[1..] == rest;
    Nibbles(hi, lo);
    DigitOfValue(s[0]);
    DigitOfValue(s[1]);
    assert Encode(b) == [Digit(b[0] / 16), Digit(b[0] % 16)] + Encode(b[1..]);
    LowerPair(s);
  }

  /** Encoding what was decoded gives back the text, digits folded to lower case;
      so two texts decode alike exactly when they agree up to case. */
  lemma {:induction false} EncodeDecode(s: seq<byte>)
    requires IsHex(s)
    ensures Encode(Decode(s).value) == Lower(s)
    decreases |s|
  {
    if |s| > 0 {
      IsHexPair(s);
      var hi, lo := DigitValue(s[0]).value, DigitValue(s[1]).value;
      var rest := Decode(s[2..]).value;
      EncodeDecode(s[2..]);
      assert Decode(s).value == [hi * 16 + lo] + rest;
      EncodePair(s, hi, lo, rest);
    }
  }

  /** Only a digit folds to a digit, so text that is hexadecimal after folding
      was hexadecimal before. */
  lemma HexOfLower(s: seq<byte>)
    ensures IsHex(Lower(s)) ==> IsHex(s)
  {
    if IsHex(Lower(s)) {
      forall i | 0 <= i < |s| ensures DigitValue(s[i]).Some? {
        assert Lower(s)[i] == ToLower(s[i]);
      }
    }
  }

  /** Decoding ignores the case of the digits, on every text, malformed or not. */
  lemma DecodeIgnoresCase(s: seq<byte>)
    ensures Decode(Lower(s)) == Decode(s)
  {
    if IsHex(s) {
      EncodeDecode(s);
      DecodeEncode(Decode(s).value);
    } else {
      HexOfLower(s);
    }
  }
}
