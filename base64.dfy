/** Base64 with the standard alphabet and '=' padding, section 4 of RFC 4648,
    as Go's base64.StdEncoding reads it: the encoding is not strict, so the
    unused low bits of a padded final quantum are discarded whatever they are. */
module Base64 {
  import opened Common

  const PAD: byte := 0x3D  // '='

  /** The value of one character of the alphabet (table 1 of RFC 4648), or None. */
  function Sextet(c: byte): (r: Option<byte>)
    ensures r.Some? ==> r.value < 64
  {
    if 0x41 <= c <= 0x5A then Some(c - 0x41)         // 'A'..'Z' -> 0..25
    else if 0x61 <= c <= 0x7A then Some(c - 0x47)    // 'a'..'z' -> 26..51
    else if 0x30 <= c <= 0x39 then Some(c + 0x04)    // '0'..'9' -> 52..61
    else if c == 0x2B then Some(62)                  // '+'
    else if c == 0x2F then Some(63)                  // '/'
    else None
  }

  /** The alphabet character of a 6-bit value. */
  function Char(v: byte): (c: byte)
    requires v < 64
    ensures Sextet(c) == Some(v)
  {
    if v < 26 then v + 0x41
    else if v < 52 then v + 0x47
    else if v < 62 then v - 0x04
    else if v == 62 then 0x2B
    else 0x2F
  }

  /** Each alphabet character is the character of its value. */
  lemma CharOfSextet(c: byte)
    requires Sextet(c).Some?
    ensures Char(Sextet(c).value) == c
  {
  }

  // The bit layout of a quantum: three bytes b0 b1 b2 are four sextets
  // b0[7:2], b0[1:0] b1[7:4], b1[3:0] b2[7:6], b2[5:0].

  function First(b0: byte): byte { b0 >> 2 }
  function Second(b0: byte, b1: byte): byte { ((b0 & 3) << 4) | (b1 >> 4) }
  function Third(b1: byte, b2: byte): byte { ((b1 & 15) << 2) | (b2 >> 6) }
  function Fourth(b2: byte): byte { b2 & 63 }

  function Byte0(a: byte, b: byte): byte { (a << 2) | (b >> 4) }
  function Byte1(b: byte, c: byte): byte { (b << 4) | (c >> 2) }
  function Byte2(c: byte, d: byte): byte { (c << 6) | d }

  /** Encodes bytes; every group of three becomes four characters and a final
      group of one or two is padded with '='. */
  function Encode(b: seq<byte>): (s: seq<byte>)
    ensures |s| == 4 * ((|b| + 2) / 3)
  {
    if |b| == 0 then []
    else if |b| == 1 then
      [Char(First(b[0])), Char(Second(b[0], 0)), PAD, PAD]
    else if |b| == 2 then
      [Char(First(b[0])), Char(Second(b[0], b[1])), Char(Third(b[1], 0)), PAD]
    else
      [Char(First(b[0])), Char(Second(b[0], b[1])), Char(Third(b[1], b[2])), Char(Fourth(b[2]))]
        + Encode(b[3..])
  }

  /** A quantum of four alphabet characters. */
  function DecodeFull(c0: byte, c1: byte, c2: byte, c3: byte): (r: Option<seq<byte>>)
    ensures r.Some? ==> |r.value| == 3
  {
    match (Sextet(c0), Sextet(c1), Sextet(c2), Sextet(c3))
    case (Some(a), Some(b), Some(c), Some(d)) => Some([Byte0(a, b), Byte1(b, c), Byte2(c, d)])
    case _ => None
  }

  /** The final quantum, which may end in one or two '='. */
  function DecodeLast(c0: byte, c1: byte, c2: byte, c3: byte): (r: Option<seq<byte>>)
    ensures r.Some? ==> 1 <= |r.value| <= 3
    ensures r.Some? ==> (|r.value| == 1 <==> c2 == PAD) && (|r.value| < 3 <==> c3 == PAD)
  {
    if c3 != PAD then DecodeFull(c0, c1, c2, c3)
    else
      match (Sextet(c0), Sextet(c1))
      case (Some(a), Some(b)) =>
        if c2 == PAD then Some([Byte0(a, b)])
        else if Sextet(c2).Some? then Some([Byte0(a, b), Byte1(b, Sextet(c2).value)])
        else None
      case _ => None
  }

  /** The number of bytes a text of |s| characters decodes to. */
  function DecodedLength(s: seq<byte>): nat
  {
    if |s| < 4 then 0
    else 3 * (|s| / 4) - (if s[|s| - 1] == PAD then 1 else 0) - (if s[|s| - 2] == PAD then 1 else 0)
  }

  /** Decodes well-formed text (whole quanta, padding only at the very end) and
      yields None for anything else. */
  function Decode(s: seq<byte>): (r: Option<seq<byte>>)
    ensures r.Some? ==> |s| % 4 == 0 && |r.value| == DecodedLength(s)
    decreases |s|
  {
    if |s| == 0 then Some([])
    else if |s| < 4 then None
    else if |s| == 4 then DecodeLast(s[0], s[1], s[2], s[3])
    else
      match (DecodeFull(s[0], s[1], s[2], s[3]), Decode(s[4..]))
      case (Some(q), Some(rest)) => Some(q + rest)
      case _ => None
  }

  /** The bit layout of a full quantum is undone by decoding. */
  lemma QuantumBits(b0: byte, b1: byte, b2: byte)
    ensures Byte0(First(b0), Second(b0, b1)) == b0
    ensures Byte1(Second(b0, b1), Third(b1, b2)) == b1
    ensures Byte2(Third(b1, b2), Fourth(b2)) == b2
  {
  }

  /** The four characters of three bytes decode to those bytes. */
  lemma QuantumDecodes(b0: byte, b1: byte, b2: byte)
    ensures DecodeFull(Char(First(b0)), Char(Second(b0, b1)), Char(Third(b1, b2)), Char(Fourth(b2))) == Some([b0, b1, b2])
  {
    QuantumBits(b0, b1, b2);
  }

  /** A quantum of four characters in front of a text. */
  lemma SplitQuantum(q: seq<byte>, t: seq<byte>)
    requires |q| == 4
    ensures (q + t)[..4] == q && (q + t)[4..] == t
  {
  }

  /** The first quantum of an encoding of three bytes or more decodes to
      those three bytes, and the rest is the encoding of the rest. */
  lemma FirstQuantum(b: seq<byte>)
    requires |b| >= 3
    ensures var s := Encode(b);
            |s| >= 4 && DecodeFull(s[0], s[1], s[2], s[3]) == Some(b[..3]) && s[4..] == Encode(b[3..])
  {
    var q := [Char(First(b[0])), Char(Second(b[0], b[1])), Char(Third(b[1], b[2])), Char(Fourth(b[2]))];
    var t := Encode(b[3..]);
    assert Encode(b) == q + t;
    SplitQuantum(q, t);
    QuantumDecodes(b[0], b[1], b[2]);
    assert b[..3] == [b[0], b[1], b[2]];
  }

  /** One byte encodes to a quantum ending in "==" that decodes to it. */
  lemma OneByteQuantum(b0: byte)
    ensures Decode(Encode([b0])) == Some([b0])
  {
    var s := Encode([b0]);
    assert s == [Char(First(b0)), Char(Second(b0, 0)), PAD, PAD];
    QuantumBits(b0, 0, 0);
    assert DecodeLast(s[0], s[1], s[2], s[3]) == Some([b0]);
  }

  /** Two bytes encode to a quantum ending in "=" that decodes to them. */
  lemma TwoByteQuantum(b0: byte, b1: byte)
    ensures Decode(Encode([b0, b1])) == Some([b0, b1])
  {
    var s := Encode([b0, b1]);
    assert s == [Char(First(b0)), Char(Second(b0, b1)), Char(Third(b1, 0)), PAD];
    QuantumBits(b0, b1, 0);
    assert DecodeLast(s[0], s[1], s[2], s[3]) == Some([b0, b1]);
  }

  /** Decoding what was encoded returns the original bytes. */
  lemma {:induction false} DecodeEncode(b: seq<byte>)
    ensures Decode(Encode(b)) == Some(b)
    decreases |b|
  {
    if |b| == 1 {
      OneByteQuantum(b[0]);
      assert [b[0]] == b;
    } else if |b| == 2 {
      TwoByteQuantum(b[0], b[1]);
      assert [b[0], b[1]] == b;
    } else if |b| >= 3 {
      FirstQuantum(b);
      if |b| == 3 {
        assert b[..3] == b;
      } else {
        DecodeEncode(b[3..]);
        assert b[..3] + b[3..] == b;
      }
    }
  }

  /** Canonical text: the pad bits of a padded final quantum are zero, as
      section 3.5 of RFC 4648 asks of encoders. */
  predicate Canonical(s: seq<byte>)
  {
    |s| >= 4 ==>
      var n := |s|;
      (s[n - 1] == PAD && s[n - 2] == PAD && Sextet(s[n - 3]).Some? ==> Sextet(s[n - 3]).value & 15 == 0) &&
      (s[n - 1] == PAD && s[n - 2] != PAD && Sextet(s[n - 2]).Some? ==> Sextet(s[n - 2]).value & 3 == 0)
  }

  /** The bit layout of a full quantum is redone by encoding. */
  lemma SextetBits(a: byte, b: byte, c: byte, d: byte)
    requires a < 64 && b < 64 && c < 64 && d < 64
    ensures First(Byte0(a, b)) == a
    ensures Second(Byte0(a, b), Byte1(b, c)) == b
    ensures Third(Byte1(b, c), Byte2(c, d)) == c
    ensures Fourth(Byte2(c, d)) == d
    ensures b & 15 == 0 ==> Second(Byte0(a, b), 0) == b
    ensures c & 3 == 0 ==> Third(Byte1(b, c), 0) == c
  {
  }

  /** Encoding the three bytes of a full quantum gives back its four characters. */
  lemma FullQuantum(s: seq<byte>, q: seq<byte>)
    requires |s| >= 4 && DecodeFull(s[0], s[1], s[2], s[3]) == Some(q)
    ensures [Char(First(q[0])), Char(Second(q[0], q[1])), Char(Third(q[1], q[2])), Char(Fourth(q[2]))] == s[..4]
  {
    CharOfSextet(s[0]);
    CharOfSextet(s[1]);
    CharOfSextet(s[2]);
    CharOfSextet(s[3]);
    SextetBits(Sextet(s[0]).value, Sextet(s[1]).value, Sextet(s[2]).value, Sextet(s[3]).value);
  }

  /** Canonical text stays canonical without its first quantum. */
  lemma CanonicalTail(s: seq<byte>)
    requires |s| >= 8 && Canonical(s)
    ensures Canonical(s[4..])
  {
    var t := s[4..];
    assert t[|t| - 1] == s[|s| - 1] && t[|t| - 2] == s[|s| - 2] && t[|t| - 3] == s[|s| - 3];
  }

  /** One full quantum of EncodeDecode: the quantum re-encodes to its four
      characters, in front of the re-encoded rest. */
  lemma EncodeFirstQuantum(s: seq<byte>, q: seq<byte>, rest: seq<byte>)
    requires |s| > 4 && DecodeFull(s[0], s[1], s[2], s[3]) == Some(q)
    requires Encode(rest) == s[4..]
    ensures Encode(q + rest) == s
  {
    FullQuantum(s, q);
    var b := q + rest;
    assert |b| > 3 && b[0] == q[0] && b[1] == q[1] && b[2] == q[2] && b[3..] == rest;
    assert Encode(b) == s[..4] + Encode(rest);
    assert s == s[..4] + s[4..];
  }

  /** Encoding what was decoded returns canonical text unchanged: decoding is
      one-to-one on canonical text. */
  lemma {:induction false} EncodeDecode(s: seq<byte>)
    requires Decode(s).Some? && Canonical(s)
    ensures Encode(Decode(s).value) == s
    decreases |s|
  {
    if |s| == 4 {
      LastQuantum(s, Decode(s).value);
    } else if |s| > 4 {
      var q := DecodeFull(s[0], s[1], s[2], s[3]).value;
      var rest := Decode(s[4..]).value;
      assert Decode(s).value == q + rest;
      CanonicalTail(s);
      EncodeDecode(s[4..]);
      EncodeFirstQuantum(s, q, rest);
    }
  }

  /** The final-quantum case of EncodeDecode. */
  lemma LastQuantum(s: seq<byte>, b: seq<byte>)
    requires |s| == 4 && Decode(s) == Some(b) && Canonical(s)
    ensures Encode(b) == s
  {
    var a, v := Sextet(s[0]).value, Sextet(s[1]).value;
    CharOfSextet(s[0]);
    CharOfSextet(s[1]);
    if s[3] != PAD {
      CharOfSextet(s[2]);
      CharOfSextet(s[3]);
      SextetBits(a, v, Sextet(s[2]).value, Sextet(s[3]).value);
    } else if s[2] == PAD {
      SextetBits(a, v, 0, 0);
      assert b == [Byte0(a, v)];
    } else {
      CharOfSextet(s[2]);
      SextetBits(a, v, Sextet(s[2]).value, 0);
      assert b == [Byte0(a, v), Byte1(v, Sextet(s[2]).value)];
    }
  }

  /** A final quantum with its pad bits cleared: the character in front of
      the padding keeps only the bits that reach a decoded byte. */
  function ClearLast(q: seq<byte>): (r: seq<byte>)
    requires |q| == 4
    ensures |r| == 4 && r[0] == q[0] && r[3] == q[3]
  {
    if q[3] == PAD && q[2] == PAD && Sextet(q[1]).Some? then
      [q[0], Char(Sextet(q[1]).value & 48), PAD, PAD]
    else if q[3] == PAD && q[2] != PAD && Sextet(q[2]).Some? then
      [q[0], q[1], Char(Sextet(q[2]).value & 60), PAD]
    else q
  }

  /** The text with the pad bits of its final quantum cleared. */
  function ClearPadBits(s: seq<byte>): (r: seq<byte>)
    ensures |r| == |s|
    decreases |s|
  {
    if |s| == 4 then ClearLast(s)
    else if |s| < 4 then s
    else s[..4] + ClearPadBits(s[4..])
  }

  /** Clearing the pad bits of whole quanta gives canonical text. */
  lemma {:induction false} ClearedIsCanonical(s: seq<byte>)
    requires |s| % 4 == 0
    ensures Canonical(ClearPadBits(s))
    decreases |s|
  {
    if |s| > 4 {
      var t := s[4..];
      ClearedIsCanonical(t);
      var c, ct := ClearPadBits(s), ClearPadBits(t);
      assert c == s[..4] + ct;
      var n := |c|;
      assert c[n - 1] == ct[n - 5] && c[n - 2] == ct[n - 6] && c[n - 3] == ct[n - 7];
    }
  }

  /** The final-quantum case of PadBitsIgnored. */
  lemma ClearPadBitsLast(s: seq<byte>)
    requires |s| == 4 && Decode(s).Some?
    ensures Decode(ClearPadBits(s)) == Decode(s)
  {
    var c := ClearLast(s);
    if s[3] == PAD && s[2] == PAD {
      var a, b := Sextet(s[0]).value, Sextet(s[1]).value;
      PadBitsUnused(a, b, 0);
      assert Decode(c) == Some([Byte0(a, b & 48)]);
    } else if s[3] == PAD {
      var a, b, d := Sextet(s[0]).value, Sextet(s[1]).value, Sextet(s[2]).value;
      PadBitsUnused(a, b, d);
      assert Decode(c) == Some([Byte0(a, b), Byte1(b, d & 60)]);
    }
  }

  /** The pad bits of a sextet do not reach the decoded bytes. */
  lemma PadBitsUnused(a: byte, b: byte, d: byte)
    requires b < 64 && d < 64
    ensures Byte0(a, b & 48) == Byte0(a, b) && Byte1(b, d & 60) == Byte1(b, d)
  {
  }

  /** Go's decoder is not strict: a decodable text decodes exactly like the
      same text with its pad bits cleared, so those bits are discarded. */
  lemma {:induction false} PadBitsIgnored(s: seq<byte>)
    requires Decode(s).Some?
    ensures Decode(ClearPadBits(s)) == Decode(s)
    decreases |s|
  {
    if |s| == 4 {
      ClearPadBitsLast(s);
    } else if |s| > 4 {
      var t := s[4..];
      PadBitsIgnored(t);
      var c := ClearPadBits(s);
      assert c == s[..4] + ClearPadBits(t);
      assert c[..4] == s[..4] && c[4..] == ClearPadBits(t);
      assert c[0] == s[0] && c[1] == s[1] && c[2] == s[2] && c[3] == s[3];
    }
  }

  /** Re-encoding what any decodable text decodes to gives that text with its
      pad bits cleared. */
  lemma ReencodeClearsPadBits(s: seq<byte>)
    requires Decode(s).Some?
    ensures Encode(Decode(s).value) == ClearPadBits(s)
  {
    PadBitsIgnored(s);
    assert |s| % 4 == 0;
    ClearedIsCanonical(s);
    EncodeDecode(ClearPadBits(s));
  }
}
