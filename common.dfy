/** Shared vocabulary: Go strings are byte sequences, Go's int32 wraps around. */
module Common {

  /** One byte of a Go string. */
  type byte = bv8

  datatype Option<+T> = None | Some(value: T)

  /** Go's int32. */
  newtype int32 = x: int | -0x8000_0000 <= x < 0x8000_0000

  const INT32_MAX: int := 0x7fff_ffff

  /** Two's-complement reduction of an unbounded integer into int32, which is
      what Go's signed integer arithmetic does on overflow. */
  function Wrap32(x: int): (r: int32)
    ensures (r as int - x) % 0x1_0000_0000 == 0
    ensures -0x8000_0000 <= x <= INT32_MAX ==> r as int == x
  {
    ((x + 0x8000_0000) % 0x1_0000_0000 - 0x8000_0000) as int32
  }

  /** Go's `x++` on an int32. */
  function Inc32(x: int32): (r: int32)
    ensures r != x
    ensures x as int < INT32_MAX ==> r as int == x as int + 1
    ensures x as int == INT32_MAX ==> r as int == -0x8000_0000
  {
    if x as int == INT32_MAX then -0x8000_0000 else x + 1
  }

  /** Go's strings.HasSuffix. */
  predicate HasSuffix(s: seq<byte>, suffix: seq<byte>)
    ensures HasSuffix(s, suffix) <==> |suffix| <= |s| && s[..|s| - |suffix|] + suffix == s
  {
    |suffix| <= |s| && s[|s| - |suffix|..] == suffix
  }

  /** Concatenation of a sequence of byte strings, left to right. */
  function Concat(chunks: seq<seq<byte>>): (r: seq<byte>)
    decreases |chunks|
  {
    if chunks == [] then [] else Concat(chunks[..|chunks| - 1]) + chunks[|chunks| - 1]
  }
}
