/** UTF-8 as in section 3 of RFC 3629, with Go's treatment of code points that have no encoding. */
module Utf8 {
  import opened Bytes

  const MaxRune := 0x10FFFF
  const RuneError := 0xFFFD

  predicate IsSurrogate(r: int) {
    0xD800 <= r <= 0xDFFF
  }

  predicate ValidRune(r: int) {
    0 <= r <= MaxRune && !IsSurrogate(r)
  }

  /** The number of bytes of the UTF-8 bit pattern for r. */
  function EncodedLen(r: int): (n: nat)
    requires 0 <= r <= MaxRune
    ensures 1 <= n <= 4
  {
    if r <= 0x7F then 1 else if r <= 0x7FF then 2 else if r <= 0xFFFF then 3 else 4
  }

  /** The UTF-8 bit pattern of any number up to 0x10FFFF, surrogates included. */
  function BitPattern(r: int): (w: Str)
    requires 0 <= r <= MaxRune
    ensures |w| == EncodedLen(r)
  {
    if r <= 0x7F then [r]
    else if r <= 0x7FF then [0xC0 + r / 64, 0x80 + r % 64]
    else if r <= 0xFFFF then [0xE0 + r / 4096, 0x80 + r / 64 % 64, 0x80 + r % 64]
    else [0xF0 + r / 262144, 0x80 + r / 4096 % 64, 0x80 + r / 64 % 64, 0x80 + r % 64]
  }

  /** What utf8.EncodeRune writes and string(r) holds. */
  function EncodeRune(r: int): (w: Str)
    ensures 1 <= |w| <= 4
  {
    if ValidRune(r) then BitPattern(r) else BitPattern(RuneError)
  }

  function EncodeAll(rs: seq<int>): Str {
    if rs == [] then [] else EncodeRune(rs[0]) + EncodeAll(rs[1..])
  }
}
