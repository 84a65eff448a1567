/** What the other modules share: machine bytes and words, C strings, and the sizes of the kernel's tables. */
module Bytes {
  const U32 := 0x1_0000_0000
  const NUL: byte := 0
  const NEWLINE: byte := 10
  const SPACE: byte := 32

  const MAX_PROCESSES := 8
  const MAX_TERMINAL := 3
  const PAGE_4MB := 0x0040_0000
  /** `BUFFER_SIZE` of keyboard.c and `TERM_BUFF_SIZE` of terminal.c. */
  const BUFFER_SIZE := 128

  type byte = x: int | 0 <= x < 256
  type word = x: int | 0 <= x < U32

  datatype Option<T> = None | Some(value: T)

  function Min(a: int, b: int): (m: int) {
    if a <= b then a else b
  }

  /** The bytes before the first NUL; all of them if there is none. */
  ghost function UpToNul(s: seq<byte>): (r: seq<byte>)
    ensures r <= s && NUL !in r
    ensures |r| < |s| ==> s[|r|] == NUL
  {
    if s == [] || s[0] == NUL then [] else [s[0]] + UpToNul(s[1..])
  }
}
