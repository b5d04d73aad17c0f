/** The code space shared by every module: integers 0 through 0x10FFFF. */
module Unicode {

  /** `Codepoint.MAX_CODE_POINT` in both codepoint classes. */
  const MaxCodePoint: int := 0x10FFFF

  /** Number of code points in the code space: 1,114,112. */
  const CodeSpaceSize: int := MaxCodePoint + 1

  predicate IsCodepoint(n: int) {
    0 <= n <= MaxCodePoint
  }

  /** An integer that a codepoint constructor accepts. */
  type CodepointValue = n: int | IsCodepoint(n)
}
