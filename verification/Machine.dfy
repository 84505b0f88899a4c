/** The values that fit the machine's registers and memory cells. */
module Machine {

  const WORD_LIMIT: nat := 0x1_0000_0000

  type Word32 = x: int | 0 <= x < 0x1_0000_0000

  type Byte = x: int | 0 <= x < 256

  /** Control characters that the console and the line editor both know. */
  const BACKSPACE: Byte := 8
  const NEWLINE: Byte := 10
}
