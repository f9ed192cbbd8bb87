/** Machine words of the 32-bit Cortex-M3. */
module Words {
  /** An `unsigned int` (32 bits on this target). */
  type Word = w: nat | w < 0x1_0000_0000
}
