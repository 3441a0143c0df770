/** Machine words. */
module Words {

  const WORD32 := 0x1_0000_0000

  const WORD := 0x1_0000_0000_0000_0000
}
