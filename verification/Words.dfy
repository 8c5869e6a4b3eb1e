/** The sizes of machine words and pages, and the halves of a word. */
module Words {
  const TWO16: nat := 0x1_0000
  const TWO32: nat := 0x1_0000_0000
  const TWO64: nat := 0x1_0000_0000_0000_0000

  const PAGE_SIZE: nat := 4096

  /** `LHALF`: the low half of a word whose halves are digits in base `b`. */
  function LHalf(b: nat, t: int): int
    requires b > 0
  {
    t % b
  }

  /** `HHALF`: the high half. */
  function HHalf(b: nat, t: int): int
    requires b > 0
  {
    t / b
  }
}
