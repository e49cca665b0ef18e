/** Definitions that several modules share. */
module Common {
  const PAGE_SIZE := 0x1000

  function Max(a: int, b: int): int { if a > b then a else b }
}
