/** Machine quantities shared by the models. */
module Machine {

  type byte = x: int | 0 <= x < 256

  /** 2^32: `unsigned` and `unsigned long` values are numbers below it. */
  const U32: nat := 0x1_0000_0000
}
