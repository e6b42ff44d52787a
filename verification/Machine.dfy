/** The integer types of the machine and how results are cut to them. */
module Machine {
  const B32: int := 0x1_0000_0000

  type uint16 = x: int | 0 <= x < 0x1_0000
  type uint32 = x: int | 0 <= x < 0x1_0000_0000
  type int32 = x: int | -0x8000_0000 <= x < 0x8000_0000

  function ToUint16(x: int): uint16 {
    x % 0x1_0000
  }

  function ToUint32(x: int): uint32 {
    x % B32
  }

  function ToInt32(x: int): int32 {
    var r := x % B32;
    if r < 0x8000_0000 then r else r - B32
  }

  /** C division and remainder round toward zero. */
  function TruncDiv(a: int, b: int): int
    requires b > 0
  {
    if a >= 0 then a / b else -(-a / b)
  }

  function TruncMod(a: int, b: int): int
    requires b > 0
  {
    a - b * TruncDiv(a, b)
  }
}
