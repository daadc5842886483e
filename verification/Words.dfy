// Machine words of pidigits.h: `unsigned` (32 bits) and `u64` (64 bits), as ranges of integers.
// Every wrap-around is written out as a remainder.
module Words {

  const B32: int := 0x1_0000_0000
  const B64: int := 0x1_0000_0000_0000_0000
  const B128: int := 0x1_0000_0000_0000_0000_0000_0000_0000_0000

  // An int holds the numbers below this limit; going beyond it is undefined.
  const INT_LIMIT: int := 0x8000_0000

  type i32 = x: int | -INT_LIMIT <= x < INT_LIMIT
  type u32 = x: int | 0 <= x < B32
  type u64 = x: int | 0 <= x < B64

  // A carry or borrow flag: the `int &carry` parameters of pidigits.h.
  type Flag = x: int | 0 <= x < 2

  // The value of a comparison stored in an int.
  function Flagged(b: bool): Flag {
    if b then 1 else 0
  }

  // low | high, for a low that lies below the bit of weight `unit` and a high that lies above it.
  function OrDisjoint(low: u64, high: u64, unit: int): (r: u64)
    requires unit > 0 && low < unit && high % unit == 0 && high + unit <= B64
  {
    low + high
  }
}
