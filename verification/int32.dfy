/**
  C# `int` arithmetic: values are 32-bit two's complement and `+`, `-` and
  `*` wrap around silently (the default unchecked context).
 */
module Int32 {

  /** Values of a C# `int`. */
  predicate IsInt32(x: int)
  {
    -0x8000_0000 <= x < 0x8000_0000
  }

  /** The exact value of an `int` operation reduced to 32 bits, two's complement. */
  function Wrap32(x: int): int
  {
    var m := x % 0x1_0000_0000;
    if m < 0x8000_0000 then m else m - 0x1_0000_0000
  }

  /** Wrapping lands in range, agrees with the exact value modulo 2^32, and leaves an in-range value alone. */
  lemma Wrap32Means(x: int)
    ensures IsInt32(Wrap32(x))
    ensures (Wrap32(x) - x) % 0x1_0000_0000 == 0
    ensures IsInt32(x) ==> Wrap32(x) == x
  {
  }

  /** `y + 1` on an `int`: past the greatest value it wraps to the least. */
  function Inc32(y: int): int
  {
    if y == 0x7FFF_FFFF then -0x8000_0000 else y + 1
  }

  /** `y - 1` on an `int`: past the least value it wraps to the greatest. */
  function Dec32(y: int): int
  {
    if y == -0x8000_0000 then 0x7FFF_FFFF else y - 1
  }

  /** On `int` values, Inc32 and Dec32 are the 32-bit wrapped sums, and they undo each other. */
  lemma IncDec32(y: int)
    requires IsInt32(y)
    ensures Inc32(y) == Wrap32(y + 1) && Dec32(y) == Wrap32(y - 1)
    ensures IsInt32(Inc32(y)) && IsInt32(Dec32(y))
    ensures Dec32(Inc32(y)) == y && Inc32(Dec32(y)) == y
  {
  }

  /** A step of one up or down never lands back on the start, even across the wrap. */
  lemma IncDec32Move(y: int)
    ensures Inc32(y) != y && Dec32(y) != y
  {
  }
}
