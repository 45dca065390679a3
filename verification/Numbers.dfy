/** The fixed-width integers of the protocol and a few containers shared by all modules. */
module Numbers {
  datatype Option<+T> = None | Some(value: T)

  type byte = x: int | 0 <= x < 0x100
  type u16 = x: int | 0 <= x < 0x1_0000
  type u32 = x: int | 0 <= x < 0x1_0000_0000
  /// `sequence_t`, a signed 16-bit integer
  type i16 = x: int | -0x8000 <= x < 0x8000
  /// `size_t`, an unsigned 64-bit integer
  type u64 = x: int | 0 <= x < 0x1_0000_0000_0000_0000

  /// the number of ports there are
  const PORTS: nat := 0x1_0000

  /** The conversion to `sequence_t`: the unique 16-bit signed value congruent to `x`. */
  function Wrap16(x: int): (r: i16)
    ensures (x - r) % 0x1_0000 == 0
  {
    (x + 0x8000) % 0x1_0000 - 0x8000
  }

  /** The conversion to `size_t`. */
  function Wrap64(x: int): u64 {
    x % 0x1_0000_0000_0000_0000
  }

  /** Subtracting wrapped numbers and wrapping again gives the wrapped difference. */
  lemma WrapDifference(a: int, b: int)
    ensures Wrap16(Wrap16(a) - Wrap16(b)) == Wrap16(a - b)
  {
  }

  /** Numbers less than half the range apart keep their distance. */
  lemma WrapApart(a: int, b: int)
    requires -0x8000 <= a - b < 0x8000
    ensures Wrap16(Wrap16(a) - Wrap16(b)) == a - b
  {
    WrapDifference(a, b);
  }

  lemma Wrap16Next(n: int)
    ensures Wrap16(Wrap16(n) as int + 1) == Wrap16(n + 1)
  {
  }

  /** Adding to a wrapped counter is the same as wrapping the sum. */
  lemma Wrap64Add(a: int, b: int)
    ensures Wrap64(Wrap64(a) + b) == Wrap64(a + b)
  {
  }
}
