/** Bytes and the integer widths of the wire format. */
module Bytes {
  type byte = b: int | 0 <= b < 256

  const TWO_31 := 0x8000_0000
  const TWO_32 := 0x1_0000_0000
  const TWO_64 := 0x1_0000_0000_0000_0000

  type int32 = i: int | -TWO_31 <= i < TWO_31

  /** Go's conversion uint64(int64(i)) of a signed value. */
  function ToUint64(i: int32): (u: nat)
    ensures u < TWO_64
  {
    if i < 0 then i + TWO_64 else i
  }

  /** Go's conversion int32(u): keep 32 bits and read them as a signed value. */
  function ToInt32(u: nat): int32 {
    var low := u % TWO_32;
    if low < TWO_31 then low else low - TWO_32
  }

  lemma Int32RoundTrip(i: int32)
    ensures ToInt32(ToUint64(i)) == i
  {
    if i < 0 {
      assert ToUint64(i) == (i + TWO_32) + TWO_32 * (TWO_32 - 1);
      assert (i + TWO_32 + TWO_32 * (TWO_32 - 1)) % TWO_32 == i + TWO_32;
    }
  }

  function Concat<T>(parts: seq<seq<T>>): seq<T> {
    if parts == [] then [] else parts[0] + Concat(parts[1..])
  }
}
