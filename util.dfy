/** `Util`: rounding up to a power of two on 32-bit unsigned values, and byte swapping in place. */
module Util {
  import opened Ints

  /** `r` has exactly one bit set. */
  predicate IsPowerOfTwo(r: bv32) {
    r != 0 && r & (r - 1) == 0
  }

  /**
   * `m` has every bit at or below the highest set bit of `v` set and no bit
   * above it: a run of ones from bit 0, as small as possible while covering `v`.
   */
  predicate IsLowMaskOf(v: bv32, m: bv32) {
    && m & (m + 1) == 0
    && v <= m
    && (v == 0 ==> m == 0)
    && (v != 0 ==> m >> 1 < v)
  }

  /**
   * `nextPow2`: decrement, smear the highest set bit into every lower bit
   * with five shifted ors, and add one back.
   */
  method NextPow2(x: bv32) returns (r: bv32)
    ensures IsLowMaskOf(x - 1, r - 1)
    ensures 1 <= x <= 0x8000_0000 ==> IsPowerOfTwo(r) && x <= r && r >> 1 < x
    ensures IsPowerOfTwo(x) ==> r == x
    ensures x == 0 || x > 0x8000_0000 ==> r == 0
  {
    var v := x;
    v := v - 1;
    v := v | (v >> 1);
    v := v | (v >> 2);
    v := v | (v >> 4);
    v := v | (v >> 8);
    v := v | (v >> 16);
    r := v + 1;
  }

  /** The bytes of `s` in reverse order. */
  function ByteSwapped(s: seq<byte>): (r: seq<byte>)
    ensures |r| == |s|
    ensures forall i :: 0 <= i < |s| ==> r[i] == s[|s| - 1 - i]
  {
    if s == [] then [] else [s[|s| - 1]] + ByteSwapped(s[..|s| - 1])
  }

  /** Swapping the byte order twice gives back the original bytes. */
  lemma ByteSwapInvolution(s: seq<byte>)
    ensures ByteSwapped(ByteSwapped(s)) == s
  {
  }

  /** `endianSwap(int32_t*)`: reverses the four bytes of the cell in place. */
  method EndianSwap32(value: array<byte>)
    requires value.Length == 4
    modifies value
    ensures value[..] == [old(value[3]), old(value[2]), old(value[1]), old(value[0])]
    ensures value[..] == ByteSwapped(old(value[..]))
  {
    var temp := value[0];
    value[0] := value[3];
    value[3] := temp;
    temp := value[1];
    value[1] := value[2];
    value[2] := temp;
  }

  /** `endianSwap(int16_t*)`: exchanges the two bytes of the cell in place. */
  method EndianSwap16(value: array<byte>)
    requires value.Length == 2
    modifies value
    ensures value[..] == [old(value[1]), old(value[0])]
    ensures value[..] == ByteSwapped(old(value[..]))
  {
    var temp := value[0];
    value[0] := value[1];
    value[1] := temp;
  }

  /** `endianSwap(uint16_t*)`: the same bytes, swapped by the signed overload. */
  method EndianSwapUnsigned16(value: array<byte>)
    requires value.Length == 2
    modifies value
    ensures value[..] == [old(value[1]), old(value[0])]
    ensures value[..] == ByteSwapped(old(value[..]))
  {
    EndianSwap16(value);
  }
}
