/** Values shared by every part of the LED-wall model: bytes, optional
    values and the byte-sum checksum that every frame format ends with. */
module Common {

  /** An unsigned 8-bit value (Rust `u8`, a Python `bytes` element). */
  type Byte = x: int | 0 <= x < 256

  datatype Option<+T> = None | Some(value: T)

  /** The plain (non-wrapping) sum of a sequence of integers. */
  function Sum(s: seq<int>): int
  {
    if s == [] then 0 else Sum(s[..|s| - 1]) + s[|s| - 1]
  }

  /** The checksum byte the tiles expect: the sum of all bytes modulo 256,
      which is what folding them with `wrapping_add` computes. */
  function Checksum(s: seq<int>): (crc: Byte)
  {
    Sum(s) % 256
  }

  /** Adding one byte to a running `u8` sum with `wrapping_add`. */
  function WrappingAdd(a: Byte, b: Byte): (r: Byte)
    ensures r == (a + b) % 256
  {
    if a + b < 256 then a + b else a + b - 256
  }

  lemma SumAppend(s: seq<int>, x: int)
    ensures Sum(s + [x]) == Sum(s) + x
  {
    assert (s + [x])[..|s|] == s;
  }

  lemma {:induction false} SumNonNegative(s: seq<int>)
    requires forall i :: 0 <= i < |s| ==> s[i] >= 0
    ensures Sum(s) >= 0
  {
    if s != [] {
      SumNonNegative(s[..|s| - 1]);
    }
  }

  /** Folding a sequence with `wrapping_add`, one byte at a time as the
      firmware and the drivers do, yields the checksum of the whole
      sequence: the running value never needs to leave the byte range. */
  lemma {:induction false} WrappingFoldIsChecksum(s: seq<Byte>, crc: Byte)
    requires crc == Checksum(s)
    ensures forall b: Byte {:trigger s + [b]} :: WrappingAdd(crc, b) == Checksum(s + [b])
  {
    forall b: Byte ensures WrappingAdd(crc, b) == Checksum(s + [b]) {
      SumAppend(s, b);
    }
  }

  /** A sequence of zero bytes sums to zero. */
  lemma {:induction false} SumOfZeros(s: seq<int>)
    requires forall i :: 0 <= i < |s| ==> s[i] == 0
    ensures Sum(s) == 0 && Checksum(s) == 0
  {
    if s != [] {
      SumOfZeros(s[..|s| - 1]);
    }
  }

  /** A prefix one element longer is the shorter prefix and that element. */
  lemma PrefixStep<T>(s: seq<T>, i: nat)
    requires i < |s|
    ensures s[..i + 1] == s[..i] + [s[i]]
  {
  }

  /** Three more bytes folded into a running checksum with `wrapping_add`
      give the checksum of the prefix three bytes longer. */
  lemma ChecksumTripleStep(s: seq<Byte>, i: nat, crc: Byte)
    requires i + 3 <= |s| && crc == Checksum(s[..i])
    ensures WrappingAdd(WrappingAdd(WrappingAdd(crc, s[i]), s[i + 1]), s[i + 2]) == Checksum(s[..i + 3])
  {
    PrefixStep(s, i);
    PrefixStep(s, i + 1);
    PrefixStep(s, i + 2);
    WrappingFoldIsChecksum(s[..i], crc);
    WrappingFoldIsChecksum(s[..i + 1], WrappingAdd(crc, s[i]));
    WrappingFoldIsChecksum(s[..i + 2], WrappingAdd(WrappingAdd(crc, s[i]), s[i + 1]));
  }
}
