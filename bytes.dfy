/**
  Byte-level vocabulary shared by the firmware and the PC-side sender:
  unsigned bytes and 32-bit words, two's-complement views of them, and the
  little-endian word encoding used on the wire (`get_u32` on the MicroBlaze,
  `struct.pack("<I", ...)` on the PC).
*/
module Bytes {

  /** An unsigned byte (`u8`, `unsigned char`). */
  type Byte = x: int | 0 <= x < 0x100

  /** An unsigned 32-bit word (`u32`, `uint32_t`, Python's "I"). */
  type U32 = x: int | 0 <= x < 0x1_0000_0000

  /** A signed byte (`int8_t`), as stored in every quantized buffer. */
  type Int8 = x: int | -128 <= x < 128

  /** A signed 32-bit value (`int`, `int32_t`). */
  type Int32 = x: int | -0x8000_0000 <= x < 0x8000_0000

  /** The two's-complement reading of any integer modulo 2^32: what a C
      conversion to `int` yields on the MicroBlaze. */
  function AsInt32(x: int): (r: Int32)
    ensures (r - x) % 0x1_0000_0000 == 0
  {
    var m := x % 0x1_0000_0000;
    if m < 0x8000_0000 then m else m - 0x1_0000_0000
  }

  /** The 32-bit pattern of an integer (a conversion to `uint32_t`). */
  function ToU32(x: int): (r: U32)
    ensures (r - x) % 0x1_0000_0000 == 0
  {
    x % 0x1_0000_0000
  }

  /** `(unsigned char)v` for a signed byte. */
  function ToByte(v: Int8): (r: Byte)
    ensures (r - v) % 256 == 0
  {
    if v < 0 then v + 256 else v
  }

  /** `(int8_t)b` for an unsigned byte. */
  function AsInt8(b: Byte): (r: Int8)
    ensures (r - b) % 256 == 0
  {
    if b < 128 then b else b - 256
  }

  /** `get_u32` (Microblaze/ACC.c:102-107): the little-endian word whose
      bytes start at `at`. The source ORs shifted bytes; because every byte
      is below 256 the shifted bytes do not overlap and the OR is this sum. */
  function GetU32(s: seq<Byte>, at: nat): (r: U32)
    requires at + 4 <= |s|
  {
    var b0, b1, b2, b3: int := s[at], s[at + 1], s[at + 2], s[at + 3];
    b0 + 0x100 * b1 + 0x1_0000 * b2 + 0x100_0000 * b3
  }

  /** `struct.pack("<I", x)`: the four little-endian bytes of a word. */
  function PutU32(x: U32): (r: seq<Byte>)
    ensures |r| == 4
  {
    [x % 0x100, (x / 0x100) % 0x100, (x / 0x1_0000) % 0x100, x / 0x100_0000]
  }

  /** A word is the sum of its four bytes at their weights. */
  lemma WordDigits(x: U32)
    ensures x == x % 0x100 + 0x100 * ((x / 0x100) % 0x100)
                 + 0x1_0000 * ((x / 0x1_0000) % 0x100) + 0x100_0000 * (x / 0x100_0000)
  {
    var q1, q2, q3 := x / 0x100, x / 0x1_0000, x / 0x100_0000;
    assert x == 0x100 * q1 + x % 0x100;
    assert q1 == 0x100 * q2 + q1 % 0x100;
    assert q2 == 0x100 * q3 + q2 % 0x100;
  }

  /** Reading back a packed word gives the word. */
  lemma GetPutU32(x: U32, prefix: seq<Byte>, suffix: seq<Byte>)
    ensures GetU32(prefix + PutU32(x) + suffix, |prefix|) == x
  {
    var s := prefix + PutU32(x) + suffix;
    var k := |prefix|;
    assert s[k..k + 4] == PutU32(x);
    WordDigits(x);
  }

  /** Splitting a word read from four bytes gives the four bytes back. */
  lemma PutGetU32(s: seq<Byte>, at: nat)
    requires at + 4 <= |s|
    ensures PutU32(GetU32(s, at)) == s[at..at + 4]
  {
    var b0, b1, b2, b3: int := s[at], s[at + 1], s[at + 2], s[at + 3];
    var x := GetU32(s, at);
    assert x == b0 + 0x100 * (b1 + 0x100 * (b2 + 0x100 * b3));
    assert x % 0x100 == b0 && x / 0x100 == b1 + 0x100 * (b2 + 0x100 * b3);
    assert x / 0x1_0000 == (x / 0x100) / 0x100 == b2 + 0x100 * b3;
    assert x / 0x100_0000 == (x / 0x1_0000) / 0x100 == b3;
  }

  /** A run of packed words: `struct.pack("<" + "I" * n, *xs)`. */
  function PutU32s(xs: seq<U32>): (r: seq<Byte>)
    ensures |r| == 4 * |xs|
  {
    if xs == [] then [] else PutU32s(xs[..|xs| - 1]) + PutU32(xs[|xs| - 1])
  }

  /** `n` consecutive little-endian words read from `at` on, in order: what
      a loop of `get_u32(ptr); ptr += 4` collects. */
  function GetU32s(s: seq<Byte>, at: nat, n: nat): (r: seq<U32>)
    requires at + 4 * n <= |s|
    ensures |r| == n
  {
    if n == 0 then [] else GetU32s(s, at, n - 1) + [GetU32(s, at + 4 * (n - 1))]
  }

  /** Reading back a packed run of words recovers every word, whatever
      surrounds the run. */
  lemma {:induction false} GetPutU32s(xs: seq<U32>, prefix: seq<Byte>, suffix: seq<Byte>)
    ensures |prefix + PutU32s(xs) + suffix| >= |prefix| + 4 * |xs|
    ensures GetU32s(prefix + PutU32s(xs) + suffix, |prefix|, |xs|) == xs
  {
    if xs != [] {
      var init, last := xs[..|xs| - 1], xs[|xs| - 1];
      var tail := PutU32(last) + suffix;
      assert prefix + PutU32s(xs) + suffix == prefix + PutU32s(init) + tail;
      GetPutU32s(init, prefix, tail);
      assert prefix + PutU32s(xs) + suffix == (prefix + PutU32s(init)) + PutU32(last) + suffix;
      GetPutU32(last, prefix + PutU32s(init), suffix);
      assert xs == init + [last];
    }
  }

  /** Any single word of a packed run can be read back at its own offset. */
  lemma {:induction false} GetPutU32sAt(xs: seq<U32>, i: nat, prefix: seq<Byte>, suffix: seq<Byte>)
    requires i < |xs|
    ensures |prefix + PutU32s(xs) + suffix| >= |prefix| + 4 * i + 4
    ensures GetU32(prefix + PutU32s(xs) + suffix, |prefix| + 4 * i) == xs[i]
  {
    var init, last := xs[..|xs| - 1], xs[|xs| - 1];
    assert prefix + PutU32s(xs) + suffix == (prefix + PutU32s(init)) + PutU32(last) + suffix;
    if i == |xs| - 1 {
      GetPutU32(last, prefix + PutU32s(init), suffix);
    } else {
      assert prefix + PutU32s(xs) + suffix == prefix + PutU32s(init) + (PutU32(last) + suffix);
      GetPutU32sAt(init, i, prefix, PutU32(last) + suffix);
    }
  }

  /** A word read inside a window of a sequence is the word read at the
      same place of the whole sequence. */
  lemma GetU32Window(s: seq<Byte>, at: nat, w: seq<Byte>, k: nat)
    requires at + |w| <= |s| && w == s[at..at + |w|] && k + 4 <= |w|
    ensures GetU32(s, at + k) == GetU32(w, k)
  {
    assert s[at + k] == w[k] && s[at + k + 1] == w[k + 1];
    assert s[at + k + 2] == w[k + 2] && s[at + k + 3] == w[k + 3];
  }

  /** Words read inside a window of a sequence are the words read at the
      same place of the whole sequence. */
  lemma {:induction false} GetU32sWindow(s: seq<Byte>, at: nat, w: seq<Byte>, k: nat, n: nat)
    requires at + |w| <= |s| && w == s[at..at + |w|] && k + 4 * n <= |w|
    ensures GetU32s(s, at + k, n) == GetU32s(w, k, n)
  {
    if n > 0 {
      GetU32sWindow(s, at, w, k, n - 1);
      GetU32Window(s, at, w, k + 4 * (n - 1));
    }
  }

  /** The `i`-th word of a run is the word read at its own offset. */
  lemma {:induction false} GetU32sIndex(s: seq<Byte>, at: nat, n: nat, i: nat)
    requires at + 4 * n <= |s| && i < n
    ensures GetU32s(s, at, n)[i] == GetU32(s, at + 4 * i)
  {
    if i < n - 1 {
      GetU32sIndex(s, at, n - 1, i);
    }
  }

  /** Words that each read as the matching element form a run that reads
      as the whole sequence. */
  lemma {:induction false} ReadsAs(s: seq<Byte>, at: nat, xs: seq<U32>)
    requires at + 4 * |xs| <= |s|
    requires forall j | 0 <= j < |xs| :: GetU32(s, at + 4 * j) == xs[j]
    ensures GetU32s(s, at, |xs|) == xs
  {
    if xs != [] {
      var init := xs[..|xs| - 1];
      assert forall j | 0 <= j < |init| :: init[j] == xs[j];
      ReadsAs(s, at, init);
      assert xs == init + [xs[|xs| - 1]];
    }
  }

  /** A signed value survives the round trip through its 32-bit pattern:
      `(int)get_u32(...)` undoes the two's-complement packing. */
  lemma AsInt32ToU32(z: Int32)
    ensures AsInt32(ToU32(z)) == z
  {
  }

  /** Wrapping an intermediate sum does not change the wrapped total:
      accumulating 32-bit words in an `int` is addition modulo 2^32. */
  lemma AsInt32Add(a: int, b: int)
    ensures AsInt32(AsInt32(a) + b) == AsInt32(a + b)
  {
    var m := a % 0x1_0000_0000;
    assert (AsInt32(a) + b) % 0x1_0000_0000 == (a + b) % 0x1_0000_0000 by {
      assert AsInt32(a) == m || AsInt32(a) == m - 0x1_0000_0000;
      assert a == (a / 0x1_0000_0000) * 0x1_0000_0000 + m;
    }
  }
}
