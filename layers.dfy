/**
  What the firmware's inference layers (Microblaze/ACC.c:454-690) share:
  the requantization of an accumulator into a stored activation, the PE
  selection mask, the pairing of two accelerator operations, and facts
  about writing a run of values into a sequence.

  The float rescale `(int32_t)round(multiplier * mac)` is a parameter
  `round`: `round(k, mac)` is the rescaled accumulator for the scale with
  index `k` (the filter or the weight whose scale the multiplier uses).
*/
module Layers {
  import opened Bytes
  import opened Accelerator

  /** The abstract float rescale. */
  type Rescale = (nat, int) -> int

  /** The clamp `if (scaled < 0) scaled = 0; if (scaled > 127) scaled = 127;`. */
  function Clamp(x: int): (r: Int8)
    ensures 0 <= r <= 127
    ensures 0 <= x <= 127 ==> r == x
    ensures x < 0 ==> r == 0
    ensures x > 127 ==> r == 127
  {
    if x < 0 then 0 else if x > 127 then 127 else x
  }

  /** A stored activation: the rescaled accumulator plus the output zero
      point, clamped. */
  function Requantize(round: Rescale, scale: nat, mac: int, zY: int): (r: Int8)
    ensures 0 <= r <= 127
  {
    Clamp(round(scale, mac) + zY)
  }

  /** `uint8_t pe_mask = 1 << (k % 8)`. */
  function PeMask(k: nat): Byte {
    ((1 as bv8) << (k % 8)) as int
  }

  /** Multiplying by a non-negative factor keeps order. */
  lemma MulLe(a: nat, b: nat, w: nat)
    requires a <= b
    ensures a * w <= b * w
  {
  }

  /** The product x * y as repeated addition. Index arithmetic with two
      variable factors is written with it, and its facts are proved by
      induction, so that the solver meets such a product only where
      MulIsProduct converts one. */
  function Mul(x: nat, y: nat): nat {
    if x == 0 then 0 else Mul(x - 1, y) + y
  }

  lemma {:induction false} MulIsProduct(x: nat, y: nat)
    ensures Mul(x, y) == x * y
  {
    if x > 0 {
      MulIsProduct(x - 1, y);
    }
  }

  /** MulLe for Mul. */
  lemma {:induction false} MulMonotone(a: nat, b: nat, c: nat)
    requires a <= b
    ensures Mul(a, c) <= Mul(b, c)
  {
    if a < b {
      MulMonotone(a, b - 1, c);
    }
  }

  /** Two operations queued back to back, the first in slot 0 and the
      second in slot 1, then both answers read back in that order: the
      pairing both convolutions' inner loops use (Microblaze/ACC.c:479-495,
      559-578). */
  method RunPair(dev: Device, input0: seq<Int8>, filter0: seq<Int8>, mask0: Byte,
                 input1: seq<Int8>, filter1: seq<Int8>, mask1: Byte) returns (results: seq<U32>)
    requires dev.Valid() && dev.Drained()
    requires |input0| == 9 && |filter0| == 9 && |input1| == 9 && |filter1| == 9
    modifies dev, dev.registers
    ensures dev.Valid() && dev.Drained()
    ensures dev.issued == old(dev.issued) + [Op(0, Unsigned(input0), Unsigned(filter0), mask0),
                                             Op(1, Unsigned(input1), Unsigned(filter1), mask1)]
    ensures results == [dev.respond(Op(0, Unsigned(input0), Unsigned(filter0), mask0)),
                        dev.respond(Op(1, Unsigned(input1), Unsigned(filter1), mask1))]
  {
    dev.Dispatch(input0, filter0, 0, mask0);
    dev.Dispatch(input1, filter1, 1, mask1);
    results := dev.ReadResults(2);
  }

  /** Writing `ws` right after a run `vs` written at `base` extends the
      run to `vs + ws`. */
  lemma SpliceAppend<T>(a: seq<T>, vs: seq<T>, ws: seq<T>, base: nat)
    requires base + |vs| + |ws| <= |a|
    ensures var o := a[..base] + vs + a[base + |vs|..];
            o[..base + |vs|] + ws + o[base + |vs| + |ws|..] == a[..base] + (vs + ws) + a[base + |vs| + |ws|..]
  {
    var o := a[..base] + vs + a[base + |vs|..];
    assert o[..base + |vs|] == a[..base] + vs;
    assert o[base + |vs| + |ws|..] == a[base + |vs| + |ws|..];
  }

  /** The next two entries of `xs` extend its first `g`. */
  lemma Append2<T>(prior: seq<T>, xs: seq<T>, g: nat)
    requires g + 2 <= |xs|
    ensures prior + xs[..g] + [xs[g], xs[g + 1]] == prior + xs[..g + 2]
  {
    assert xs[..g + 2] == xs[..g] + [xs[g], xs[g + 1]];
  }

  /** Writing entries `g` and `g + 1` of `vs` at `base + g` into a sequence
      that holds the first `g` entries of `vs` from `base` on leaves the
      first `g + 2` there. */
  lemma Splice2<T>(a: seq<T>, vs: seq<T>, base: nat, g: nat)
    requires base + |vs| <= |a| && g + 2 <= |vs|
    ensures var o := a[..base] + vs[..g] + a[base + g..];
            o[..base + g] + vs[g..g + 2] + o[base + g + 2..] == a[..base] + vs[..g + 2] + a[base + g + 2..]
  {
    var o := a[..base] + vs[..g] + a[base + g..];
    assert o[..base + g] == a[..base] + vs[..g];
    assert o[base + g + 2..] == a[base + g + 2..];
    assert vs[..g + 2] == vs[..g] + vs[g..g + 2];
  }

  /** A sequence with `vs` written at `base` holds the old entries before
      `base`, then `vs`, then the old entries after. */
  lemma SplicedParts<T>(a: seq<T>, vs: seq<T>, base: nat)
    requires base + |vs| <= |a|
    ensures (a[..base] + vs + a[base + |vs|..])[..base + |vs|] == a[..base] + vs
    ensures (a[..base] + vs + a[base + |vs|..])[base + |vs|..] == a[base + |vs|..]
  {
  }

  /** Concatenation regroups. */
  lemma AppendAssoc<T>(a: seq<T>, b: seq<T>, c: seq<T>)
    ensures a + b + c == a + (b + c)
  {
  }

  /** Storing `v` at `m` extends the first `m` entries by `v`. */
  lemma StoredAt<T>(a: seq<T>, m: nat, v: T)
    requires m < |a|
    ensures a[m := v][..m + 1] == a[..m] + [v]
  {
  }
}
